/** What a whole deployment run leaves on the server, by the way it goes. */
module RunOutcome {
  import opened Text
  import opened Deployment
  import opened DeployEngine
  import opened RollingUpdate
  import opened ZeroDowntime
  import opened RollingOutcome
  import opened HealthGate
  import opened DeployRun

  /** Where the rolling update of a run starts, if it gets there. */
  function RollingStart(w: World, env: Env, d: Job, steps: seq<Step>, rolling: bool): Option<World> {
    var (v, claimed) := Claim(w, env);
    if claimed != Ok(true) || !rolling then None
    else
      var (x, out) := Prepare(v, env, d, steps);
      if out.Err? then None
      else
        var (y, e) := CheckCancel(x, env);
        if e.Some? then None else Some(y)
  }

  /** A run that does not get to the rolling update leaves the containers as they were; any
      other leaves what the rolling update leaves from there. */
  lemma RunLeaves(w: World, env: Env, d: Job, steps: seq<Step>, rolling: bool)
    requires Eligible(d) ==> d.name !in w.containers
    ensures var v := RunDeployment(w, env, d, steps, rolling).0;
            match RollingStart(w, env, d, steps, rolling)
            case None => v.containers == w.containers
            case Some(y) =>
              && y.containers == w.containers && w.log <= y.log
              && v.containers == if Eligible(d) then LeftByReplace(y, env, d) else LeftByRecreate(y, env, d)
  {
    hide ReplaceGated, Recreate, Prepare, CheckCancel, Claim, LeftByReplace, LeftByRecreate, SetStatus, Follows;
    var y := RollingStart(w, env, d, steps, rolling);
    if y.Some? {
      if Eligible(d) { ReplaceOutcome(y.value, env, d); } else { RecreateLeaves(y.value, env, d); }
    }
  }

  lemma GatedFromEarlier(d: Job, log: seq<Moment>, from: nat, earlier: nat)
    requires earlier <= from <= |log| && Gated(d, log, from, |log|)
    ensures Gated(d, log, earlier, |log|)
  {
    if d.health {
      var j :| from <= j < |log| && Passes(d, log[j]);
    }
  }

  lemma StartIsLogged(w: World, env: Env, d: Job)
    requires ReplaceGated(w, env, d).1.Ok?
    ensures var v := ReplaceGated(w, env, d).0; |v.log| > |w.log| && v.log[|w.log|].command == Up(false)
  {
    hide ExecStep, HealthCheck, StopOthers, Sound;
    var x := ExecStep(w, env, d, Up(false), false).0;
    assert OneCommand(w, x, env, d, Up(false)) && x.log[|w.log|].command == Up(false);
    var v := ReplaceGated(w, env, d).0;
    assert x.log <= v.log;
    assert v.log[|w.log|] == x.log[|w.log|];
  }

  /** With complete listings and removals, a successful run that may replace alongside leaves
      exactly its new container, past its gate, and what it must not touch. */
  lemma SuccessfulRunRenews(w: World, env: Env, d: Job, steps: seq<Step>)
    requires Eligible(d) && d.name !in w.containers && Honest(env)
    ensures var (v, r) := RunDeployment(w, env, d, steps, true);
            r == Ok(Succeeded) ==>
              && w.log <= v.log && Gated(d, v.log, |w.log|, |v.log|)
              && exists id :: |w.log| <= id < |v.log| && v.log[id].command == Up(false) && v.containers == Renewed(d, w.containers, id)
  {
    hide ReplaceGated, Prepare, CheckCancel, Claim, SetStatus, Follows, Renewed, Gated;
    var (v, r) := RunDeployment(w, env, d, steps, true);
    if r == Ok(Succeeded) {
      var y := RollingStart(w, env, d, steps, true).value;
      SuccessLeavesTheNew(y, env, d);
      SuccessIsGated(y, env, d);
      StartIsLogged(y, env, d);
      GatedFromEarlier(d, v.log, |y.log|, |w.log|);
    }
  }

  // ----- runs that nothing disturbs -------------------------------------------------------

  /** The commands among the first `n` steps. */
  function CommandsIn(steps: seq<Step>, n: nat): nat
    requires n <= |steps|
  {
    if n == 0 then 0 else CommandsIn(steps, n - 1) + (if steps[n - 1].Run? then 1 else 0)
  }

  /** The step `i`, if it may not fail, exits with 0; the commands of the steps start at number `from`. */
  predicate BuiltAt(env: Env, from: nat, steps: seq<Step>, i: nat)
    requires i < |steps|
  {
    steps[i] == Run(false) ==> env.replies(from + CommandsIn(steps, i)).exit == 0
  }

  predicate Built(env: Env, from: nat, steps: seq<Step>) {
    forall i :: 0 <= i < |steps| ==> BuiltAt(env, from, steps, i)
  }

  lemma {:induction false} CommandsTail(steps: seq<Step>, n: nat)
    requires n < |steps|
    ensures CommandsIn(steps, n + 1) == (if steps[0].Run? then 1 else 0) + CommandsIn(steps[1..], n)
  {
    if n > 0 { CommandsTail(steps, n - 1); }
  }

  lemma BuiltFirst(env: Env, from: nat, next: nat, steps: seq<Step>)
    requires |steps| > 0 && next == from + (if steps[0].Run? then 1 else 0)
    ensures Built(env, from, steps) <==> (steps[0] == Run(false) ==> env.replies(from).exit == 0) && Built(env, next, steps[1..])
  {
    var rest := steps[1..];
    assert BuiltAt(env, from, steps, 0) <==> (steps[0] == Run(false) ==> env.replies(from).exit == 0);
    forall i: nat | i < |rest| ensures BuiltAt(env, next, rest, i) <==> BuiltAt(env, from, steps, i + 1) { CommandsTail(steps, i); }
    hide BuiltAt;
    if Built(env, next, rest) && BuiltAt(env, from, steps, 0) {
      forall i | 0 <= i < |steps| ensures BuiltAt(env, from, steps, i) {
        if i > 0 { assert BuiltAt(env, next, rest, i - 1); }
      }
    }
  }

  lemma CalmStep(w: World, env: Env, d: Job, step: Step)
    requires Calm(w, env)
    ensures var (v, e) := OneStep(w, env, d, step);
            && Calm(v, env) && v.status == w.status && |v.log| == |w.log| + (if step.Run? then 1 else 0)
            && e == if step == Run(false) && env.replies(|w.log|).exit != 0 then Some(Build) else None
  {
    hide ExecStep, CheckCancel, Follows, Sound;
    if step.Run? { CalmExec(w, env, d, Work, step.allowFailure); }
  }

  /** The steps succeed exactly if every command that may not fail exits with 0. */
  lemma {:induction false} CalmSteps(w: World, env: Env, d: Job, steps: seq<Step>)
    requires Calm(w, env)
    ensures var (v, out) := Prepare(w, env, d, steps);
            && Calm(v, env) && v.status == w.status && v.containers == w.containers
            && out == (if Built(env, |w.log|, steps) then Ok(()) else Err(Build))
            && (out.Ok? ==> |v.log| == |w.log| + CommandsIn(steps, |steps|))
    decreases |steps|
  {
    hide Calm, OneStep, Built, Follows;
    if |steps| == 0 {
      assert Built(env, |w.log|, steps) by { NothingToBuild(env, |w.log|); }
    } else {
      CalmStep(w, env, d, steps[0]);
      var v := OneStep(w, env, d, steps[0]).0;
      BuiltFirst(env, |w.log|, |w.log| + (if steps[0].Run? then 1 else 0), steps);
      CommandsTail(steps, |steps| - 1);
      CalmSteps(v, env, d, steps[1..]);
    }
  }

  lemma NothingToBuild(env: Env, from: nat)
    ensures Built(env, from, [])
  {
  }

  lemma CalmClaim(w: World, env: Env)
    requires Calm(w, env) && w.status == Queued
    ensures var (v, claimed) := Claim(w, env);
            && claimed == Ok(true) && v.status == InProgress && Calm(v, env)
            && v.events == w.events + [InProgress] && v.running == w.running
  {
    hide Follows, Sound;
  }

  lemma CalmRolling(w: World, env: Env, d: Job)
    requires Calm(w, env) && Honest(env) && Eligible(d) && d.name !in w.containers
    ensures var (u, out) := Rolling(w, env, d);
            var start := |w.log|;
            && Calm(u, env) && u.status == w.status
            && if env.replies(start).exit != 0 then
                 out == Err(Build)
                 && u.containers == if env.replies(start).created then w.containers[d.name := Fresh(d, start)] else w.containers
               else if !d.health || Opens(env, start + 1, d.retries) then
                 out == Ok(()) && u.containers == Renewed(d, w.containers, start)
               else
                 out == Err(Error.Unhealthy) && u.containers == w.containers
  {
    hide ReplaceGated, Recreate, CheckCancel, Follows, Opens, Renewed, Honest, Eligible, Calm;
    CalmCheck(w, env);
    CalmUpdate(CheckCancel(w, env).0, env, d);
  }

  /** The steps and the rolling update of such a run. */
  lemma CalmWork(w: World, env: Env, d: Job, steps: seq<Step>)
    requires Calm(w, env) && Honest(env) && Eligible(d) && d.name !in w.containers
    ensures var (u, out) := RunSteps(w, env, d, steps, true);
            var start := |w.log| + CommandsIn(steps, |steps|);
            && Calm(u, env) && u.status == w.status
            && if !Built(env, |w.log|, steps) then
                 out == Err(Build) && u.containers == w.containers
               else if env.replies(start).exit != 0 then
                 out == Err(Build)
                 && u.containers == if env.replies(start).created then w.containers[d.name := Fresh(d, start)] else w.containers
               else if !d.health || Opens(env, start + 1, d.retries) then
                 out == Ok(()) && u.containers == Renewed(d, w.containers, start)
               else
                 out == Err(Error.Unhealthy) && u.containers == w.containers
  {
    hide Prepare, Rolling, Follows, OnlyWork, Opens, Built, Renewed, Honest, Eligible, Calm, Fresh, CommandsIn;
    CalmSteps(w, env, d, steps);
    var (x, out) := Prepare(w, env, d, steps);
    if out.Ok? { CalmRolling(x, env, d); }
  }

  /** A whole run of a queued deployment that nothing disturbs. It fails if a step fails that
      may not, and then changes no container; it fails if the start fails; and otherwise the
      gate decides whether it succeeds with the new container in place of the old ones or fails
      with the old ones alone. */
  lemma CalmRun(w: World, env: Env, d: Job, steps: seq<Step>)
    requires Calm(w, env) && w.status == Queued && Honest(env) && Eligible(d) && d.name !in w.containers
    ensures var (v, r) := RunDeployment(w, env, d, steps, true);
            var start := |w.log| + CommandsIn(steps, |steps|);
            if Built(env, |w.log|, steps) && env.replies(start).exit == 0 && (!d.health || Opens(env, start + 1, d.retries)) then
              r == Ok(Succeeded) && v.status == Finished && v.running && v.containers == Renewed(d, w.containers, start)
            else
              && r == Ok(HasFailed) && v.status == Failed && v.running == w.running
              && v.containers == if Built(env, |w.log|, steps) && env.replies(start).exit != 0 && env.replies(start).created
                                 then w.containers[d.name := Fresh(d, start)] else w.containers
  {
    hide Claim, RunSteps, RunDeployment, Opens, Built, Renewed, Honest, Eligible, Follows, Sound;
    CalmClaim(w, env);
    var v := Claim(w, env).0;
    CalmWork(v, env, d, steps);
    EndingExact(w, env, d, steps, true);
    var u := RunSteps(v, env, d, steps, true).0;
    assert Tick(u, env).status == InProgress;
  }
}
