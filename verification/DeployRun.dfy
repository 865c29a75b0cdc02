/** A whole deployment run: claim, steps, rolling update, clean-up and the final status, and
    the engine that carries it out. */
module DeployRun {
  import opened Text
  import opened Deployment
  import opened DeployEngine
  import opened RollingUpdate
  import opened ZeroDowntime

  // ----- a whole run ---------------------------------------------------------------------------------

  /** A step before the rolling update: a command on the build helper or the server, or work
      of the engine itself that may fail. */
  datatype Step = Run(allowFailure: bool) | Internal

  datatype Verdict = Skipped | Succeeded | WasCancelled | HasFailed

  /** Only commands that leave the containers alone have been dispatched. */
  ghost predicate OnlyWork(w: World, v: World) {
    && w.log <= v.log && v.containers == w.containers
    && forall k :: |w.log| <= k < |v.log| ==> v.log[k].command.Work? && v.log[k].after == w.containers
  }

  function Prepare(w: World, env: Env, d: Job, steps: seq<Step>): (r: (World, Result<()>))
    ensures Follows(w, r.0) && OnlyWork(w, r.0)
    decreases |steps|
  {
    hide Sound, OneStep;
    if |steps| == 0 then (w, Ok(()))
    else
      var (v, e) := OneStep(w, env, d, steps[0]);
      if e.Some? then (v, Err(e.value)) else Prepare(v, env, d, steps[1..])
  }

  function OneStep(w: World, env: Env, d: Job, step: Step): (r: (World, Option<Error>))
    ensures Follows(w, r.0) && OnlyWork(w, r.0)
  {
    hide Sound, ExecStep;
    match step
    case Run(allowFailure) =>
      var (v, out) := ExecStep(w, env, d, Work, allowFailure);
      (v, if out.Err? then Some(out.error) else None)
    case Internal => (Tick(w, env), if env.answers(w.clock).db then None else Some(Build))
  }

  function RunSteps(w: World, env: Env, d: Job, steps: seq<Step>, rolling: bool): (r: (World, Result<()>))
    ensures Follows(w, r.0)
  {
    hide Sound, Rolling;
    var (v, out) := Prepare(w, env, d, steps);
    if out.Err? || !rolling then (v, out) else Rolling(v, env, d)
  }

  function Claim(w: World, env: Env): (r: (World, Result<bool>))
    ensures Follows(w, r.0) && r.0.log == w.log && r.0.containers == w.containers
    ensures r.1.Ok? ==> (r.1.value <==> r.0.status == InProgress)
  {
    hide Sound;
    var (v, moved) := SetStatus(w, env, InProgress);
    if moved.Err? || moved.value then (v, moved)
    else
      var u := Tick(v, env);
      (u, if env.answers(v.clock).db then Ok(u.status == InProgress) else Err(Db))
  }

  /** Removal of the build helper, whatever became of the steps and whatever it answers. */
  function Cleanup(w: World): World { w.(cleanups := w.cleanups + [|w.log|]) }

  function Final(out: Result<()>): (Status, Verdict) {
    match out
    case Ok(_) => (Finished, Succeeded)
    case Err(Aborted) => (Cancelled, WasCancelled)
    case Err(_) => (Failed, HasFailed)
  }

  function Conclude(w: World, env: Env, out: Result<()>): (World, Result<Verdict>) {
    var (v, moved) := SetStatus(w, env, Final(out).0);
    if moved.Err? then (v, Err(moved.error))
    else (v.(running := v.running || out.Ok?), Ok(Final(out).1))
  }

  function RunDeployment(w: World, env: Env, d: Job, steps: seq<Step>, rolling: bool): (World, Result<Verdict>) {
    var (v, claimed) := Claim(w, env);
    if claimed.Err? then (v, Err(claimed.error))
    else if !claimed.value then (v, Ok(Skipped))
    else
      var (u, out) := RunSteps(v, env, d, steps, rolling);
      Conclude(Cleanup(u), env, out)
  }

  /** Over a whole run the status moves only along legal edges, a terminal one stays, and
      the engine broadcasts exactly its own moves. A claimed run removes its helper exactly
      once, after its last command, and ends in a terminal status unless the last query
      failed; an unclaimed one dispatches nothing. */
  lemma RunKeepsTheProtocol(w: World, env: Env, d: Job, steps: seq<Step>, rolling: bool)
    requires Sound(w)
    ensures var (v, r) := RunDeployment(w, env, d, steps, rolling);
            var claimed := Claim(w, env).1;
            && Sound(v) && w.history <= v.history && (Terminal(w.status) ==> v.status == w.status)
            && (claimed == Ok(true) ==> v.cleanups == w.cleanups + [|v.log|])
            && (claimed != Ok(true) ==> v.cleanups == w.cleanups && v.log == w.log)
            && (r == Ok(Skipped) <==> claimed == Ok(false))
            && (r.Ok? && r != Ok(Skipped) ==> Terminal(v.status))
  {
    hide RunSteps, SetStatus, Tick, Move;
    var (v, claimed) := Claim(w, env);
    if claimed == Ok(true) {
      var (u, out) := RunSteps(v, env, d, steps, rolling);
      var c := Cleanup(u);
      assert Sound(c);
      assert Follows(c, SetStatus(c, env, Final(out).0).0);
    }
  }

  lemma ServesSinceEarlier(w: World, y: World, log: seq<Moment>, k: nat, d: Job)
    requires |w.log| <= |y.log| <= k < |log| && y.containers == w.containers && Serving(d, y, log, k)
    ensures Serving(d, w, log, k)
  {
    if !Keeps(w.containers, log[k].after) && d.health {
      var j :| |y.log| <= j < k && Passes(d, log[j]);
    }
  }

  /** No downtime over a whole run that may replace alongside, from its first command to its last. */
  lemma RunServes(w: World, env: Env, d: Job, steps: seq<Step>, rolling: bool)
    requires Eligible(d) && d.name !in w.containers
    ensures var v := RunDeployment(w, env, d, steps, rolling).0;
            forall k :: |w.log| <= k < |v.log| ==> Serving(d, w, v.log, k)
  {
    hide ReplaceGated, Recreate, Prepare, CheckCancel, Claim, Sound;
    var (v, claimed) := Claim(w, env);
    if claimed == Ok(true) {
      var (x, out) := Prepare(v, env, d, steps);
      if out.Ok? && rolling {
        var (y, e) := CheckCancel(x, env);
        if e.None? {
          ReplaceServes(y, env, d);
          var u := ReplaceGated(y, env, d).0;
          forall k | |w.log| <= k < |u.log| ensures Serving(d, w, u.log, k) {
            if k < |x.log| { assert u.log[k] == x.log[k]; } else { ServesSinceEarlier(w, y, u.log, k, d); }
          }
        }
      }
    }
  }

  /** Once a cancellation is there, no further command is dispatched in any step. */
  lemma {:induction false} NothingAfterCancel(w: World, env: Env, d: Job, steps: seq<Step>, rolling: bool)
    requires Cancelling(w)
    ensures var (v, r) := RunSteps(w, env, d, steps, rolling);
            v.log == w.log && v.containers == w.containers && (rolling ==> r.Err?)
    decreases |steps|
  {
    hide ExecStep, Recreate, ReplaceGated, Tick;
    if |steps| > 0 {
      NothingAfterCancel(OneStep(w, env, d, steps[0]).0, env, d, steps[1..], rolling);
    }
  }

  /** A run marks the application as running exactly if its steps and the last query succeed;
      the deployment then ends finished exactly if its row is in progress, or finished by
      another party, when the last statement runs. */
  lemma RunningIffSuccessful(w: World, env: Env, d: Job, steps: seq<Step>, rolling: bool)
    ensures var (v, r) := RunDeployment(w, env, d, steps, rolling);
            var u := RunSteps(Claim(w, env).0, env, d, steps, rolling).0;
            var late := Tick(Cleanup(u), env).status;
            && (v.running <==> w.running || r == Ok(Succeeded))
            && (r == Ok(Succeeded) ==>
                  && (v.status == Finished <==> late == InProgress || late == Finished)
                  && v.events == u.events + (if late == InProgress then [Finished] else [])
                  && v.status == (if late == InProgress then Finished else late))
  {
    hide RunSteps, Claim, Tick, Sound;
  }

  /** Which answer the claim gives: the deployment moves to in progress, or has been moved there
      by another party, and a failing query is an error. */
  lemma ClaimExact(w: World, env: Env)
    ensures var a, b := env.answers(w.clock), env.answers(w.clock + 1);
            var first, second := Tick(w, env), Tick(Tick(w, env), env);
            var (v, r) := Claim(w, env);
            && (!a.db ==> r == Err(Db) && v.status == first.status)
            && (a.db && first.status == Queued ==> r == Ok(true) && v.events == w.events + [InProgress])
            && (a.db && first.status != Queued && !b.db ==> r == Err(Db) && v.events == w.events)
            && (a.db && first.status != Queued && b.db ==> r == Ok(second.status == InProgress) && v.events == w.events)
  {
    hide Sound, Follows;
  }

  /** Work of the engine itself fails exactly if its query does, and then nothing after it is done. */
  lemma InternalExact(w: World, env: Env, d: Job, steps: seq<Step>)
    requires |steps| > 0 && steps[0] == Internal
    ensures var a := env.answers(w.clock);
            Prepare(w, env, d, steps) == if a.db then Prepare(Tick(w, env), env, d, steps[1..]) else (Tick(w, env), Err(Build))
  {
    hide Tick, Sound, Follows;
  }

  /** How a claimed run ends. If the last query works, the verdict is success, cancellation or
      failure as its steps end; a row still in progress then takes the status of that verdict,
      which is broadcast, and any other row stays as it is. */
  lemma EndingExact(w: World, env: Env, d: Job, steps: seq<Step>, rolling: bool)
    requires Claim(w, env).1 == Ok(true)
    ensures var (u, out) := RunSteps(Claim(w, env).0, env, d, steps, rolling);
            var (v, r) := RunDeployment(w, env, d, steps, rolling);
            var late := Tick(u, env);
            var ending := if out.Ok? then Finished else if out.error == Aborted then Cancelled else Failed;
            && v.log == u.log && v.containers == u.containers
            && (!env.answers(u.clock).db ==> r == Err(Db) && v.status == late.status && v.events == u.events && v.running == w.running)
            && (env.answers(u.clock).db ==>
                  && r == Ok(if out.Ok? then Succeeded else if out.error == Aborted then WasCancelled else HasFailed)
                  && v.status == (if late.status == InProgress then ending else late.status)
                  && v.events == (if late.status == InProgress then u.events + [ending] else u.events)
                  && v.running == (w.running || out.Ok?))
  {
    hide RunSteps, Claim, Sound;
    var u := RunSteps(Claim(w, env).0, env, d, steps, rolling).0;
    assert Follows(Claim(w, env).0, u);
    assert Tick(Cleanup(u), env) == Tick(u, env).(cleanups := Cleanup(u).cleanups);
  }

  /** An unclaimed run changes nothing but what others do meanwhile. */
  lemma UnclaimedExact(w: World, env: Env, d: Job, steps: seq<Step>, rolling: bool)
    requires Claim(w, env).1 != Ok(true)
    ensures RunDeployment(w, env, d, steps, rolling)
            == (Claim(w, env).0, if Claim(w, env).1 == Ok(false) then Ok(Skipped) else Err(Claim(w, env).1.error))
  {
    hide Claim;
  }

  /** A cancellation arrives after the last check: the deployment stays cancelled while the
      application is marked as running. */
  lemma CancelledYetRunning(w: World, d: Job) returns (env: Env)
    requires w.status == Queued && !w.shutdown
    ensures var (v, r) := RunDeployment(w, env, d, [Internal], false);
            r == Ok(Succeeded) && v.status == Cancelled && v.running
  {
    hide Follows, Sound;
    env := Env(n => Answer(false, if n == w.clock + 2 then Some(Cancelled) else None, true),
               n => Reply(0, false, 0, "", false, {}));
    var v := Claim(w, env).0;
    assert v.clock == w.clock + 1 && v.status == InProgress;
    assert RunSteps(v, env, d, [Internal], false).1 == Ok(());
    var u := RunSteps(v, env, d, [Internal], false).0;
    assert u.clock == w.clock + 2 && u.status == InProgress;
  }

  // ----- the engine ------------------------------------------------------------------------------------

  /** The engine of one deployment. The world it acts on is the only thing it changes. */
  class Engine {
    const env: Env
    const d: Job
    var world: World

    constructor (env: Env, d: Job, world: World)
      ensures this.env == env && this.d == d && this.world == world
    {
      this.env, this.d, this.world := env, d, world;
    }

    method PollCancel() returns (e: Option<Error>)
      modifies this
      ensures (world, e) == CheckCancel(old(world), env)
    {
      var a := env.answers(world.clock);
      world := Tick(world, env);
      if world.shutdown { return Some(Aborted); }
      if !a.db { return Some(Db); }
      if world.status == Cancelled { return Some(Aborted); }
      e := None;
    }

    method TrySetStatus(to: Status) returns (moved: Result<bool>)
      modifies this
      ensures (world, moved) == SetStatus(old(world), env, to)
    {
      var a := env.answers(world.clock);
      world := Tick(world, env);
      if !a.db { return Err(Db); }
      if CanTransition(world.status, to) {
        world := Move(world, to, true);
        return Ok(true);
      }
      moved := Ok(false);
    }

    method RunCommand(c: Command, allowFailure: bool) returns (out: Result<Reply>)
      modifies this
      ensures (world, out) == ExecStep(old(world), env, d, c, allowFailure)
    {
      hide CheckCancel, Follows, Dispatch;
      var e := PollCancel();
      if e.Some? { return Err(e.value); }
      var reply := env.replies(|world.log|);
      world := Dispatch(world, env, d, c);
      ghost var started := world;
      var left := reply.polls;
      while left > 0
        invariant Polls(world, env, left) == Polls(started, env, reply.polls)
      {
        e := PollCancel();
        if e.Some? { return Err(e.value); }
        left := left - 1;
      }
      if reply.broken { return Err(Exec); }
      if !allowFailure && reply.exit != 0 { return Err(Build); }
      out := Ok(reply);
    }

    method ProbeHealth() returns (health: Result<Health>)
      modifies this
      ensures (world, health) == Attempt(old(world), env, d)
    {
      hide ExecStep, CheckCancel, Follows;
      var e := PollCancel();
      if e.Some? { return Err(e.value); }
      var out := RunCommand(Inspect, true);
      health := if out.Err? then Err(out.error) else Ok(Inspected(d, world.containers, out.value));
    }

    method WaitHealthy() returns (r: Result<()>)
      modifies this
      ensures (world, r) == HealthCheck(old(world), env, d)
    {
      hide Attempt, Follows, OnlyInspects;
      if !d.health { return Ok(()); }
      var left: nat := if d.retries < 1 then 1 else d.retries;
      while left > 0
        invariant Attempts(world, env, d, left) == HealthCheck(old(world), env, d)
      {
        var health := ProbeHealth();
        if health.Err? { return Err(health.error); }
        match health.value {
          case Healthy => return Ok(());
          case Unhealthy => return Err(Error.Unhealthy);
          case _ =>
        }
        left := left - 1;
      }
      r := Err(Error.Unhealthy);
    }

    method StopOtherContainers(except: Option<string>) returns (r: Result<()>)
      modifies this
      ensures (world, r) == StopOthers(old(world), env, d, except)
    {
      var out := RunCommand(List, true);
      if out.Err? { return Err(out.error); }
      var names := Listed(d, world.containers, out.value) - (if except.Some? then {except.value} else {}) - {""};
      if names == {} { return Ok(()); }
      out := RunCommand(Remove(names), true);
      r := if out.Err? then Err(out.error) else Ok(());
    }

    method RollingUpdate() returns (r: Result<()>)
      modifies this
      ensures (world, r) == Rolling(old(world), env, d)
    {
      var e := PollCancel();
      if e.Some? { return Err(e.value); }
      if !Eligible(d) {
        r := StopOtherContainers(None);
        if r.Err? { return r; }
        var up := RunCommand(Up(true), false);
        return if up.Err? then Err(up.error) else Ok(());
      }
      var up := RunCommand(Up(false), false);
      if up.Err? { return Err(up.error); }
      r := WaitHealthy();
      if r.Ok? {
        r := StopOtherContainers(Some(d.name));
      } else {
        var _ := RunCommand(Logs, true);
        var _ := RunCommand(Remove({d.name}), true);
      }
    }

    method Steps(steps: seq<Step>, rolling: bool) returns (r: Result<()>)
      modifies this
      ensures (world, r) == RunSteps(old(world), env, d, steps, rolling)
    {
      hide Follows, OnlyWork, Rolling, ExecStep, Tick;
      var i := 0;
      while i < |steps|
        invariant 0 <= i <= |steps|
        invariant Prepare(world, env, d, steps[i..]) == Prepare(old(world), env, d, steps)
      {
        assert steps[i..][0] == steps[i] && steps[i..][1..] == steps[i + 1..];
        match steps[i] {
          case Run(allowFailure) =>
            var out := RunCommand(Work, allowFailure);
            if out.Err? { return Err(out.error); }
          case Internal =>
            var a := env.answers(world.clock);
            world := Tick(world, env);
            if !a.db { return Err(Build); }
        }
        i := i + 1;
      }
      if !rolling { return Ok(()); }
      r := RollingUpdate();
    }

    method TryClaim() returns (claimed: Result<bool>)
      modifies this
      ensures (world, claimed) == Claim(old(world), env)
    {
      claimed := TrySetStatus(InProgress);
      if claimed.Err? || claimed.value { return; }
      var a := env.answers(world.clock);
      world := Tick(world, env);
      claimed := if a.db then Ok(world.status == InProgress) else Err(Db);
    }

    method RunToTheEnd(steps: seq<Step>, rolling: bool) returns (r: Result<Verdict>)
      modifies this
      ensures (world, r) == RunDeployment(old(world), env, d, steps, rolling)
    {
      var claimed := TryClaim();
      if claimed.Err? { return Err(claimed.error); }
      if !claimed.value { return Ok(Skipped); }
      var out := Steps(steps, rolling);
      world := Cleanup(world);
      var moved := TrySetStatus(Final(out).0);
      if moved.Err? { return Err(moved.error); }
      if out.Ok? { world := world.(running := true); }
      r := Ok(Final(out).1);
    }
  }
}
