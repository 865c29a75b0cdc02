/** What a rolling update leaves behind, by the way it ends. */
module RollingOutcome {
  import opened Text
  import opened DeployEngine
  import opened RollingUpdate
  import opened ZeroDowntime

  /** The containers that a deployment must not touch, and its new one. */
  function Renewed(d: Job, cs: Containers, id: nat): Containers {
    (map n | n in cs && (cs[n].app != d.app || cs[n].pr != d.pr || !cs[n].managed || n == "") :: cs[n])
      [d.name := Container(id, d.app, d.pr, true, d.app)]
  }

  lemma UpOutcome(w: World, env: Env, d: Job)
    requires d.name !in w.containers
    ensures var (x, up) := ExecStep(w, env, d, Up(false), false);
            && (x.containers == w.containers || x.containers == w.containers[d.name := Fresh(d, |w.log|)])
            && (up.Ok? ==> x.containers == w.containers[d.name := Fresh(d, |w.log|)])
  {
    hide ExecStep, Follows;
    var (x, up) := ExecStep(w, env, d, Up(false), false);
    var kept := map n | n in w.containers :: w.containers[n];
    assert kept == w.containers;
  }

  /** The removal of the new container passes its cancellation check and is effective. `u` is
      where the failed gate ends; the logs are fetched first. */
  predicate RemovalPasses(u: World, env: Env, d: Job) {
    var l := ExecStep(u, env, d, Logs, true).0;
    CheckCancel(l, env).1.None? && d.name !in env.replies(|l.log|).missed
  }

  /** After a failed gate the new container goes exactly if nothing stops its removal. */
  lemma GiveUpOutcome(w: World, u: World, env: Env, d: Job)
    requires d.name !in w.containers && u.containers == w.containers[d.name := Fresh(d, |w.log|)]
    ensures var v := GiveUp(u, env, d);
            && (v.containers == w.containers || v.containers == u.containers)
            && (v.containers == w.containers <==> RemovalPasses(u, env, d))
            && (Honest(env) ==> (v.containers == w.containers <==> CheckCancel(ExecStep(u, env, d, Logs, true).0, env).1.None?))
            && (Honest(env) ==> (v.containers == w.containers
                                 <==> |v.log| > |u.log| && v.log[|v.log| - 1].command == Remove({d.name})))
  {
    hide ExecStep, CheckCancel, Follows;
    var (l, _) := ExecStep(u, env, d, Logs, true);
    var (v, _) := ExecStep(l, env, d, Remove({d.name}), true);
    assert env.replies(|l.log|).missed == {} <== Honest(env);
    if CheckCancel(l, env).1.None? {
      assert v.containers == if d.name in env.replies(|l.log|).missed then u.containers else w.containers;
    }
  }

  /** The gate of the rolling update that starts at `w`, with the world it is reached in. */
  function Gate(w: World, env: Env, d: Job): (World, Result<()>) {
    HealthCheck(ExecStep(w, env, d, Up(false), false).0, env, d)
  }

  lemma GateReached(w: World, env: Env, d: Job)
    requires d.name !in w.containers && ExecStep(w, env, d, Up(false), false).1.Ok?
    ensures var (u, gate) := Gate(w, env, d);
            && u.containers == w.containers[d.name := Fresh(d, |w.log|)] && w.log <= u.log
            && (gate.Ok? ==> Gated(d, u.log, |w.log|, |u.log|))
  {
    hide ExecStep, HealthCheck, Follows;
    UpOutcome(w, env, d);
    var x := ExecStep(w, env, d, Up(false), false).0;
    var (u, gate) := Gate(w, env, d);
    if gate.Ok? && d.health {
      var j :| |x.log| <= j < |u.log| && Passes(d, u.log[j]);
    }
  }

  /** A rolling update adds the new container and stops none of another application, pull
      request or user, however it ends. */
  lemma OthersUntouched(w: World, env: Env, d: Job)
    requires d.name !in w.containers
    ensures var v := ReplaceGated(w, env, d).0;
            && Keeps(v.containers, w.containers[d.name := Fresh(d, |w.log|)])
            && KeepsSpared(d, w.containers, v.containers, None)
  {
    hide ExecStep, Follows, HealthCheck, StopOthers, GiveUp, CheckCancel, Untouched, OneCommand, OnlyInspects, RemovalPasses, Honest;
    UpOutcome(w, env, d);
    if ExecStep(w, env, d, Up(false), false).1.Ok? {
      GateReached(w, env, d);
      var (u, gate) := Gate(w, env, d);
      if gate.Ok? {
        StopOthersSpares(u, env, d, Some(d.name));
        assert KeepsSpared(d, u.containers, ReplaceGated(w, env, d).0.containers, Some(d.name));
      } else {
        GiveUpOutcome(w, u, env, d);
      }
    }
  }

  /** Success means that the new container is there and has passed the gate; of the old ones
      exactly those are left that the final listing or removal missed. */
  lemma SuccessIsGated(w: World, env: Env, d: Job)
    requires d.name !in w.containers && ReplaceGated(w, env, d).1.Ok?
    ensures var v := ReplaceGated(w, env, d).0;
            && w.log <= v.log && Gated(d, v.log, |w.log|, |v.log|) && d.name in v.containers
            && forall n :: n != d.name ==>
                 (n in v.containers <==> n in w.containers && (Spared(d, n, w.containers[n], None) || Missed(Gate(w, env, d).0, env, n)))
  {
    hide ExecStep, HealthCheck, StopOthers, Follows;
    GateReached(w, env, d);
    var u := Gate(w, env, d).0;
    var v := StopOthers(u, env, d, Some(d.name)).0;
    StopOthersSpares(u, env, d, Some(d.name));
    StopOthersExact(u, env, d, Some(d.name));
    StillGated(d, u.log, v.log, |w.log|, |u.log|, |v.log|);
    assert Spared(d, d.name, u.containers[d.name], Some(d.name));
  }

  lemma RenewedExact(d: Job, before: Containers, after: Containers, id: nat)
    requires d.name !in before && d.name in after
    requires Keeps(after, before[d.name := Fresh(d, id)]) && KeepsSpared(d, before, after, None)
    requires forall n :: n in after ==> Spared(d, n, after[n], Some(d.name))
    ensures after == Renewed(d, before, id)
  {
    forall n ensures n in after <==> n in Renewed(d, before, id) {
      if n in before && n != d.name { assert Spared(d, n, before[n], None) <==> Spared(d, n, before[n], Some(d.name)); }
    }
  }

  /** With complete listings and removals, success leaves it as the only one. */
  lemma SuccessLeavesTheNew(w: World, env: Env, d: Job)
    requires d.name !in w.containers && ReplaceGated(w, env, d).1.Ok? && Honest(env)
    ensures ReplaceGated(w, env, d).0.containers == Renewed(d, w.containers, |w.log|)
  {
    hide ExecStep, HealthCheck, StopOthers, Follows, Renewed;
    GateReached(w, env, d);
    SuccessIsGated(w, env, d);
    OthersUntouched(w, env, d);
    assert forall n :: !Missed(Gate(w, env, d).0, env, n);
    RenewedExact(d, w.containers, ReplaceGated(w, env, d).0.containers, |w.log|);
  }

  lemma GateEndsWithoutRemoval(w: World, env: Env, d: Job)
    requires ExecStep(w, env, d, Up(false), false).1.Ok?
    ensures var u := Gate(w, env, d).0; |u.log| > |w.log| && !u.log[|u.log| - 1].command.Remove?
  {
    hide ExecStep, HealthCheck, CheckCancel, Follows, Effect;
    var x, u := ExecStep(w, env, d, Up(false), false).0, Gate(w, env, d).0;
    assert OneCommand(w, x, env, d, Up(false)) && OnlyInspects(x, u);
    if |u.log| == |x.log| { assert u.log[|w.log|] == x.log[|w.log|]; }
  }

  /** However the gate fails, the old containers stay, and the new one goes exactly if nothing
      stops its removal. */
  lemma FailedGateExact(w: World, env: Env, d: Job)
    requires d.name !in w.containers
    ensures var (u, gate) := Gate(w, env, d);
            var (v, r) := ReplaceGated(w, env, d);
            ExecStep(w, env, d, Up(false), false).1.Ok? && gate.Err? ==>
              && r == gate
              && v.containers == if RemovalPasses(u, env, d) then w.containers else w.containers[d.name := Fresh(d, |w.log|)]
  {
    hide ExecStep, HealthCheck, GiveUp, StopOthers, Follows, RemovalPasses;
    if ExecStep(w, env, d, Up(false), false).1.Ok? && Gate(w, env, d).1.Err? {
      GateReached(w, env, d);
      GiveUpOutcome(w, Gate(w, env, d).0, env, d);
    }
  }

  /** With complete removals the log tells whether the new container went. */
  lemma RemovalIsLogged(w: World, env: Env, d: Job)
    requires d.name !in w.containers && Honest(env)
    ensures ExecStep(w, env, d, Up(false), false).1.Ok? && Gate(w, env, d).1.Err? ==>
              var v := ReplaceGated(w, env, d).0;
              v.containers == w.containers <==> |v.log| > 0 && v.log[|v.log| - 1].command == Remove({d.name})
  {
    hide ExecStep, HealthCheck, GiveUp, StopOthers, RemovalPasses, Sound, Honest, CheckCancel, Untouched, OneCommand, OnlyInspects;
    if ExecStep(w, env, d, Up(false), false).1.Ok? && Gate(w, env, d).1.Err? {
      GateReached(w, env, d);
      GateEndsWithoutRemoval(w, env, d);
      GiveUpOutcome(w, Gate(w, env, d).0, env, d);
    }
  }

  /** An unhealthy update ends with the old containers alone exactly if nothing stops the
      removal of the new one. */
  lemma UnhealthyKeepsTheOld(w: World, env: Env, d: Job)
    requires d.name !in w.containers
    ensures var (v, r) := ReplaceGated(w, env, d);
            r == Err(Error.Unhealthy) ==>
              && v.containers == (if RemovalPasses(Gate(w, env, d).0, env, d) then w.containers
                                  else w.containers[d.name := Fresh(d, |w.log|)])
              && (Honest(env) ==> (v.containers == w.containers
                                   <==> |v.log| > 0 && v.log[|v.log| - 1].command == Remove({d.name})))
  {
    hide ExecStep, HealthCheck, GiveUp, StopOthers, RemovalPasses, Follows, Honest;
    if ReplaceGated(w, env, d).1 == Err(Error.Unhealthy) {
      FailedGateExact(w, env, d);
      if Honest(env) { RemovalIsLogged(w, env, d); }
    }
  }

  /** A cancellation at the gate leaves the old containers and the new one: the removal of
      the new one is refused like every other command. */
  lemma CancelledGateKeepsBoth(w: World, env: Env, d: Job)
    requires d.name !in w.containers
    ensures ExecStep(w, env, d, Up(false), false).1.Ok? && Gate(w, env, d).1 == Err(Aborted) ==>
              var (v, r) := ReplaceGated(w, env, d);
              && r == Err(Aborted)
              && v.containers == w.containers[d.name := Fresh(d, |w.log|)]
              && v.log == Gate(w, env, d).0.log
  {
    hide ExecStep, HealthCheck, StopOthers, Follows;
    if ExecStep(w, env, d, Up(false), false).1.Ok? && Gate(w, env, d).1 == Err(Aborted) {
      GateReached(w, env, d);
    }
  }

  /** There are such runs: the shutdown token is set after the new container has started. */
  lemma CancelledGateExists(w: World, d: Job) returns (env: Env)
    requires !Cancelling(w) && d.health && d.name !in w.containers
    ensures ExecStep(w, env, d, Up(false), false).1.Ok? && Gate(w, env, d).1 == Err(Aborted) && Honest(env)
    ensures var (v, r) := ReplaceGated(w, env, d);
            r == Err(Aborted) && v.containers == w.containers[d.name := Fresh(d, |w.log|)]
  {
    hide Follows, Sound;
    env := Env(n => Answer(n > w.clock, None, true), n => Reply(0, false, 0, "", false, {}));
    var (x, up) := ExecStep(w, env, d, Up(false), false);
    assert up.Ok? && x.clock == w.clock + 1;
    assert CheckCancel(x, env).1 == Some(Aborted);
    assert Attempt(x, env, d).1 == Err(Aborted);
    CancelledGateKeepsBoth(w, env, d);
  }

  /** Stop-then-start leaves no other container of the Compose project. All pull requests of
      an application share one project, so theirs go too. */
  lemma RecreateOutcome(w: World, env: Env, d: Job)
    requires Honest(env) && Recreate(w, env, d).1.Ok?
    ensures var v := Recreate(w, env, d).0;
            && d.name in v.containers && v.containers[d.name] == Container(|v.log| - 1, d.app, d.pr, true, d.app)
            && forall n :: n != d.name ==> (n in v.containers
                             <==> n in w.containers && Spared(d, n, w.containers[n], None) && w.containers[n].project != d.app)
  {
    hide ExecStep, StopOthers, Follows;
    var v := StopOthers(w, env, d, None).0;
    StopOthersSpares(w, env, d, None);
    StopOthersExact(w, env, d, None);
    assert forall n :: !Missed(w, env, n);
    var u := ExecStep(v, env, d, Up(true), false).0;
    assert env.replies(|v.log|).missed == {};
    forall n | n != d.name
      ensures n in u.containers <==> n in w.containers && Spared(d, n, w.containers[n], None) && !Orphan(d, n, w.containers[n])
    {
      assert n in u.containers <==> n in v.containers && !Orphan(d, n, v.containers[n]);
    }
  }

  /** There are such runs: where nothing fails, the container of another pull request goes. */
  lemma RecreateRemovesOthers(w: World, d: Job, n: string) returns (env: Env)
    requires !Cancelling(w) && n != d.name && n in w.containers
    requires w.containers[n].project == d.app && w.containers[n].pr != d.pr
    ensures Honest(env) && Recreate(w, env, d).1.Ok?
    ensures n !in Recreate(w, env, d).0.containers
  {
    hide Follows, Sound;
    env := Env(k => Answer(false, None, true), k => Reply(0, false, 0, "", false, {}));
    var e := env;
    forall u: World, c: Command, allowFailure: bool | !Cancelling(u)
      ensures ExecStep(u, e, d, c, allowFailure).1.Ok? && !Cancelling(ExecStep(u, e, d, c, allowFailure).0)
    { NothingFails(u, e, d, c, allowFailure); }
    hide ExecStep;
    assert StopOthers(w, env, d, None).1.Ok? && !Cancelling(StopOthers(w, env, d, None).0);
    RecreateOutcome(w, env, d);
  }

  lemma NothingFails(w: World, env: Env, d: Job, c: Command, allowFailure: bool)
    requires !Cancelling(w) && (forall k :: env.answers(k) == Answer(false, None, true))
    requires forall k :: env.replies(k) == Reply(0, false, 0, "", false, {})
    ensures ExecStep(w, env, d, c, allowFailure).1.Ok? && !Cancelling(ExecStep(w, env, d, c, allowFailure).0)
  {
    hide Follows, Sound;
    assert CheckCancel(w, env).1.None?;
  }

  // ----- every ending ---------------------------------------------------------------------------

  /** What stopping the others leaves, whatever it answers: all containers, unless the listing
      works and the check before the removal passes. */
  ghost function Stopped(w: World, env: Env, d: Job, except: Option<string>): Containers {
    var (x, listed) := ExecStep(w, env, d, List, true);
    if listed.Ok? && CheckCancel(x, env).1.None?
    then map n | n in w.containers && (Spared(d, n, w.containers[n], except) || Missed(w, env, n)) :: w.containers[n]
    else w.containers
  }

  lemma StopOthersOutcome(w: World, env: Env, d: Job, except: Option<string>)
    ensures StopOthers(w, env, d, except).0.containers == Stopped(w, env, d, except)
  {
    hide ExecStep, Follows, CheckCancel;
    var (x, out) := ExecStep(w, env, d, List, true);
    if out.Ok? {
      var names := Listed(d, x.containers, out.value) - (if except.Some? then {except.value} else {}) - {""};
      forall n | n in w.containers
        ensures n in names <==> !Spared(d, n, w.containers[n], except) && n !in env.replies(|w.log|).missed {}
      if names != {} { RemovalAfterListing(w, x, env, d, names); }
    }
  }

  lemma RemovalAfterListing(w: World, x: World, env: Env, d: Job, names: set<string>)
    requires |x.log| == |w.log| + 1 && x.containers == w.containers
    ensures ExecStep(x, env, d, Remove(names), true).0.containers
            == if CheckCancel(x, env).1.Some? then w.containers
               else map n | n in w.containers && (n in names ==> n in env.replies(|w.log| + 1).missed) :: w.containers[n]
  {
    hide ExecStep, Follows, CheckCancel;
  }

  /** What a rolling update that starts alongside leaves: it depends on the check before the
      start and the start itself, on the gate, on the check before the removal of the new
      container, and on the listing and the check before the removal of the others. */
  ghost function LeftByReplace(w: World, env: Env, d: Job): Containers {
    var both := w.containers[d.name := Fresh(d, |w.log|)];
    var started := env.replies(|w.log|);
    var (u, gate) := Gate(w, env, d);
    if CheckCancel(w, env).1.Some? || (started.exit != 0 && !started.created) then w.containers
    else if ExecStep(w, env, d, Up(false), false).1.Err? then both
    else if gate.Err? then if RemovalPasses(u, env, d) then w.containers else both
    else Stopped(u, env, d, Some(d.name))
  }

  lemma ReplaceOutcome(w: World, env: Env, d: Job)
    requires d.name !in w.containers
    ensures ReplaceGated(w, env, d).0.containers == LeftByReplace(w, env, d)
  {
    hide ExecStep, HealthCheck, GiveUp, StopOthers, Stopped, Follows, RemovalPasses, CheckCancel;
    var (x, up) := ExecStep(w, env, d, Up(false), false);
    var kept := map n | n in w.containers :: w.containers[n];
    assert kept == w.containers;
    if up.Ok? {
      GateReached(w, env, d);
      var (u, gate) := Gate(w, env, d);
      if gate.Ok? { StopOthersOutcome(u, env, d, Some(d.name)); } else { FailedGateExact(w, env, d); }
    }
  }

  /** What stop-then-start leaves. */
  ghost function LeftByRecreate(w: World, env: Env, d: Job): Containers {
    var rest := Stopped(w, env, d, None);
    var (x, out) := StopOthers(w, env, d, None);
    if out.Err? || CheckCancel(x, env).1.Some? then rest
    else
      var started := env.replies(|x.log|);
      var kept := map n | n in rest && (rest[n].project == d.app && n != d.name ==> n in started.missed) :: rest[n];
      if started.exit == 0 || started.created then kept[d.name := Fresh(d, |x.log|)] else kept
  }

  lemma RecreateLeaves(w: World, env: Env, d: Job)
    ensures Recreate(w, env, d).0.containers == LeftByRecreate(w, env, d)
  {
    hide ExecStep, StopOthers, Stopped, Follows, CheckCancel;
    StopOthersOutcome(w, env, d, None);
  }

  // ----- which path is taken ------------------------------------------------------------------

  lemma AllSpaceTrimmed(s: string)
    ensures Trim(s) == "" <==> AllSpace(s)
  {
    if AllSpace(s) {
      TrimExact(s, "", "");
      assert s + "" + "" == s;
    } else {
      var lead, trail := TrimParts(s);
    }
  }

  /** Alongside is possible exactly if nothing but blanks is mapped and no option has `--ip` in it. */
  lemma EligibleExact(d: Job)
    ensures Eligible(d) <==>
              && (d.ports.Some? ==> forall i :: 0 <= i < |d.ports.value| ==> IsSpace(d.ports.value[i]))
              && (d.options.Some? ==> forall i: nat :: !OccursAt(d.options.value, "--ip", i))
  {
    if d.ports.Some? {
      AllSpaceTrimmed(d.ports.value);
      if Trim(d.ports.value) != "" {
        var c :| c in d.ports.value && !IsSpace(c);
        var i :| 0 <= i < |d.ports.value| && d.ports.value[i] == c;
      }
    }
  }

  /** No start has been dispatched, or only such starts. */
  ghost predicate Starts(w: World, v: World, removeOrphans: bool) {
    w.log <= v.log && forall k :: |w.log| <= k < |v.log| && v.log[k].command.Up? ==> v.log[k].command.removeOrphans == removeOrphans
  }

  lemma ExecStarts(w: World, env: Env, d: Job, c: Command, allowFailure: bool, removeOrphans: bool)
    requires c.Up? ==> c.removeOrphans == removeOrphans
    ensures Starts(w, ExecStep(w, env, d, c, allowFailure).0, removeOrphans)
  {
    hide ExecStep, Follows, CheckCancel, Effect;
    var v := ExecStep(w, env, d, c, allowFailure).0;
    if |v.log| > |w.log| { assert v.log[|w.log|].command == c; }
  }

  lemma StartsTwice(w: World, v: World, u: World, removeOrphans: bool)
    requires Starts(w, v, removeOrphans) && Starts(v, u, removeOrphans)
    ensures Starts(w, u, removeOrphans)
  {
    forall k | |w.log| <= k < |u.log| && u.log[k].command.Up? ensures u.log[k].command.removeOrphans == removeOrphans {
      if k < |v.log| { assert u.log[k] == v.log[k]; }
    }
  }

  lemma StopStarts(w: World, env: Env, d: Job, except: Option<string>, removeOrphans: bool)
    ensures Starts(w, StopOthers(w, env, d, except).0, removeOrphans)
  {
    hide ExecStep, Follows, Starts;
    ExecStarts(w, env, d, List, true, removeOrphans);
    var (v, out) := ExecStep(w, env, d, List, true);
    if out.Ok? {
      var names := Listed(d, v.containers, out.value) - (if except.Some? then {except.value} else {}) - {""};
      ExecStarts(v, env, d, Remove(names), true, removeOrphans);
      StartsTwice(w, v, ExecStep(v, env, d, Remove(names), true).0, removeOrphans);
    }
  }

  lemma GiveUpStarts(w: World, env: Env, d: Job, removeOrphans: bool)
    ensures Starts(w, GiveUp(w, env, d), removeOrphans)
  {
    hide ExecStep, Follows, Starts;
    ExecStarts(w, env, d, Logs, true, removeOrphans);
    var v := ExecStep(w, env, d, Logs, true).0;
    ExecStarts(v, env, d, Remove({d.name}), true, removeOrphans);
    StartsTwice(w, v, ExecStep(v, env, d, Remove({d.name}), true).0, removeOrphans);
  }

  /** Whatever happens, a container is started with the removal of orphans exactly on the path
      for mapped ports or a fixed address, and alongside on the other. */
  lemma PathTaken(w: World, env: Env, d: Job)
    ensures Starts(w, Rolling(w, env, d).0, !Eligible(d))
  {
    hide ExecStep, HealthCheck, StopOthers, GiveUp, Follows, Starts, Eligible;
    var y := CheckCancel(w, env).0;
    assert Starts(w, y, !Eligible(d)) by { NothingStarts(w, y, !Eligible(d)); }
    if Eligible(d) {
      ExecStarts(y, env, d, Up(false), false, false);
      var x := ExecStep(y, env, d, Up(false), false).0;
      var (u, gate) := HealthCheck(x, env, d);
      InspectsStart(x, u, false);
      StartsTwice(w, y, x, false);
      StartsTwice(w, x, u, false);
      StopStarts(u, env, d, Some(d.name), false);
      GiveUpStarts(u, env, d, false);
      StartsTwice(w, u, StopOthers(u, env, d, Some(d.name)).0, false);
      StartsTwice(w, u, GiveUp(u, env, d), false);
    } else {
      StopStarts(y, env, d, None, true);
      var v := StopOthers(y, env, d, None).0;
      StartsTwice(w, y, v, true);
      ExecStarts(v, env, d, Up(true), false, true);
      StartsTwice(w, v, ExecStep(v, env, d, Up(true), false).0, true);
    }
  }

  lemma NothingStarts(w: World, v: World, removeOrphans: bool)
    requires v.log == w.log
    ensures Starts(w, v, removeOrphans)
  {
  }

  lemma InspectsStart(w: World, v: World, removeOrphans: bool)
    requires OnlyInspects(w, v)
    ensures Starts(w, v, removeOrphans)
  {
  }

  // ----- the containers of others, by their labels -----------------------------------------------

  /** At every moment of a rolling update that starts alongside, a container of another
      application, another pull request or an unmanaged one is there as it was. */
  lemma OthersAtEveryMoment(w: World, env: Env, d: Job, n: string, k: nat)
    requires d.name !in w.containers && n in w.containers
    requires w.containers[n].app != d.app || w.containers[n].pr != d.pr || !w.containers[n].managed
    ensures var v := ReplaceGated(w, env, d).0;
            && n in v.containers && v.containers[n] == w.containers[n]
            && (|w.log| <= k < |v.log| ==> n in v.log[k].after && v.log[k].after[n] == w.containers[n])
  {
    hide ReplaceGated, Follows, Gated;
    OthersUntouched(w, env, d);
    ReplaceServes(w, env, d);
    var v := ReplaceGated(w, env, d).0;
    assert Spared(d, n, w.containers[n], None);
    if |w.log| <= k < |v.log| { assert Serving(d, w, v.log, k); }
  }

  /** After a success with complete listings and removals, no other named container of the same
      application and pull request is left of the managed ones. */
  lemma OwnOnesGone(w: World, env: Env, d: Job, n: string)
    requires d.name !in w.containers && ReplaceGated(w, env, d).1.Ok? && Honest(env)
    requires n != d.name && n != "" && n in w.containers
    requires w.containers[n].app == d.app && w.containers[n].pr == d.pr && w.containers[n].managed
    ensures n !in ReplaceGated(w, env, d).0.containers
  {
    SuccessLeavesTheNew(w, env, d);
  }
}
