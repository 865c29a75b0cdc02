/** The rolling update of a deployment: start the new container alongside the old ones, wait
    for its health gate, then stop the others; or stop first where that is not possible. */
module RollingUpdate {
  import opened Text
  import opened DeployEngine

  predicate Eligible(d: Job) {
    && (d.ports.None? || Trim(d.ports.value) == "")
    && (d.options.None? || !Contains(d.options.value, "--ip"))
  }

  function Unquote(s: string): string
    decreases |s|
  {
    if s != "" && s[0] == '"' then Unquote(s[1..])
    else if s != "" && s[|s| - 1] == '"' then Unquote(s[..|s| - 1])
    else s
  }

  datatype Health = Healthy | Unhealthy | Starting | NoHealth

  function ParseHealth(raw: string): Health {
    var s := Unquote(Trim(raw));
    if s == "healthy" then Healthy else if s == "unhealthy" then Health.Unhealthy
    else if s == "starting" then Starting else NoHealth
  }

  /** What the health inspection prints: nothing for a container that is not there. */
  function Inspected(d: Job, cs: Containers, reply: Reply): Health {
    if d.name in cs then ParseHealth(reply.stdout) else NoHealth
  }

  /** The moment at which the new container was seen healthy. */
  predicate Passes(d: Job, m: Moment) { m.command.Inspect? && Inspected(d, m.after, m.reply) == Healthy }

  /** The gate is passed between `from` and `to`, or health checking is off. */
  ghost predicate Gated(d: Job, log: seq<Moment>, from: nat, to: nat)
    requires from <= to <= |log|
  {
    !d.health || exists j :: from <= j < to && Passes(d, log[j])
  }

  /** Only inspections have been dispatched. */
  ghost predicate OnlyInspects(w: World, v: World) {
    && w.log <= v.log && v.containers == w.containers
    && forall k :: |w.log| <= k < |v.log| ==> v.log[k].command.Inspect? && v.log[k].after == w.containers
  }

  function Attempt(w: World, env: Env, d: Job): (World, Result<Health>) {
    var (v, e) := CheckCancel(w, env);
    if e.Some? then (v, Err(e.value))
    else
      var (u, out) := ExecStep(v, env, d, Inspect, true);
      (u, if out.Err? then Err(out.error) else Ok(Inspected(d, u.containers, out.value)))
  }

  /** One attempt only inspects, and answers healthy only from what that inspection printed. */
  lemma AttemptExact(w: World, env: Env, d: Job)
    ensures var (v, r) := Attempt(w, env, d);
            && Follows(w, v) && OnlyInspects(w, v)
            && (r == Ok(Healthy) ==> |v.log| > |w.log| && Passes(d, v.log[|w.log|]))
            && (r == Err(Aborted) ==> Cancelling(v))
  {
    hide ExecStep, CheckCancel, Sound, Unquote, Trim;
    var (v, e) := CheckCancel(w, env);
    if e.None? {
      var (u, out) := ExecStep(v, env, d, Inspect, true);
      assert OnlyInspects(w, u);
    }
  }

  function Attempts(w: World, env: Env, d: Job, n: nat): (World, Result<()>)
    decreases n
  {
    if n == 0 then (w, Err(Error.Unhealthy))
    else
      var (v, health) := Attempt(w, env, d);
      if health.Err? then (v, Err(health.error))
      else
        match health.value
        case Healthy => (v, Ok(()))
        case Unhealthy => (v, Err(Error.Unhealthy))
        case _ => Attempts(v, env, d, n - 1)
  }

  lemma FollowsTwice(w: World, v: World, u: World)
    requires Follows(w, v) && Follows(v, u) && OnlyInspects(w, v) && OnlyInspects(v, u)
    ensures Follows(w, u) && OnlyInspects(w, u)
  {
    hide Sound;
  }

  /** The attempts only inspect. */
  lemma {:induction false} AttemptsInspect(w: World, env: Env, d: Job, n: nat)
    ensures Follows(w, Attempts(w, env, d, n).0) && OnlyInspects(w, Attempts(w, env, d, n).0)
    decreases n
  {
    hide Attempt, Inspected;
    if n > 0 {
      AttemptExact(w, env, d);
      var (v, health) := Attempt(w, env, d);
      if health.Ok? && !health.value.Healthy? && !health.value.Unhealthy? {
        hide Follows, OnlyInspects;
        AttemptsInspect(v, env, d, n - 1);
        FollowsTwice(w, v, Attempts(v, env, d, n - 1).0);
      }
    }
  }

  lemma {:induction false} AttemptsEnd(w: World, env: Env, d: Job, n: nat)
    ensures var (v, r) := Attempts(w, env, d, n);
            && (r.Ok? ==> exists j :: |w.log| <= j < |v.log| && Passes(d, v.log[j]))
            && (r == Err(Aborted) ==> Cancelling(v))
    decreases n
  {
    hide Attempt, Passes, Cancelling, Sound;
    if n > 0 {
      AttemptExact(w, env, d);
      var (v, health) := Attempt(w, env, d);
      if health.Ok? && health.value.Healthy? {
        assert Passes(d, v.log[|w.log|]);
      } else if health.Ok? && !health.value.Unhealthy? {
        AttemptsInspect(v, env, d, n - 1);
        AttemptsEnd(v, env, d, n - 1);
      }
    }
  }

  function HealthCheck(w: World, env: Env, d: Job): (r: (World, Result<()>))
    ensures Follows(w, r.0) && OnlyInspects(w, r.0)
    ensures r.1.Ok? ==> Gated(d, r.0.log, |w.log|, |r.0.log|)
    ensures r.1 == Err(Aborted) ==> Cancelling(r.0)
  {
    if !d.health then (w, Ok(()))
    else
      var n := if d.retries < 1 then 1 else d.retries;
      AttemptsInspect(w, env, d, n);
      AttemptsEnd(w, env, d, n);
      Attempts(w, env, d, n)
  }

  function StopOthers(w: World, env: Env, d: Job, except: Option<string>): (r: (World, Result<()>))
    ensures Follows(w, r.0)
    ensures r.1 == Err(Aborted) ==> Cancelling(r.0)
    ensures r.1 != Err(Error.Unhealthy)
  {
    hide Sound, ExecStep;
    var (v, out) := ExecStep(w, env, d, List, true);
    if out.Err? then (v, Err(out.error))
    else
      var names := Listed(d, v.containers, out.value) - (if except.Some? then {except.value} else {}) - {""};
      if names == {} then (v, Ok(()))
      else
        var (u, out) := ExecStep(v, env, d, Remove(names), true);
        (u, if out.Err? then Err(out.error) else Ok(()))
  }

  /** After a failed gate: the logs, then the removal of the new container; both may be refused. */
  function GiveUp(w: World, env: Env, d: Job): (v: World)
    ensures Follows(w, v)
    ensures Cancelling(w) ==> Untouched(w, v)
  {
    hide Sound, ExecStep;
    var (u, _) := ExecStep(w, env, d, Logs, true);
    ExecStep(u, env, d, Remove({d.name}), true).0
  }

  /** Stop, then start. */
  function Recreate(w: World, env: Env, d: Job): (r: (World, Result<()>))
    ensures Follows(w, r.0)
  {
    hide Sound, ExecStep, StopOthers;
    var (v, out) := StopOthers(w, env, d, None);
    if out.Err? then (v, out)
    else
      var (u, out) := ExecStep(v, env, d, Up(true), false);
      (u, if out.Err? then Err(out.error) else Ok(()))
  }

  /** Start alongside, wait for the gate, then stop the others. */
  function ReplaceGated(w: World, env: Env, d: Job): (r: (World, Result<()>))
    ensures Follows(w, r.0)
  {
    hide Sound, ExecStep, StopOthers, GiveUp, HealthCheck;
    var (v, up) := ExecStep(w, env, d, Up(false), false);
    if up.Err? then (v, Err(up.error))
    else
      var (u, gate) := HealthCheck(v, env, d);
      if gate.Ok? then StopOthers(u, env, d, Some(d.name)) else (GiveUp(u, env, d), gate)
  }

  function Rolling(w: World, env: Env, d: Job): (r: (World, Result<()>))
    ensures Follows(w, r.0)
  {
    hide Sound, CheckCancel, Recreate, ReplaceGated;
    var (v, e) := CheckCancel(w, env);
    if e.Some? then (v, Err(e.value))
    else if !Eligible(d) then Recreate(v, env, d)
    else ReplaceGated(v, env, d)
  }

  // ----- what stopping the others leaves ----------------------------------------------------

  ghost predicate Keeps(before: Containers, after: Containers) {
    forall n :: n in before ==> n in after && after[n] == before[n]
  }

  /** Not to be stopped by this deployment: another application's or pull request's
      container, an unmanaged or a nameless one, or the one named `except`. */
  ghost predicate Spared(d: Job, n: string, c: Container, except: Option<string>) {
    c.app != d.app || c.pr != d.pr || !c.managed || Some(n) == except || n == ""
  }

  ghost predicate KeepsSpared(d: Job, before: Containers, after: Containers, except: Option<string>) {
    forall n :: n in before && Spared(d, n, before[n], except) ==> n in after && after[n] == before[n]
  }

  /** Since `w` only listings and removals were dispatched, and the spared containers stayed. */
  ghost predicate SparesOthers(w: World, v: World, d: Job, except: Option<string>) {
    && w.log <= v.log
    && Keeps(v.containers, w.containers) && KeepsSpared(d, w.containers, v.containers, except)
    && forall k :: |w.log| <= k < |v.log| ==> KeepsSpared(d, w.containers, v.log[k].after, except)
  }

  /** Every removal removes all it names and every listing is complete. */
  ghost predicate Honest(env: Env) {
    forall k :: env.replies(k).missed == {}
  }

  /** Missed by the listing dispatched at `w` or by the removal after it. */
  predicate Missed(w: World, env: Env, n: string) {
    n in env.replies(|w.log|).missed || n in env.replies(|w.log| + 1).missed
  }

  lemma StopOthersSpares(w: World, env: Env, d: Job, except: Option<string>)
    ensures SparesOthers(w, StopOthers(w, env, d, except).0, d, except)
  {
    hide ExecStep, Follows, CheckCancel, Polls, Dispatch;
    var (v, out) := ExecStep(w, env, d, List, true);
    if out.Ok? {
      var names := Listed(d, v.containers, out.value) - (if except.Some? then {except.value} else {}) - {""};
      if names != {} {
        var u := ExecStep(v, env, d, Remove(names), true).0;
        assert KeepsSpared(d, w.containers, u.containers, except);
      }
    }
  }

  /** What is left of the others is exactly what the listing or the removal missed. */
  lemma StopOthersExact(w: World, env: Env, d: Job, except: Option<string>)
    requires StopOthers(w, env, d, except).1.Ok?
    ensures forall n :: n in StopOthers(w, env, d, except).0.containers <==>
              && n in w.containers
              && (Spared(d, n, w.containers[n], except) || Missed(w, env, n))
  {
    hide ExecStep, Follows;
    var (v, out) := ExecStep(w, env, d, List, true);
    var names := Listed(d, v.containers, out.value) - (if except.Some? then {except.value} else {}) - {""};
    forall n | n in w.containers
      ensures n in names <==> !Spared(d, n, w.containers[n], except) && n !in env.replies(|w.log|).missed {}
    StopOthersSpares(w, env, d, except);
  }
}
