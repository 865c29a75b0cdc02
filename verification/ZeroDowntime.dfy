/** While a rolling update with a fresh name runs, the application is served throughout. */
module ZeroDowntime {
  import opened Text
  import opened DeployEngine
  import opened RollingUpdate

  /** All the containers of before, or the new one past its gate and all that is not to be stopped. */
  ghost predicate Serving(d: Job, w: World, log: seq<Moment>, k: nat)
    requires |w.log| <= k < |log|
  {
    || Keeps(w.containers, log[k].after)
    || (Gated(d, log, |w.log|, k) && d.name in log[k].after && KeepsSpared(d, w.containers, log[k].after, None))
  }

  lemma StillGated(d: Job, log: seq<Moment>, longer: seq<Moment>, from: nat, to: nat, later: nat)
    requires from <= to <= |log| && to <= later <= |longer| && log <= longer && Gated(d, log, from, to)
    ensures Gated(d, longer, from, later)
  {
    if d.health {
      var j :| from <= j < to && Passes(d, log[j]);
      assert Passes(d, longer[j]);
    }
  }

  lemma PastTheGate(w: World, u: World, v: World, d: Job)
    requires w.log <= u.log && Gated(d, u.log, |w.log|, |u.log|) && SparesOthers(u, v, d, Some(d.name))
    requires Keeps(w.containers, u.containers) && d.name in u.containers
    ensures forall k :: |u.log| <= k < |v.log| ==> Serving(d, w, v.log, k)
  {
    forall k | |u.log| <= k < |v.log| ensures Serving(d, w, v.log, k) {
      StillGated(d, u.log, v.log, |w.log|, |u.log|, k);
      assert KeepsSpared(d, u.containers, v.log[k].after, Some(d.name));
    }
  }

  lemma BeforeTheGate(w: World, x: World, u: World, d: Job, env: Env)
    requires d.name !in w.containers && (Untouched(w, x) || OneCommand(w, x, env, d, Up(false)))
    requires OnlyInspects(x, u)
    ensures Keeps(w.containers, u.containers)
    ensures forall k :: |w.log| <= k < |u.log| ==> Keeps(w.containers, u.log[k].after)
  {
    assert Keeps(w.containers, x.containers);
  }

  lemma ReplaceServes(w: World, env: Env, d: Job)
    requires d.name !in w.containers
    ensures var v := ReplaceGated(w, env, d).0;
            forall k :: |w.log| <= k < |v.log| ==> Serving(d, w, v.log, k)
  {
    hide ExecStep, HealthCheck, StopOthers, GiveUp, Follows;
    var (x, up) := ExecStep(w, env, d, Up(false), false);
    if up.Err? {
      BeforeTheGate(w, x, x, d, env);
    } else {
      var (u, gate) := HealthCheck(x, env, d);
      BeforeTheGate(w, x, u, d, env);
      if gate.Ok? {
        StopOthersSpares(u, env, d, Some(d.name));
        if d.health {
          var j :| |x.log| <= j < |u.log| && Passes(d, u.log[j]);
          assert Gated(d, u.log, |w.log|, |u.log|);
        }
        PastTheGate(w, u, StopOthers(u, env, d, Some(d.name)).0, d);
      } else {
        GiveUpKeeps(w, u, env, d);
      }
    }
  }

  lemma GiveUpKeeps(w: World, u: World, env: Env, d: Job)
    requires d.name !in w.containers && Keeps(w.containers, u.containers)
    ensures var v := GiveUp(u, env, d);
            u.log <= v.log && Keeps(w.containers, v.containers)
            && forall k :: |u.log| <= k < |v.log| ==> Keeps(w.containers, v.log[k].after)
  {
    hide ExecStep, Follows;
  }

  /** With health checking on, the new container replaces a running one of the same name at
      once: a fresh name is exactly what the promise needs. */
  lemma FreshNameNeeded(w: World, env: Env, d: Job)
    requires d.health && ExecStep(w, env, d, Up(false), false).1.Ok?
    requires d.name in w.containers ==> w.containers[d.name].id < |w.log|
    ensures var v := ReplaceGated(w, env, d).0;
            (forall k :: |w.log| <= k < |v.log| ==> Serving(d, w, v.log, k)) <==> d.name !in w.containers
  {
    hide ExecStep, HealthCheck, StopOthers, GiveUp;
    var v := ReplaceGated(w, env, d).0;
    if d.name !in w.containers {
      ReplaceServes(w, env, d);
    } else {
      var x := ExecStep(w, env, d, Up(false), false).0;
      assert x.log <= v.log && v.log[|w.log|].after == x.containers;
      assert x.containers[d.name].id == |w.log|;
      assert !Serving(d, w, v.log, |w.log|);
    }
  }
}
