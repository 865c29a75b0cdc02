/** Which answers of the inspections open the health gate. */
module HealthGate {
  import opened Text
  import opened DeployEngine
  import opened RollingUpdate
  import opened ZeroDowntime
  import opened RollingOutcome

  // ----- what an inspection prints ------------------------------------------------------

  predicate Quotes(s: string) { forall i :: 0 <= i < |s| ==> s[i] == '"' }

  /** Blanks, and within them quotes, around a word. */
  datatype Wrapping = Wrapping(lead: string, opening: string, closing: string, trail: string) {
    predicate Valid() {
      AllSpace(lead) && AllSpace(trail) && Quotes(opening) && Quotes(closing)
    }

    function Around(word: string): string { lead + (opening + word + closing) + trail }
  }

  /** The text shows the word: blanks around it are ignored, and quotes directly around it. */
  ghost predicate Shows(raw: string, word: string) {
    exists w: Wrapping :: w.Valid() && raw == w.Around(word)
  }

  predicate Unquoted(s: string) { s == "" || (s[0] != '"' && s[|s| - 1] != '"') }

  lemma {:induction false} UnquoteExact(opening: string, word: string, closing: string)
    requires Quotes(opening) && Quotes(closing) && word != "" && Unquoted(word)
    ensures Unquote(opening + word + closing) == word
    decreases |opening| + |closing|
  {
    var s := opening + word + closing;
    if opening != "" {
      assert s[1..] == opening[1..] + word + closing && s[0] == opening[0];
      UnquoteExact(opening[1..], word, closing);
    } else if closing != "" {
      var n := |closing| - 1;
      assert s[..|s| - 1] == opening + word + closing[..n] && s[|s| - 1] == closing[n] && s[0] == word[0];
      UnquoteExact(opening, word, closing[..n]);
    } else {
      assert s == word;
    }
  }

  lemma {:induction false} UnquoteParts(s: string) returns (opening: string, closing: string)
    ensures Quotes(opening) && Quotes(closing) && s == opening + Unquote(s) + closing
    decreases |s|
  {
    if s != "" && s[0] == '"' {
      opening, closing := UnquoteParts(s[1..]);
      assert s == [s[0]] + s[1..];
      opening := ['"'] + opening;
    } else if s != "" && s[|s| - 1] == '"' {
      opening, closing := UnquoteParts(s[..|s| - 1]);
      assert s == s[..|s| - 1] + [s[|s| - 1]];
      closing := closing + ['"'];
    } else {
      opening, closing := "", "";
      assert s == "" + s + "";
    }
  }

  lemma ShownExact(raw: string, word: string)
    requires word != "" && Unquoted(word) && Trimmed(word)
    ensures Unquote(Trim(raw)) == word <==> Shows(raw, word)
  {
    if Unquote(Trim(raw)) == word {
      var lead, trail := TrimParts(raw);
      var opening, closing := UnquoteParts(Trim(raw));
      var w := Wrapping(lead, opening, closing, trail);
      assert w.Valid() && raw == w.Around(word);
    }
    if Shows(raw, word) {
      var w: Wrapping :| w.Valid() && raw == w.Around(word);
      var core := w.opening + word + w.closing;
      assert core[0] == (if w.opening == "" then word[0] else w.opening[0]);
      assert core[|core| - 1] == (if w.closing == "" then word[|word| - 1] else w.closing[|w.closing| - 1]);
      TrimExact(w.lead, core, w.trail);
      UnquoteExact(w.opening, word, w.closing);
    }
  }

  /** The answer of an inspection is read from the word it shows. */
  lemma HealthShown(raw: string)
    ensures ParseHealth(raw) == Healthy <==> Shows(raw, "healthy")
    ensures ParseHealth(raw) == Health.Unhealthy <==> Shows(raw, "unhealthy")
    ensures ParseHealth(raw) == Starting <==> Shows(raw, "starting")
  {
    hide Unquote, Trim, Shows;
    ShownExact(raw, "healthy");
    ShownExact(raw, "unhealthy");
    ShownExact(raw, "starting");
  }

  // ----- runs that nothing disturbs -------------------------------------------------------

  /** From `w` on there is no cancellation, no failing query, no move of the status by others
      and no broken connection. */
  ghost predicate Calm(w: World, env: Env) {
    && !Cancelling(w)
    && (forall k :: k >= w.clock ==> env.answers(k) == Answer(false, None, true))
    && (forall k :: k >= |w.log| ==> !env.replies(k).broken)
  }

  lemma CalmCheck(w: World, env: Env)
    requires Calm(w, env)
    ensures var (v, e) := CheckCancel(w, env); e.None? && Calm(v, env) && v.status == w.status
  {
    hide Follows, Sound;
  }

  lemma {:induction false} CalmPolls(w: World, env: Env, n: nat)
    requires Calm(w, env)
    ensures var (v, e) := Polls(w, env, n); e.None? && Calm(v, env) && v.status == w.status
    decreases n
  {
    hide CheckCancel, Calm, Follows;
    if n > 0 {
      CalmCheck(w, env);
      CalmPolls(CheckCancel(w, env).0, env, n - 1);
    }
  }

  /** A command runs, and fails only by its exit code. */
  lemma CalmExec(w: World, env: Env, d: Job, c: Command, allowFailure: bool)
    requires Calm(w, env)
    ensures var (v, out) := ExecStep(w, env, d, c, allowFailure);
            var reply := env.replies(|w.log|);
            && Calm(v, env) && v.status == w.status && OneCommand(w, v, env, d, c)
            && out == if !allowFailure && reply.exit != 0 then Err(Build) else Ok(reply)
  {
    hide CheckCancel, Polls, Follows, Effect;
    CalmCheck(w, env);
    var v := CheckCancel(w, env).0;
    var u := Dispatch(v, env, d, c);
    assert Calm(u, env);
    CalmPolls(u, env, env.replies(|v.log|).polls);
  }

  lemma CalmAttempt(w: World, env: Env, d: Job)
    requires Calm(w, env) && d.name in w.containers
    ensures var (v, health) := Attempt(w, env, d);
            && Calm(v, env) && v.status == w.status && v.containers == w.containers && |v.log| == |w.log| + 1
            && health == Ok(ParseHealth(env.replies(|w.log|).stdout))
  {
    hide CheckCancel, ExecStep, Calm, Follows, ParseHealth;
    CalmCheck(w, env);
    CalmExec(CheckCancel(w, env).0, env, d, Inspect, true);
  }

  // ----- the gate --------------------------------------------------------------------------

  /** The inspection number `i` from the command number `from` on shows the word. */
  ghost predicate ShowsAt(env: Env, from: nat, i: nat, word: string) {
    Shows(env.replies(from + i).stdout, word)
  }

  /** The inspection number `i` is the first decisive one, and it shows `healthy`. */
  ghost predicate OpensAt(env: Env, from: nat, i: nat) {
    && ShowsAt(env, from, i, "healthy")
    && forall j :: 0 <= j < i ==> !ShowsAt(env, from, j, "healthy") && !ShowsAt(env, from, j, "unhealthy")
  }

  /** Of the first inspections within the retries, at least one, the first decisive one shows `healthy`. */
  ghost predicate Opens(env: Env, from: nat, retries: int) {
    exists i: nat :: (i == 0 || i < retries) && OpensAt(env, from, i)
  }

  lemma OpensLater(env: Env, from: nat, next: nat, i: nat)
    requires next == from + 1 && !ShowsAt(env, from, 0, "healthy") && !ShowsAt(env, from, 0, "unhealthy")
    ensures OpensAt(env, next, i) <==> OpensAt(env, from, i + 1)
  {
    forall j: nat, word ensures ShowsAt(env, next, j, word) <==> ShowsAt(env, from, j + 1, word) {}
    if OpensAt(env, next, i) {
      forall j | 0 <= j < i + 1 ensures !ShowsAt(env, from, j, "healthy") && !ShowsAt(env, from, j, "unhealthy") {
        if j > 0 { assert !ShowsAt(env, next, j - 1, "healthy") && !ShowsAt(env, next, j - 1, "unhealthy"); }
      }
    }
    if OpensAt(env, from, i + 1) {
      forall j | 0 <= j < i ensures !ShowsAt(env, next, j, "healthy") && !ShowsAt(env, next, j, "unhealthy") {
        assert !ShowsAt(env, from, j + 1, "healthy") && !ShowsAt(env, from, j + 1, "unhealthy");
      }
    }
  }

  lemma OpensHere(env: Env, from: nat, retries: int)
    requires ShowsAt(env, from, 0, "healthy") || ShowsAt(env, from, 0, "unhealthy")
    ensures Opens(env, from, retries) <==> ShowsAt(env, from, 0, "healthy")
  {
    hide ShowsAt;
    if ShowsAt(env, from, 0, "healthy") { assert OpensAt(env, from, 0); }
    forall i: nat | OpensAt(env, from, i) ensures ShowsAt(env, from, 0, "healthy") {}
  }

  lemma OpensNext(env: Env, from: nat, next: nat, retries: int)
    requires next == from + 1 && !ShowsAt(env, from, 0, "healthy") && !ShowsAt(env, from, 0, "unhealthy")
    ensures Opens(env, from, retries) <==> retries > 1 && Opens(env, next, retries - 1)
  {
    hide ShowsAt;
    forall i: nat ensures OpensAt(env, next, i) <==> OpensAt(env, from, i + 1) { OpensLater(env, from, next, i); }
    if i: nat :| (i == 0 || i < retries) && OpensAt(env, from, i) {
      assert i > 0 && OpensAt(env, from, i - 1 + 1);
      assert OpensAt(env, next, i - 1);
    }
    if retries > 1 {
      if i: nat :| (i == 0 || i < retries - 1) && OpensAt(env, next, i) { assert OpensAt(env, from, i + 1); }
    }
  }

  lemma {:induction false} AttemptsExact(w: World, env: Env, d: Job, n: nat)
    requires Calm(w, env) && d.name in w.containers && n > 0
    ensures var (v, r) := Attempts(w, env, d, n);
            && Calm(v, env) && v.status == w.status
            && r == if Opens(env, |w.log|, n) then Ok(()) else Err(Error.Unhealthy)
    decreases n
  {
    hide Attempt, Calm, ParseHealth, Shows, OpensAt;
    CalmAttempt(w, env, d);
    HealthShown(env.replies(|w.log|).stdout);
    assert |w.log| + 0 == |w.log|;
    var v := Attempt(w, env, d).0;
    if ShowsAt(env, |w.log|, 0, "healthy") || ShowsAt(env, |w.log|, 0, "unhealthy") {
      OpensHere(env, |w.log|, n);
    } else {
      OpensNext(env, |w.log|, |v.log|, n);
      if n > 1 { AttemptsExact(v, env, d, n - 1); }
    }
  }

  /** Where nothing disturbs it, the gate opens if and only if health checking is off or the
      first decisive inspection within the retries, at least one, shows `healthy`. */
  lemma GateExact(w: World, env: Env, d: Job)
    requires Calm(w, env) && d.name in w.containers
    ensures var (u, gate) := HealthCheck(w, env, d);
            && Calm(u, env) && u.status == w.status
            && gate == if !d.health || Opens(env, |w.log|, d.retries) then Ok(()) else Err(Error.Unhealthy)
  {
    hide Calm, OpensAt;
    AttemptsExact(w, env, d, if d.retries < 1 then 1 else d.retries);
  }

  // ----- a rolling update ------------------------------------------------------------------

  lemma CalmStop(w: World, env: Env, d: Job, except: Option<string>)
    requires Calm(w, env)
    ensures var (v, r) := StopOthers(w, env, d, except); r == Ok(()) && Calm(v, env) && v.status == w.status
  {
    hide ExecStep, CheckCancel, Calm, Follows;
    CalmExec(w, env, d, List, true);
    var (x, out) := ExecStep(w, env, d, List, true);
    var names := Listed(d, x.containers, out.value) - (if except.Some? then {except.value} else {}) - {""};
    CalmExec(x, env, d, Remove(names), true);
  }

  lemma CalmGiveUp(w: World, env: Env, d: Job)
    requires Calm(w, env) && Honest(env)
    ensures var v := GiveUp(w, env, d); Calm(v, env) && v.status == w.status && RemovalPasses(w, env, d)
  {
    hide ExecStep, CheckCancel, Calm, Follows;
    CalmExec(w, env, d, Logs, true);
    var l := ExecStep(w, env, d, Logs, true).0;
    CalmCheck(l, env);
    CalmExec(l, env, d, Remove({d.name}), true);
  }

  /** A rolling update that nothing disturbs, to its end: a failing start leaves what it has
      created, the new container replaces the others if the gate opens, and otherwise the old
      ones stay and the new one goes. */
  lemma CalmUpdate(w: World, env: Env, d: Job)
    requires Calm(w, env) && Honest(env) && d.name !in w.containers
    ensures var (v, r) := ReplaceGated(w, env, d);
            var started := env.replies(|w.log|);
            && Calm(v, env) && v.status == w.status
            && if started.exit != 0 then
                 r == Err(Build)
                 && v.containers == if started.created then w.containers[d.name := Fresh(d, |w.log|)] else w.containers
               else if !d.health || Opens(env, |w.log| + 1, d.retries) then
                 r == Ok(()) && v.containers == Renewed(d, w.containers, |w.log|)
               else
                 r == Err(Error.Unhealthy) && v.containers == w.containers
  {
    hide ExecStep, CheckCancel, HealthCheck, StopOthers, GiveUp, Opens, Calm, Renewed, Follows, RemovalPasses;
    CalmExec(w, env, d, Up(false), false);
    UpOutcome(w, env, d);
    var (x, up) := ExecStep(w, env, d, Up(false), false);
    if up.Ok? {
      GateExact(x, env, d);
      var (u, gate) := HealthCheck(x, env, d);
      if gate.Ok? {
        CalmStop(u, env, d, Some(d.name));
        SuccessLeavesTheNew(w, env, d);
      } else {
        CalmGiveUp(u, env, d);
        FailedGateExact(w, env, d);
      }
    } else {
      CalmCheck(w, env);
      ReplaceOutcome(w, env, d);
    }
  }
}
