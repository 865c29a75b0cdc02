/** For which sets of secrets redaction leaves no character of any secret readable. */
module RedactComplete {
  import opened Text
  import opened Redact
  import opened RedactResidue

  // ----- the claim and its condition --------------------------------------------------

  /** The character of the content at `x` stays readable. */
  predicate ReadableIn(content: string, secrets: seq<string>, x: nat) {
    Readable(ReadableSpans(content, secrets), x)
  }

  /** No character of an occurrence of a secret stays readable in any content. */
  ghost predicate LeavesNothing(secrets: seq<string>) {
    forall content: string, s, j: nat, x: nat ::
      s in secrets && OccursAt(content, s, j) && j <= x < j + |s| ==> !ReadableIn(content, secrets, x)
  }

  /** The last `k` characters of `s`, not all of it, are the first `k` of `t`, not all of it. */
  predicate OverlapBy(s: string, t: string, k: nat) {
    0 < k < |s| && k < |t| && s[|s| - k..] == t[..k]
  }

  ghost predicate Overlap(s: string, t: string) {
    exists k: nat :: OverlapBy(s, t, k)
  }

  /** The text in which `t` begins with the last `k` characters of `s`. */
  function Glued(s: string, t: string, k: nat): string
    requires k <= |t|
  {
    s + t[k..]
  }

  predicate Clean(content: string, secrets: seq<string>) {
    forall x: nat :: x < |content| ==> !ReadableIn(content, secrets, x)
  }

  /** Redaction leaves nothing of any text that consists of two overlapping secrets. These
      texts are finitely many and known from the secrets alone. */
  predicate GluedClean(secrets: seq<string>) {
    forall s, t, k: nat :: s in secrets && t in secrets && 0 < k < |s| && OverlapBy(s, t, k) ==> Clean(Glued(s, t, k), secrets)
  }

  // ----- lengths ------------------------------------------------------------------------

  ghost predicate LongestFirst(passes: seq<string>) {
    forall i, j :: 0 <= i < j < |passes| ==> ByteLen(passes[i]) >= ByteLen(passes[j])
  }

  lemma {:induction false} ByteLenAppend(a: string, b: string)
    ensures ByteLen(a + b) == ByteLen(a) + ByteLen(b)
  {
    if a == "" {
      assert a + b == b;
    } else {
      assert (a + b)[1..] == a[1..] + b;
      ByteLenAppend(a[1..], b);
    }
  }

  /** A strictly longer secret that contains `p` comes before `p`. */
  lemma ContainerIsLonger(s: string, p: string, i: nat)
    requires OccursAt(s, p, i) && |p| < |s|
    ensures ByteLen(p) < ByteLen(s)
  {
    assert s == s[..i] + p + s[i + |p|..];
    ByteLenAppend(s[..i] + p, s[i + |p|..]);
    ByteLenAppend(s[..i], p);
    ByteLenBounds(s[..i]);
    ByteLenBounds(s[i + |p|..]);
  }

  lemma NotLonger(passes: seq<string>, s: string)
    requires |passes| > 0 && s in passes && LongestFirst(passes)
    ensures ByteLen(s) <= ByteLen(passes[0])
  {
    var x :| 0 <= x < |passes| && passes[x] == s;
  }

  lemma InsideOccurs(content: string, s: string, j: nat, p: string, i: nat)
    requires OccursAt(content, s, j) && OccursAt(content, p, i) && j <= i && i + |p| <= j + |s|
    ensures OccursAt(s, p, i - j)
  {
    SliceOfSlice(content, j, j + |s|, i - j, i - j + |p|);
  }

  lemma InsideIsShorter(content: string, s: string, j: nat, p: string, i: nat)
    requires OccursAt(content, s, j) && OccursAt(content, p, i) && j <= i && i + |p| <= j + |s|
    ensures ByteLen(p) < ByteLen(s) || (i == j && |p| == |s|)
  {
    hide ByteLen, OccursAt;
    InsideOccurs(content, s, j, p, i);
    if |p| < |s| { ContainerIsLonger(s, p, i - j); }
  }

  lemma PassesLongestFirst(secrets: seq<string>)
    ensures LongestFirst(Passes(secrets))
  {
    PassesExact(secrets);
    var passes := Passes(secrets);
    forall i, j | 0 <= i < j < |passes| ensures ByteLen(passes[i]) >= ByteLen(passes[j]) {
      assert Earlier(passes[i], passes[j]);
    }
  }

  // ----- matches in parts of a content -----------------------------------------------------

  /** None of the first `n` passes finds anything in `t`. */
  ghost predicate Past(t: string, passes: seq<string>, n: nat)
    requires n <= |passes|
  {
    forall m :: 0 <= m < n ==> !Contains(t, passes[m])
  }

  lemma OccursInWhole(t: string, c: nat, d: nat, q: string, i: nat)
    requires c <= d <= |t| && OccursAt(t[c..d], q, i)
    ensures OccursAt(t, q, c + i) && c + i + |q| <= d
  {
    SliceOfSlice(t, c, d, i, i + |q|);
  }

  lemma PastInPart(t: string, c: nat, d: nat, passes: seq<string>, n: nat)
    requires c <= d <= |t| && n <= |passes| && Past(t, passes, n)
    ensures Past(t[c..d], passes, n)
  {
    forall m | 0 <= m < n ensures !Contains(t[c..d], passes[m]) {
      forall i: nat ensures !OccursAt(t[c..d], passes[m], i) {
        if OccursAt(t[c..d], passes[m], i) { OccursInWhole(t, c, d, passes[m], i); }
      }
    }
  }

  /** A part that holds the first match of the whole has it as its own first match. */
  lemma FindInPart(t: string, c: nat, d: nat, p: string, i: nat)
    requires Find(t, p) == Some(i) && c <= i && i + |p| <= d <= |t|
    ensures Find(t[c..d], p) == Some(i - c)
  {
    hide FindFrom;
    SliceOfSlice(t, c, d, i - c, i - c + |p|);
    assert OccursAt(t[c..d], p, i - c);
    forall j: nat | j < i - c ensures !OccursAt(t[c..d], p, j) {
      if OccursAt(t[c..d], p, j) { OccursInWhole(t, c, d, p, j); }
    }
  }

  /** Before its first match there is none. */
  lemma NoneBefore(t: string, p: string, i: nat)
    requires p != "" && Find(t, p) == Some(i)
    ensures i <= |t| && !Contains(t[..i], p)
  {
    hide FindFrom;
    forall j: nat ensures !OccursAt(t[..i], p, j) {
      if OccursAt(t[0..i], p, j) { OccursInWhole(t, 0, i, p, j); }
      assert t[0..i] == t[..i];
    }
  }

  /** What is not readable lies in a match of some pass. */
  lemma {:induction false} UnreadableIsMatched(content: string, lo: nat, hi: nat, passes: seq<string>, x: nat) returns (q: string, y: nat)
    requires lo <= x < hi <= |content| && "" !in passes && !Readable(Spans(content, lo, hi, passes), x)
    ensures q in passes && OccursAt(content, q, y) && lo <= y <= x < y + |q| <= hi
    decreases |passes|, hi - lo
  {
    hide FindFrom, Readable, Contains;
    if |passes| == 0 {
      OneSpan(lo, hi, x);
      assert false;
    }
    var p, rest := passes[0], passes[1..];
    var t := content[lo..hi];
    if Find(t, p).None? {
      RunPassesNoMatch(content, lo, hi, passes, "");
      q, y := UnreadableIsMatched(content, lo, hi, rest, x);
    } else {
      var i := Find(t, p).value;
      FindFits(t, p);
      SpansAfterMatch(content, lo, hi, passes, i, x);
      if x < lo + i {
        q, y := UnreadableIsMatched(content, lo, lo + i, rest, x);
      } else if lo + i + |p| <= x {
        q, y := UnreadableIsMatched(content, lo + i + |p|, hi, passes, x);
      } else {
        q, y := p, lo + i;
        OccursInWhole(content, lo, hi, p, i);
      }
    }
  }

  lemma OneSpan(lo: nat, hi: nat, x: nat)
    requires lo <= x < hi
    ensures Readable([(lo, hi)], x)
  {
    assert [(lo, hi)][0] == (lo, hi);
  }

  // ----- the proof ---------------------------------------------------------------------------

  lemma {:induction false} SkipPast(t: string, passes: seq<string>, n: nat)
    requires "" !in passes && n <= |passes| && Past(t, passes, n)
    ensures Spans(t, 0, |t|, passes) == Spans(t, 0, |t|, passes[n..])
    decreases n
  {
    if n > 0 {
      SkipPast(t, passes, n - 1);
      assert t[0..|t|] == t && !Contains(t, passes[n - 1]);
      hide Contains, FindFrom, Spans;
      RunPassesNoMatch(t, 0, |t|, passes[n - 1..], "");
      assert passes[n - 1..][1..] == passes[n..];
    } else {
      assert passes[0..] == passes;
    }
  }

  /** In a clean text, whatever the first match leaves on either side lies in matches there. */
  lemma CleanLeftover(g: string, secrets: seq<string>, n: nat, at: nat, x: nat) returns (q: string, y: nat)
    requires Clean(g, secrets) && x < |g| && n < |Passes(secrets)| && Past(g, Passes(secrets), n)
    requires Find(g, Passes(secrets)[n]) == Some(at) && (x < at || at + |Passes(secrets)[n]| <= x)
    ensures q in secrets && q != "" && OccursAt(g, q, y) && y <= x < y + |q|
    ensures if x < at then y + |q| <= at else at + |Passes(secrets)[n]| <= y
  {
    PassesExact(secrets);
    var passes := Passes(secrets);
    var p := passes[n];
    assert g[0..|g|] == g && passes[n..][0] == p && passes[n..][1..] == passes[n + 1..];
    assert !Readable(ReadableSpans(g, secrets), x) by { assert !ReadableIn(g, secrets, x); }
    hide Past, FindFrom, Contains, Readable, Spans, Passes, Clean;
    SkipPast(g, passes, n);
    SpansAfterMatch(g, 0, |g|, passes[n..], at, x);
    if x < at {
      q, y := UnreadableIsMatched(g, 0, at, passes[n + 1..], x);
      assert q in passes;
    } else {
      q, y := UnreadableIsMatched(g, at + |p|, |g|, passes[n..], x);
      assert q in passes;
    }
  }

  /** Two occurrences that overlap make up a glued text. */
  lemma GluedAt(content: string, s: string, j: nat, t: string, i: nat)
    requires OccursAt(content, s, j) && OccursAt(content, t, i) && j < i < j + |s| < i + |t|
    ensures OverlapBy(s, t, j + |s| - i) && content[j..i + |t|] == Glued(s, t, j + |s| - i)
  {
    var k := j + |s| - i;
    SliceOfSlice(content, j, j + |s|, i - j, |s|);
    SliceOfSlice(content, i, i + |t|, 0, k);
    assert s[|s| - k..] == s[|s| - k..|s|] && t[..k] == t[0..k];
    SliceOfSlice(content, i, i + |t|, k, |t|);
    assert t[k..] == t[k..|t|];
    assert content[j..i + |t|] == content[j..j + |s|] + content[j + |s|..i + |t|];
  }

  lemma GluedIsClean(content: string, s: string, j: nat, t: string, i: nat, secrets: seq<string>)
    requires OccursAt(content, s, j) && OccursAt(content, t, i) && j < i < j + |s| < i + |t|
    requires GluedClean(secrets) && s in secrets && t in secrets
    ensures Clean(content[j..i + |t|], secrets)
  {
    hide Clean, OccursAt;
    GluedAt(content, s, j, t, i);
    var k: nat := j + |s| - i;
    assert 0 < k < |s| && OverlapBy(s, t, k);
  }

  /** The part `content[c..d]` begins or ends with the match and is the glued text of it and
      an occurrence of a secret: what the match leaves of that occurrence lies in matches there. */
  lemma Leftover(content: string, lo: nat, hi: nat, secrets: seq<string>, n: nat, i: nat, c: nat, d: nat, x: nat)
    returns (q: string, y: nat)
    requires lo <= c <= x < d <= hi <= |content| && c <= lo + i
    requires n < |Passes(secrets)| && Past(content[lo..hi], Passes(secrets), n)
    requires Find(content[lo..hi], Passes(secrets)[n]) == Some(i) && lo + i + |Passes(secrets)[n]| <= d
    requires Clean(content[c..d], secrets) && (x < lo + i || lo + i + |Passes(secrets)[n]| <= x)
    ensures q in secrets && q != "" && OccursAt(content, q, y) && c <= y <= x < y + |q| <= d
    ensures if x < lo + i then y + |q| <= lo + i else lo + i + |Passes(secrets)[n]| <= y
  {
    hide *;
    var p, t := Passes(secrets)[n], content[lo..hi];
    SliceOfSlice(content, lo, hi, c - lo, d - lo);
    PastInPart(t, c - lo, d - lo, Passes(secrets), n);
    FindInPart(t, c - lo, d - lo, p, i);
    var z;
    q, z := CleanLeftover(content[c..d], secrets, n, lo + i - c, x - c);
    OccursInWhole(content, c, d, q, z);
    y := c + z;
  }

  /** Where the first match meets an occurrence of `s` it overlaps it or swallows it. */
  lemma NeverInside(content: string, passes: seq<string>, n: nat, i: nat, s: string, j: nat)
    requires n < |passes| && s in passes[n..] && LongestFirst(passes)
    requires OccursAt(content, s, j) && OccursAt(content, passes[n], i)
    ensures j <= i && i + |passes[n]| <= j + |s| ==> i == j && |passes[n]| == |s|
  {
    hide OccursAt, ByteLen;
    var p := passes[n];
    assert LongestFirst(passes[n..]);
    NotLonger(passes[n..], s);
    if j <= i && i + |p| <= j + |s| { InsideIsShorter(content, s, j, p, i); }
  }

  lemma StillToCome(t: string, s: string, j: nat, secrets: seq<string>, n: nat)
    requires s in secrets && s != "" && OccursAt(t, s, j) && n <= |Passes(secrets)| && Past(t, Passes(secrets), n)
    ensures n < |Passes(secrets)| && s in Passes(secrets)[n..]
  {
    hide Passes;
    PassesExact(secrets);
    var m :| 0 <= m < |Passes(secrets)| && Passes(secrets)[m] == s;
    assert Contains(t, s);
    assert Passes(secrets)[n..][m - n] == s;
  }

  /** What the passes so far do not find is not found on either side of the next match. */
  lemma BothSides(content: string, lo: nat, hi: nat, passes: seq<string>, n: nat, i: nat)
    requires lo <= hi <= |content| && "" !in passes && n < |passes| && Past(content[lo..hi], passes, n)
    requires Find(content[lo..hi], passes[n]) == Some(i) && lo + i + |passes[n]| <= hi
    ensures Past(content[lo..lo + i], passes, n + 1) && Past(content[lo + i + |passes[n]|..hi], passes, n)
  {
    var t, b := content[lo..hi], i + |passes[n]|;
    SliceOfSlice(content, lo, hi, 0, i);
    SliceOfSlice(content, lo, hi, b, hi - lo);
    PastInPart(t, 0, i, passes, n);
    PastInPart(t, b, hi - lo, passes, n);
    NoneBefore(t, passes[n], i);
    assert t[0..i] == t[..i];
  }

  lemma MatchPoint(content: string, lo: nat, hi: nat, passes: seq<string>, n: nat, i: nat, s: string, j: nat)
    requires lo <= j && j + |s| <= hi <= |content| && OccursAt(content, s, j)
    requires "" !in passes && n < |passes| && s in passes[n..] && LongestFirst(passes)
    requires Past(content[lo..hi], passes, n) && Find(content[lo..hi], passes[n]) == Some(i)
    ensures var (a, b) := (lo + i, lo + i + |passes[n]|);
            && b <= hi && OccursAt(content, passes[n], a)
            && Past(content[lo..a], passes, n + 1) && Past(content[b..hi], passes, n)
            && (j <= a && b <= j + |s| ==> a == j && b == j + |s|)
  {
    FindFits(content[lo..hi], passes[n]);
    assert OccursAt(content[lo..hi], passes[n], i);
    hide *;
    OccursWithin(content, lo, hi, passes[n], lo + i);
    BothSides(content, lo, hi, passes, n, i);
    NeverInside(content, passes, n, lo + i, s, j);
  }

  /** An occurrence of `s` inside `content[lo..hi]`, where the first `n` passes find nothing,
      covers `x`. */
  ghost predicate Covers(content: string, lo: nat, hi: nat, secrets: seq<string>, n: nat, s: string, j: nat, x: nat) {
    && lo <= j <= x < j + |s| <= hi <= |content| && OccursAt(content, s, j) && s in secrets
    && n <= |Passes(secrets)| && Past(content[lo..hi], Passes(secrets), n)
  }

  lemma CoversNext(content: string, lo: nat, hi: nat, secrets: seq<string>, n: nat, s: string, j: nat, x: nat)
    requires Covers(content, lo, hi, secrets, n, s, j, x)
    ensures n < |Passes(secrets)| && s in Passes(secrets)[n..] && Passes(secrets)[n] in secrets && "" !in Passes(secrets)
    ensures Find(content[lo..hi], Passes(secrets)[n]).None? ==>
              && Covers(content, lo, hi, secrets, n + 1, s, j, x)
              && Spans(content, lo, hi, Passes(secrets)[n..]) == Spans(content, lo, hi, Passes(secrets)[n + 1..])
  {
    PassesExact(secrets);
    var passes, t := Passes(secrets), content[lo..hi];
    OccursWithin(content, lo, hi, s, j);
    StillToCome(t, s, j - lo, secrets, n);
    assert passes[n] in passes && passes[n..][0] == passes[n] && passes[n..][1..] == passes[n + 1..];
    if Find(t, passes[n]).None? {
      assert Past(t, passes, n + 1);
      hide *;
      RunPassesNoMatch(content, lo, hi, passes[n..], "");
    }
  }

  /** The match of the next pass leaves a smaller question of the same kind, or none. */
  lemma CoversMatch(content: string, lo: nat, hi: nat, secrets: seq<string>, n: nat, s: string, j: nat, x: nat, i: nat)
    returns (q: string, y: nat)
    requires Covers(content, lo, hi, secrets, n, s, j, x) && GluedClean(secrets)
    requires n < |Passes(secrets)| && s in Passes(secrets)[n..] && Passes(secrets)[n] in secrets && "" !in Passes(secrets)
    requires Find(content[lo..hi], Passes(secrets)[n]) == Some(i)
    ensures var (a, b) := (lo + i, lo + i + |Passes(secrets)[n]|);
            && a < b <= hi
            && (x < a ==> Covers(content, lo, a, secrets, n + 1, q, y, x))
            && (b <= x ==> Covers(content, b, hi, secrets, n, q, y, x))
            && (Readable(Spans(content, lo, hi, Passes(secrets)[n..]), x) <==>
                  || (x < a && Readable(Spans(content, lo, a, Passes(secrets)[n + 1..]), x))
                  || (b <= x && Readable(Spans(content, b, hi, Passes(secrets)[n..]), x)))
  {
    PassesLongestFirst(secrets);
    var p := Passes(secrets)[n];
    MatchPoint(content, lo, hi, Passes(secrets), n, i, s, j);
    assert p != "" && Passes(secrets)[n..][0] == p && Passes(secrets)[n..][1..] == Passes(secrets)[n + 1..];
    SpansAfterMatch(content, lo, hi, Passes(secrets)[n..], i, x);
    hide Past, GluedClean, Passes, OccursAt, Find, Spans, Readable;
    var a, b := lo + i, lo + i + |p|;
    q, y := s, j;
    if x < a && a < j + |s| {
      GluedIsClean(content, s, j, p, a, secrets);
      q, y := Leftover(content, lo, hi, secrets, n, i, j, b, x);
    } else if b <= x && j < b {
      GluedIsClean(content, p, a, s, j, secrets);
      q, y := Leftover(content, lo, hi, secrets, n, i, a, j + |s|, x);
    }
  }

  lemma CoversSane(content: string, lo: nat, hi: nat, secrets: seq<string>, n: nat, s: string, j: nat, x: nat)
    requires Covers(content, lo, hi, secrets, n, s, j, x)
    ensures "" !in Passes(secrets) && n <= |Passes(secrets)| && lo <= hi <= |content|
  {
    PassesExact(secrets);
  }

  lemma {:induction false} CoveredIsUnreadable(content: string, lo: nat, hi: nat, secrets: seq<string>, n: nat, s: string, j: nat, x: nat)
    requires Covers(content, lo, hi, secrets, n, s, j, x) && GluedClean(secrets)
    ensures "" !in Passes(secrets) && n <= |Passes(secrets)| && lo <= hi <= |content|
    ensures !Readable(Spans(content, lo, hi, Passes(secrets)[n..]), x)
    decreases |Passes(secrets)| - n, hi - lo
  {
    hide *;
    CoversSane(content, lo, hi, secrets, n, s, j, x);
    CoversNext(content, lo, hi, secrets, n, s, j, x);
    var p := Passes(secrets)[n];
    var first := Find(content[lo..hi], p);
    if first.None? {
      CoveredIsUnreadable(content, lo, hi, secrets, n + 1, s, j, x);
    } else {
      var a, b := lo + first.value, lo + first.value + |p|;
      var q, y := CoversMatch(content, lo, hi, secrets, n, s, j, x, first.value);
      if x < a { CoveredIsUnreadable(content, lo, a, secrets, n + 1, q, y, x); }
      if b <= x { CoveredIsUnreadable(content, b, hi, secrets, n, q, y, x); }
    }
  }

  /** Redaction is complete for every content exactly if it is for the finitely many texts in
      which two secrets overlap. */
  lemma CompleteIffGluedClean(secrets: seq<string>)
    ensures LeavesNothing(secrets) <==> GluedClean(secrets)
  {
    PassesExact(secrets);
    if GluedClean(secrets) {
      forall content: string, s, j: nat, x: nat | s in secrets && OccursAt(content, s, j) && j <= x < j + |s|
        ensures !ReadableIn(content, secrets, x)
      {
        assert content[0..|content|] == content && Passes(secrets)[0..] == Passes(secrets);
        CoveredIsUnreadable(content, 0, |content|, secrets, 0, s, j, x);
      }
    }
    if LeavesNothing(secrets) {
      forall s, t, k: nat | s in secrets && t in secrets && 0 < k < |s| && OverlapBy(s, t, k) ensures Clean(Glued(s, t, k), secrets) {
        var g := Glued(s, t, k);
        GluedCovered(s, t, k);
        forall x: nat | x < |g| ensures !ReadableIn(g, secrets, x) {
          if x < |s| { assert OccursAt(g, s, 0); } else { assert OccursAt(g, t, |s| - k); }
        }
      }
    }
  }

  lemma GluedCovered(s: string, t: string, k: nat)
    requires OverlapBy(s, t, k)
    ensures OccursAt(Glued(s, t, k), s, 0) && OccursAt(Glued(s, t, k), t, |s| - k)
  {
    var g := Glued(s, t, k);
    assert g[0..|s|] == s;
    assert t == t[..k] + t[k..];
    assert g[|s| - k..] == s[|s| - k..] + t[k..];
  }

  /** All that the redacted text shows of the content are the readable stretches, and no
      character of a secret is in them. */
  ghost predicate ShowsNoSecret(content: string, secrets: seq<string>) {
    && Redacted(content, secrets) == Join(Texts(content, ReadableSpans(content, secrets)), MARKER)
    && forall s, j: nat, x: nat :: s in secrets && OccursAt(content, s, j) && j <= x < j + |s| ==> !ReadableIn(content, secrets, x)
  }

  /** The same for the redacted text. */
  lemma RedactedCompleteIff(secrets: seq<string>)
    requires LaterClear(Passes(secrets), MARKER)
    ensures (forall content :: ShowsNoSecret(content, secrets)) <==> GluedClean(secrets)
  {
    hide GluedClean, ReadableSpans, LaterClear;
    CompleteIffGluedClean(secrets);
    forall content ensures Redacted(content, secrets) == Join(Texts(content, ReadableSpans(content, secrets)), MARKER) {
      RedactedShowsSpans(content, secrets);
    }
    if forall content :: ShowsNoSecret(content, secrets) {
      forall content: string, s, j: nat, x: nat | s in secrets && OccursAt(content, s, j) && j <= x < j + |s|
        ensures !ReadableIn(content, secrets, x)
      {
        assert ShowsNoSecret(content, secrets);
      }
    }
  }

  /** An overlap alone does not decide: here a later pass removes what the overlap leaves. */
  lemma LaterPassCleans()
    ensures Overlap("aa", "aa") && LeavesNothing(["aa", "a"])
  {
    var secrets := ["aa", "a"];
    assert OverlapBy("aa", "aa", 1);
    hide LeavesNothing, Clean;
    forall s, t, k: nat | s in secrets && t in secrets && 0 < k < |s| && OverlapBy(s, t, k) ensures Clean(Glued(s, t, k), secrets) {
      assert s == t == "aa" && k == 1 && Glued(s, t, k) == "aaa";
      TripleIsClean();
    }
    CompleteIffGluedClean(secrets);
  }

  lemma TripleIsClean()
    ensures Clean("aaa", ["aa", "a"])
  {
    var g, two, one, passes := "aaa", "aa", "a", ["aa", "a"];
    PassesOfPair(two, 'a');
    assert Passes(passes) == passes;
    assert g[0..3] == g && g[2..3] == one && passes[1..] == [one];
    FindHere(g, two);
    FindHere(one, one);
    assert !Contains(one, two);
    hide FindFrom, Readable, Contains, Passes;
    RunPassesNoMatch(g, 2, 3, passes, "");
    forall x: nat | x < |g| ensures !ReadableIn(g, passes, x) {
      SpansAfterMatch(g, 0, 3, passes, 0, x);
      SpansAfterMatch(g, 2, 3, [one], 0, x);
    }
  }

  lemma FindHere(t: string, p: string)
    requires p <= t
    ensures Find(t, p) == Some(0)
  {
    assert t[0..|p|] == p;
  }

  // ----- simpler conditions -----------------------------------------------------------------------

  ghost predicate OverlapFree(secrets: seq<string>) {
    forall s, t :: s in secrets && t in secrets ==> !Overlap(s, t)
  }

  /** Secrets that contain one another are safe; only a partial overlap can leak. */
  lemma OverlapFreeLeavesNothing(secrets: seq<string>)
    requires OverlapFree(secrets)
    ensures LeavesNothing(secrets)
  {
    CompleteIffGluedClean(secrets);
    hide LeavesNothing, Clean;
    forall s, t, k: nat | s in secrets && t in secrets ensures !OverlapBy(s, t, k) { assert !Overlap(s, t); }
  }

  /** No secret contains another one. */
  ghost predicate Antichain(secrets: seq<string>) {
    forall s, t :: s in secrets && t in secrets && s != "" && Contains(t, s) ==> s == t
  }

  lemma {:induction false} UntouchedSpan(content: string, lo: nat, hi: nat, passes: seq<string>)
    requires lo <= hi <= |content| && "" !in passes && forall p :: p in passes ==> !Contains(content[lo..hi], p)
    ensures Spans(content, lo, hi, passes) == [(lo, hi)]
    decreases |passes|
  {
    if passes != [] {
      assert passes[0] in passes;
      UntouchedSpan(content, lo, hi, passes[1..]);
    }
  }

  /** A proper part of a secret of an antichain contains none of them. */
  lemma PartIsClean(t: string, lo: nat, hi: nat, whole: string, at: nat, secrets: seq<string>)
    requires Antichain(secrets) && whole in secrets && OccursAt(t, whole, at)
    requires at <= lo <= hi <= at + |whole| && hi - lo < |whole|
    ensures forall p :: p in secrets && p != "" ==> !Contains(t[lo..hi], p)
  {
    forall p | p in secrets && p != "" ensures !Contains(t[lo..hi], p) {
      forall i: nat ensures !OccursAt(t[lo..hi], p, i) {
        if i + |p| <= hi - lo {
          SliceOfSlice(t, lo, hi, i, i + |p|);
          SliceOfSlice(t, at, at + |whole|, lo - at + i, lo - at + i + |p|);
          assert OccursAt(t[lo..hi], p, i) ==> OccursAt(whole, p, lo - at + i);
          assert OccursAt(whole, p, lo - at + i) ==> Contains(whole, p);
        }
      }
    }
  }

  /** Two occurrences in an antichain, one inside the other, are one. */
  lemma InsideIsSame(content: string, s: string, j: nat, p: string, i: nat, secrets: seq<string>)
    requires Antichain(secrets) && s in secrets && p in secrets && p != ""
    requires OccursAt(content, s, j) && OccursAt(content, p, i) && j <= i && i + |p| <= j + |s|
    ensures p == s && i == j
  {
    SliceOfSlice(content, j, j + |s|, i - j, i - j + |p|);
    assert OccursAt(s, p, i - j);
  }

  /** In a content made of two overlapping secrets of an antichain, the first match leaves a
      clean rest on one side. */
  lemma {:induction false} OverlapReadable(content: string, s: string, t: string, at: nat, passes: seq<string>, secrets: seq<string>)
    requires Antichain(secrets) && s in passes && t in secrets && "" !in passes && forall p :: p in passes ==> p in secrets
    requires 0 < at < |s| < |content| == at + |t| && OccursAt(content, s, 0) && OccursAt(content, t, at)
    ensures Readable(Spans(content, 0, |content|, passes), 0) || Readable(Spans(content, 0, |content|, passes), |s|)
    decreases |passes|
  {
    hide FindFrom, Contains, Antichain, Readable, Spans;
    var n, p := |content|, passes[0];
    assert content[0..n] == content && p in passes && forall q :: q in passes[1..] ==> q in passes;
    if Find(content, p).None? {
      NoMatch(content, 0, n, passes, s, 0);
      OverlapReadable(content, s, t, at, passes[1..], secrets);
    } else {
      var i := Find(content, p).value;
      FindFits(content, p);
      SpansAfterMatch(content, 0, n, passes, i, 0);
      SpansAfterMatch(content, 0, n, passes, i, |s|);
      if i == 0 {
        if |p| <= |s| { InsideIsSame(content, s, 0, p, 0, secrets); } else { InsideIsSame(content, p, 0, s, 0, secrets); }
        PartIsClean(content, |s|, n, t, at, secrets);
        UntouchedSpan(content, |s|, n, passes);
        OneSpan(|s|, n, |s|);
      } else {
        if at <= i { InsideIsSame(content, t, at, p, i, secrets); }
        PartIsClean(content, 0, i, s, 0, secrets);
        UntouchedSpan(content, 0, i, passes[1..]);
        OneSpan(0, i, 0);
      }
    }
  }

  lemma OverlapLeaks(secrets: seq<string>, s: string, t: string)
    requires Antichain(secrets) && s in secrets && t in secrets && Overlap(s, t)
    ensures !LeavesNothing(secrets)
  {
    hide Antichain, Spans, Readable;
    PassesExact(secrets);
    var k: nat :| OverlapBy(s, t, k);
    var g := Glued(s, t, k);
    GluedCovered(s, t, k);
    OverlapReadable(g, s, t, |s| - k, Passes(secrets), secrets);
    assert ReadableIn(g, secrets, 0) || ReadableIn(g, secrets, |s|);
  }

  /** Where no secret contains another, redaction is complete for every content exactly if no
      two secrets overlap partially, a secret with itself included. */
  lemma CompleteIffOverlapFree(secrets: seq<string>)
    requires Antichain(secrets)
    ensures LeavesNothing(secrets) <==> OverlapFree(secrets)
  {
    hide Antichain, Overlap, LeavesNothing;
    if OverlapFree(secrets) {
      OverlapFreeLeavesNothing(secrets);
    } else {
      var s, t :| s in secrets && t in secrets && Overlap(s, t);
      OverlapLeaks(secrets, s, t);
    }
  }
}
