/** What redaction leaves readable of a content, by position. */
module RedactResidue {
  import opened Text
  import opened Redact

  // ----- the characters that survive -------------------------------------------------

  /** A stretch of the content that stays readable, from its first index to its end. */
  type Span = (nat, nat)

  /** The leftmost occurrence of `p`. */
  function Find(t: string, p: string): (r: Option<nat>)
    ensures r.Some? ==> OccursAt(t, p, r.value) && forall j: nat :: j < r.value ==> !OccursAt(t, p, j)
    ensures r.Some? <==> Contains(t, p)
  {
    FindExact(t, p, 0);
    FindFrom(t, p, 0)
  }

  function FindFrom(t: string, p: string, i: nat): Option<nat>
    decreases |t| - i
  {
    if i + |p| > |t| then None
    else if t[i..i + |p|] == p then Some(i)
    else FindFrom(t, p, i + 1)
  }

  lemma {:induction false} FindExact(t: string, p: string, i: nat)
    requires forall j: nat :: j < i ==> !OccursAt(t, p, j)
    ensures var r := FindFrom(t, p, i);
            && (r.Some? ==> OccursAt(t, p, r.value) && forall j: nat :: j < r.value ==> !OccursAt(t, p, j))
            && (r.None? ==> !Contains(t, p))
    decreases |t| - i
  {
    if i + |p| <= |t| && t[i..i + |p|] != p { FindExact(t, p, i + 1); }
  }

  lemma FindFits(t: string, p: string)
    requires Find(t, p).Some?
    ensures Find(t, p).value + |p| <= |t|
  {
  }

  ghost predicate Within(spans: seq<Span>, lo: nat, hi: nat) {
    forall k :: 0 <= k < |spans| ==> lo <= spans[k].0 <= spans[k].1 <= hi
  }

  /** What the passes leave readable of `content[lo..hi]`. */
  function Spans(content: string, lo: nat, hi: nat, passes: seq<string>): (r: seq<Span>)
    requires lo <= hi <= |content| && "" !in passes
    ensures |r| > 0 && Within(r, lo, hi) && Within(r, 0, |content|)
    decreases |passes|, hi - lo, 1
  {
    if |passes| == 0 then [(lo, hi)] else Around(content, lo, hi, passes, Find(content[lo..hi], passes[0]))
  }

  /** The same, where `first` is the leftmost match of the first pass. */
  function Around(content: string, lo: nat, hi: nat, passes: seq<string>, first: Option<nat>): (r: seq<Span>)
    requires lo <= hi <= |content| && "" !in passes && |passes| > 0
    requires first.Some? ==> lo + first.value + |passes[0]| <= hi
    ensures |r| > 0 && Within(r, lo, hi) && Within(r, 0, |content|)
    decreases |passes|, hi - lo, 0
  {
    match first
    case None => Spans(content, lo, hi, passes[1..])
    case Some(i) => Spans(content, lo, lo + i, passes[1..]) + Spans(content, lo + i + |passes[0]|, hi, passes)
  }

  ghost function Texts(content: string, spans: seq<Span>): seq<string>
    requires Within(spans, 0, |content|)
  {
    seq(|spans|, k requires 0 <= k < |spans| => content[spans[k].0..spans[k].1])
  }

  predicate Readable(spans: seq<Span>, k: nat) {
    exists j :: 0 <= j < |spans| && spans[j].0 <= k < spans[j].1
  }

  lemma SkipAt(t: string, p: string, j: nat, m: string)
    requires p != "" && j + |p| < |t| && !OccursAt(t, p, j)
    ensures Replace(t[j..], p, m) == [t[j]] + Replace(t[j + 1..], p, m)
  {
    hide Replace;
    assert t[j..][..|p|] == t[j..j + |p|] && t[j..][1..] == t[j + 1..];
    ReplaceSkips(t[j..], p, m);
  }

  lemma MatchAt(t: string, p: string, i: nat, m: string)
    requires p != "" && OccursAt(t, p, i)
    ensures Replace(t[i..], p, m) == t[i..i] + (m + Replace(t[i + |p|..], p, m))
  {
    hide Replace;
    assert t[i..][..|p|] == p && t[i..][|p|..] == t[i + |p|..];
    ReplaceHere(t[i..], p, m);
  }

  lemma SliceStep(t: string, j: nat, i: nat, r: string)
    requires j < i <= |t|
    ensures [t[j]] + (t[j + 1..i] + r) == t[j..i] + r
  {
    assert t[j..i] == [t[j]] + t[j + 1..i];
  }

  lemma {:induction false} ReplaceFrom(t: string, p: string, j: nat, i: nat, m: string)
    requires p != "" && j <= i && OccursAt(t, p, i) && forall k: nat :: k < i ==> !OccursAt(t, p, k)
    ensures i + |p| <= |t| && Replace(t[j..], p, m) == t[j..i] + (m + Replace(t[i + |p|..], p, m))
    decreases i - j
  {
    assert i + |p| <= |t|;
    hide *;
    if j == i {
      MatchAt(t, p, i, m);
    } else {
      SkipAt(t, p, j, m);
      ReplaceFrom(t, p, j + 1, i, m);
      SliceStep(t, j, i, m + Replace(t[i + |p|..], p, m));
    }
  }

  lemma ReplaceFirst(t: string, p: string, i: nat, m: string)
    requires p != "" && OccursAt(t, p, i) && forall k: nat :: k < i ==> !OccursAt(t, p, k)
    ensures i + |p| <= |t| && Replace(t, p, m) == t[..i] + m + Replace(t[i + |p|..], p, m)
  {
    ReplaceFrom(t, p, 0, i, m);
    hide *;
    assert t[0..] == t && t[0..i] == t[..i];
    var r := Replace(t[i + |p|..], p, m);
    assert t[..i] + (m + r) == t[..i] + m + r;
  }

  lemma TextsConcat(content: string, a: seq<Span>, b: seq<Span>)
    requires Within(a, 0, |content|) && Within(b, 0, |content|)
    ensures Within(a + b, 0, |content|) && Texts(content, a + b) == Texts(content, a) + Texts(content, b)
  {
  }

  /** No pass that runs when markers are already there can match across one. */
  ghost predicate LaterClear(passes: seq<string>, m: string) {
    forall i :: 1 <= i < |passes| ==> !Touches(passes[i], m)
  }

  lemma LaterClearTail(passes: seq<string>, m: string)
    requires |passes| > 0 && LaterClear(passes, m)
    ensures LaterClear(passes[1..], m) && forall p :: p in passes[1..] ==> !Touches(p, m)
  {
    hide Touches;
    forall i | 0 <= i < |passes[1..]| ensures !Touches(passes[1..][i], m) { assert passes[1..][i] == passes[i + 1]; }
  }

  lemma RunPassesAtMatch(t: string, passes: seq<string>, i: nat, m: string)
    requires |passes| > 0 && "" !in passes && m != "" && LaterClear(passes, m)
    requires Find(t, passes[0]) == Some(i)
    ensures i + |passes[0]| <= |t|
    ensures RunPasses(t, passes, m) == RunPasses(t[..i], passes[1..], m) + m + RunPasses(t[i + |passes[0]|..], passes, m)
  {
    hide FindFrom, Touches;
    LaterClearTail(passes, m);
    ReplaceFirst(t, passes[0], i, m);
    PassesAroundMarker(t[..i], Replace(t[i + |passes[0]|..], passes[0], m), passes[1..], m);
  }

  lemma SpansAtMatch(content: string, lo: nat, hi: nat, passes: seq<string>, i: nat, m: string)
    requires lo <= hi <= |content| && "" !in passes && |passes| > 0 && Find(content[lo..hi], passes[0]) == Some(i)
    ensures lo + i + |passes[0]| <= hi
    ensures Join(Texts(content, Spans(content, lo, hi, passes)), m)
            == Join(Texts(content, Spans(content, lo, lo + i, passes[1..])), m) + m
               + Join(Texts(content, Spans(content, lo + i + |passes[0]|, hi, passes)), m)
  {
    hide FindFrom, OccursAt, Contains, Join, Texts, Within;
    FindFits(content[lo..hi], passes[0]);
    var a, b := Spans(content, lo, lo + i, passes[1..]), Spans(content, lo + i + |passes[0]|, hi, passes);
    TextsConcat(content, a, b);
    assert |Texts(content, a)| > 0 && |Texts(content, b)| > 0 by { TextsLength(content, a); TextsLength(content, b); }
    JoinConcat(Texts(content, a), Texts(content, b), m);
  }

  lemma TextsLength(content: string, spans: seq<Span>)
    requires Within(spans, 0, |content|)
    ensures |Texts(content, spans)| == |spans|
  {
  }

  /** The redacted text is what stays readable, with one marker between each two stretches. */
  lemma {:induction false} RunPassesIsSpans(content: string, lo: nat, hi: nat, passes: seq<string>, m: string)
    requires lo <= hi <= |content| && "" !in passes && m != "" && LaterClear(passes, m)
    ensures RunPasses(content[lo..hi], passes, m) == Join(Texts(content, Spans(content, lo, hi, passes)), m)
    decreases |passes|, hi - lo
  {
    hide *;
    if passes == [] {
      NoPasses(content, lo, hi, m);
    } else {
      LaterClearTail(passes, m);
      var t, p := content[lo..hi], passes[0];
      if Find(t, p).None? {
        RunPassesNoMatch(content, lo, hi, passes, m);
        RunPassesIsSpans(content, lo, hi, passes[1..], m);
      } else {
        var i := Find(t, p).value;
        RunPassesAtMatch(t, passes, i, m);
        SpansAtMatch(content, lo, hi, passes, i, m);
        SliceOfSlice(content, lo, hi, 0, i);
        SliceOfSlice(content, lo, hi, i + |p|, hi - lo);
        assert t[..i] == t[0..i] && t[i + |p|..] == t[i + |p|..hi - lo];
        RunPassesIsSpans(content, lo, lo + i, passes[1..], m);
        RunPassesIsSpans(content, lo + i + |p|, hi, passes, m);
      }
    }
  }

  lemma NoPasses(content: string, lo: nat, hi: nat, m: string)
    requires lo <= hi <= |content|
    ensures RunPasses(content[lo..hi], [], m) == Join(Texts(content, Spans(content, lo, hi, [])), m)
  {
  }

  lemma RunPassesNoMatch(content: string, lo: nat, hi: nat, passes: seq<string>, m: string)
    requires lo <= hi <= |content| && "" !in passes && |passes| > 0 && Find(content[lo..hi], passes[0]).None?
    ensures RunPasses(content[lo..hi], passes, m) == RunPasses(content[lo..hi], passes[1..], m)
    ensures Spans(content, lo, hi, passes) == Spans(content, lo, hi, passes[1..])
  {
    hide FindFrom, OccursAt, Contains, Replace;
    ReplaceAbsent(content[lo..hi], passes[0], m);
  }

  // ----- readable positions around a match -------------------------------------------------

  lemma OccursWithin(content: string, lo: nat, hi: nat, s: string, j: nat)
    requires lo <= j && j + |s| <= hi <= |content|
    ensures OccursAt(content, s, j) <==> OccursAt(content[lo..hi], s, j - lo)
  {
    SliceOfSlice(content, lo, hi, j - lo, j - lo + |s|);
  }

  lemma NoMatch(content: string, lo: nat, hi: nat, passes: seq<string>, s: string, j: nat)
    requires lo <= j && j + |s| <= hi <= |content| && OccursAt(content, s, j)
    requires "" !in passes && s in passes && Find(content[lo..hi], passes[0]).None?
    ensures s in passes[1..] && Spans(content, lo, hi, passes) == Spans(content, lo, hi, passes[1..])
  {
    OccursWithin(content, lo, hi, s, j);
    assert passes == [passes[0]] + passes[1..];
  }

  lemma ReadableConcat(a: seq<Span>, b: seq<Span>, k: nat)
    ensures Readable(a + b, k) <==> Readable(a, k) || Readable(b, k)
  {
    if Readable(a, k) {
      var j :| 0 <= j < |a| && a[j].0 <= k < a[j].1;
      assert (a + b)[j] == a[j];
    }
    if Readable(b, k) {
      var j :| 0 <= j < |b| && b[j].0 <= k < b[j].1;
      assert (a + b)[|a| + j] == b[j];
    }
  }

  lemma SpansBounds(content: string, lo: nat, hi: nat, passes: seq<string>, k: nat)
    requires lo <= hi <= |content| && "" !in passes && Readable(Spans(content, lo, hi, passes), k)
    ensures lo <= k < hi
  {
  }

  lemma SpansSome(content: string, lo: nat, hi: nat, passes: seq<string>, i: nat)
    requires lo <= hi <= |content| && "" !in passes && |passes| > 0 && Find(content[lo..hi], passes[0]) == Some(i)
    ensures lo + i + |passes[0]| <= hi
    ensures Spans(content, lo, hi, passes)
            == Spans(content, lo, lo + i, passes[1..]) + Spans(content, lo + i + |passes[0]|, hi, passes)
  {
    hide FindFrom, OccursAt, Contains, Within;
    FindFits(content[lo..hi], passes[0]);
  }

  lemma SpansAfterMatch(content: string, lo: nat, hi: nat, passes: seq<string>, i: nat, k: nat)
    requires lo <= hi <= |content| && "" !in passes && |passes| > 0 && Find(content[lo..hi], passes[0]) == Some(i)
    ensures lo + i + |passes[0]| <= hi
    ensures Readable(Spans(content, lo, hi, passes), k) <==>
              || (k < lo + i && Readable(Spans(content, lo, lo + i, passes[1..]), k))
              || (lo + i + |passes[0]| <= k && Readable(Spans(content, lo + i + |passes[0]|, hi, passes), k))
  {
    hide *;
    var p, rest := passes[0], passes[1..];
    FindFits(content[lo..hi], p);
    SpansSome(content, lo, hi, passes, i);
    if Readable(Spans(content, lo, lo + i, rest), k) { SpansBounds(content, lo, lo + i, rest, k); }
    if Readable(Spans(content, lo + i + |p|, hi, passes), k) { SpansBounds(content, lo + i + |p|, hi, passes, k); }
    ReadableConcat(Spans(content, lo, lo + i, rest), Spans(content, lo + i + |p|, hi, passes), k);
  }

  // ----- the redacted text --------------------------------------------------------------------

  /** What redaction leaves readable of the content. */
  function ReadableSpans(content: string, secrets: seq<string>): (r: seq<Span>)
    ensures |r| > 0 && Within(r, 0, |content|)
  {
    PassesExact(secrets);
    Spans(content, 0, |content|, Passes(secrets))
  }

  /** The redacted text shows exactly the readable stretches, unless a secret other than the
      longest can overlap the marker. */
  lemma RedactedShowsSpans(content: string, secrets: seq<string>)
    requires LaterClear(Passes(secrets), MARKER)
    ensures Redacted(content, secrets) == Join(Texts(content, ReadableSpans(content, secrets)), MARKER)
  {
    PassesExact(secrets);
    assert content[0..|content|] == content;
    RunPassesIsSpans(content, 0, |content|, Passes(secrets), MARKER);
  }
}
