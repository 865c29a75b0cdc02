/** Secret redaction of deployment logs: every secret is replaced by a marker,
    longest secret first. */
module Redact {
  import opened Text
  import opened Sorting
  import opened Ordering

  const MARKER: string := "[REDACTED]"

  // ----- the order of the passes -------------------------------------------

  /** Width of a scalar value in UTF-8, the unit in which Rust measures `str::len`. */
  function Utf8Width(c: char): nat {
    if c < '\U{80}' then 1 else if c < '\U{800}' then 2 else if c < '\U{10000}' then 3 else 4
  }

  function ByteLen(s: string): nat {
    if s == "" then 0 else Utf8Width(s[0]) + ByteLen(s[1..])
  }

  /** Longest first, ties in lexicographic order. */
  predicate Earlier(a: string, b: string) {
    ByteLen(a) > ByteLen(b) || (ByteLen(a) == ByteLen(b) && LexLess(a, b))
  }

  function NonEmpty(secrets: seq<string>): seq<string> {
    if secrets == [] then []
    else (if secrets[0] == "" then [] else [secrets[0]]) + NonEmpty(secrets[1..])
  }

  /** `Vec::dedup`: drops an element equal to its predecessor. */
  function Dedup(xs: seq<string>): seq<string> {
    if |xs| < 2 then xs
    else if xs[0] == xs[1] then Dedup(xs[1..])
    else [xs[0]] + Dedup(xs[1..])
  }

  function Passes(secrets: seq<string>): seq<string> {
    Dedup(Sort(NonEmpty(secrets), Earlier))
  }

  /** One replacement per pass, each on the result of the previous one. */
  function RunPasses(content: string, passes: seq<string>, m: string): string
    requires "" !in passes
    decreases |passes|
  {
    if passes == [] then content
    else RunPasses(Replace(content, passes[0], m), passes[1..], m)
  }

  function Redacted(content: string, secrets: seq<string>): string {
    PassesExact(secrets);
    RunPasses(content, Passes(secrets), MARKER)
  }

  // ----- the passes are determined by the set of secrets ---------------------

  lemma EarlierIsStrictOrder()
    ensures StrictOrder(Earlier)
  {
    forall x ensures !Earlier(x, x) { LexTrichotomy(x, x); }
    forall x, y, z | Earlier(x, y) && Earlier(y, z) ensures Earlier(x, z) {
      if ByteLen(x) == ByteLen(y) == ByteLen(z) { LexTransitive(x, y, z); }
    }
    forall x, y, z | Earlier(x, y) ensures Earlier(x, z) || Earlier(z, y) {
      LexTrichotomy(x, z);
      if LexLess(z, x) && LexLess(x, y) { LexTransitive(z, x, y); }
    }
  }

  lemma {:induction false} NonEmptyExact(secrets: seq<string>)
    ensures forall s :: s in NonEmpty(secrets) <==> s in secrets && s != ""
  {
    if secrets != [] {
      NonEmptyExact(secrets[1..]);
      assert secrets == [secrets[0]] + secrets[1..];
    }
  }

  lemma {:induction false} DedupStrict(xs: seq<string>)
    requires Ascending(xs, Earlier)
    ensures StrictlyAscending(Dedup(xs), Earlier)
    ensures forall s :: s in Dedup(xs) <==> s in xs
  {
    if |xs| >= 2 {
      DedupStrict(xs[1..]);
      EarlierIsStrictOrder();
      assert xs == [xs[0]] + xs[1..];
      if xs[0] != xs[1] {
        var r := Dedup(xs[1..]);
        forall j | 0 <= j < |r| ensures Earlier(xs[0], r[j]) {
          assert r[j] in xs[1..];
          var k :| 1 <= k < |xs| && xs[k] == r[j];
          LexTrichotomy(xs[0], xs[1]);
          assert Earlier(xs[0], xs[1]);
          if k > 1 { assert !Earlier(xs[k], xs[1]); }
        }
      }
    }
  }

  lemma PassesExact(secrets: seq<string>)
    ensures forall s :: s in Passes(secrets) <==> s in secrets && s != ""
    ensures StrictlyAscending(Passes(secrets), Earlier)
    ensures "" !in Passes(secrets)
  {
    var kept := NonEmpty(secrets);
    NonEmptyExact(secrets);
    EarlierIsStrictOrder();
    SortSorts(kept, Earlier);
    SameElements(Sort(kept, Earlier), kept);
    DedupStrict(Sort(kept, Earlier));
  }

  /** A secret is as long as its UTF-8 encoding. */
  lemma ByteLenExact(c: char, s: string)
    ensures ByteLen("") == 0
    ensures ByteLen([c] + s) == ByteLen(s) + (if c as int >= 65536 then 4 else if c as int >= 2048 then 3 else if c as int >= 128 then 2 else 1)
  {
    assert ([c] + s)[1..] == s;
  }

  /** Each pass is for a secret that is longer than the next, or as long and before it by its characters. */
  lemma PassesInOrder(secrets: seq<string>)
    ensures forall i, j :: 0 <= i < j < |Passes(secrets)| ==>
              var a, b := Passes(secrets)[i], Passes(secrets)[j];
              ByteLen(a) > ByteLen(b) || (ByteLen(a) == ByteLen(b) && FirstDiffers(a, b))
  {
    PassesExact(secrets);
    forall i, j | 0 <= i < j < |Passes(secrets)|
      ensures var a, b := Passes(secrets)[i], Passes(secrets)[j];
              ByteLen(a) > ByteLen(b) || (ByteLen(a) == ByteLen(b) && FirstDiffers(a, b))
    {
      var a, b := Passes(secrets)[i], Passes(secrets)[j];
      assert Earlier(a, b);
      if LexLess(a, b) { LexLessDiffers(a, b); }
    }
  }

  /** At the first difference the character is smaller, or the text ends there. */
  ghost predicate FirstDiffers(a: string, b: string) {
    exists k: nat :: k < |b| && k <= |a| && a[..k] == b[..k] && (k == |a| || a[k] < b[k])
  }

  lemma {:induction false} LexLessDiffers(a: string, b: string)
    requires LexLess(a, b)
    ensures FirstDiffers(a, b)
  {
    if a == "" {
      assert a[..0] == b[..0];
    } else if a[0] != b[0] {
      assert a[..0] == b[..0] && a[0] < b[0];
    } else {
      LexLessDiffers(a[1..], b[1..]);
      var k: nat :| k < |b[1..]| && k <= |a[1..]| && a[1..][..k] == b[1..][..k] && (k == |a[1..]| || a[1..][k] < b[1..][k]);
      assert a[..k + 1] == [a[0]] + a[1..][..k] && b[..k + 1] == [b[0]] + b[1..][..k];
    }
  }

  /** Order, duplicates and empty secrets do not matter: only the set of the others does. */
  lemma DependsOnlyOnTheSet(content: string, secrets: seq<string>, others: seq<string>)
    requires forall s :: s != "" ==> (s in secrets <==> s in others)
    ensures Redacted(content, secrets) == Redacted(content, others)
  {
    PassesExact(secrets);
    PassesExact(others);
    EarlierIsStrictOrder();
    StrictlyAscendingUnique(Passes(secrets), Passes(others), Earlier);
  }

  // ----- what survives -------------------------------------------------------

  /** Placed so that `s` starts `d` characters after the start of `m`, the two agree
      wherever they overlap, and they do overlap. */
  ghost predicate AgreeAt(s: string, m: string, d: int) {
    -|s| < d < |m|
    && forall k :: 0 <= k < |s| && 0 <= k + d < |m| ==> s[k] == m[k + d]
  }

  /** Some text contains the marker and an occurrence of `s` that shares a character
      position with it. Decidable by sliding `s` along the marker. */
  ghost predicate Touches(s: string, m: string) {
    exists d: int :: AgreeAt(s, m, d)
  }

  lemma DisjointNeverTouches(s: string, m: string)
    requires s != "" && m != "" && forall c :: c in s ==> c !in m
    ensures !Touches(s, m)
  {
    forall d: int ensures !AgreeAt(s, m, d) {
      var k: int := if d < 0 then -d else 0;
      if -|s| < d < |m| {
        assert s[k] in s && m[k + d] in m;
      }
    }
  }

  /** An occurrence of `p` in `x + m + y` lies in `x` or in `y`. */
  lemma NotAcross(x: string, m: string, y: string, p: string, i: nat)
    requires p != "" && m != "" && !Touches(p, m)
    requires |x| - |p| < i < |x| + |m|
    ensures !OccursAt(x + m + y, p, i)
  {
    var t, d := x + m + y, i - |x|;
    assert !AgreeAt(p, m, d);
    var k: int :| 0 <= k < |p| && 0 <= k + d < |m| && p[k] != m[k + d];
    assert t[i + k] == m[k + d];
    if i + |p| <= |t| {
      assert t[i..i + |p|][k] == t[i + k];
    }
  }

  /** A suffix of `p` that starts a redacted text already started the original one. */
  lemma {:induction false} PrefixReflected(u: string, pat: string, m: string, p: string, a: nat)
    requires pat != "" && m != "" && 0 < a <= |p| && !Touches(p, m)
    requires p[a..] <= Replace(u, pat, m)
    ensures p[a..] <= u
    decreases |u|
  {
    if a < |p| && |pat| <= |u| {
      var tail := if pat <= u then u[|pat|..] else u[1..];
      var r := Replace(tail, pat, m);
      if pat <= u {
        assert p[..a] + m + r == p[..a] + Replace(u, pat, m);
        assert p == p[..a] + p[a..];
        NotAcross(p[..a], m, r, p, 0);
      } else {
        assert p[a..] == [p[a]] + p[a + 1..];
        assert Replace(u, pat, m)[1..] == r;
        assert p[a + 1..] == p[a..][1..];
        PrefixReflected(tail, pat, m, p, a + 1);
      }
    }
  }

  lemma NotInMarker(m: string, rest: string, p: string, i: nat)
    requires m != "" && p != "" && !Touches(p, m) && OccursAt(m + rest, p, i)
    ensures i >= |m| && OccursAt(rest, p, i - |m|)
  {
    hide Touches;
    assert "" + m + rest == m + rest;
    if i < |m| { NotAcross("", m, rest, p, i); }
    OccursShift(m, rest, p, i - |m|);
  }

  /** The first character was kept: an occurrence at the start comes from the original. */
  lemma KeptStart(u: string, pat: string, m: string, p: string)
    requires u != "" && pat != "" && m != "" && p != "" && !Touches(p, m)
    requires OccursAt([u[0]] + Replace(u[1..], pat, m), p, 0)
    ensures p <= u
  {
    hide Touches;
    var rest := Replace(u[1..], pat, m);
    assert p == ([u[0]] + rest)[..|p|];
    assert p[1..] <= rest;
    PrefixReflected(u[1..], pat, m, p, 1);
    assert u == [u[0]] + u[1..] && p == [p[0]] + p[1..];
  }

  /** Where a redacted text contains `p`, the text before the pass contained it, and the
      pass was not the one for `p`. */
  lemma {:induction false} OccurrenceReflected(u: string, pat: string, m: string, p: string, i: nat)
    requires pat != "" && m != "" && p != "" && !Touches(p, m)
    requires OccursAt(Replace(u, pat, m), p, i)
    ensures Contains(u, p) && p != pat
    decreases |u|
  {
    if |u| < |pat| {
      assert OccursAt(u, p, i);
    } else if pat <= u {
      ReplaceHere(u, pat, m);
      hide *;
      NotInMarker(m, Replace(u[|pat|..], pat, m), p, i);
      OccurrenceReflected(u[|pat|..], pat, m, p, i - |m|);
      ContainsShift(pat, u[|pat|..], p);
      assert u == pat + u[|pat|..];
    } else {
      var rest := Replace(u[1..], pat, m);
      assert u == [u[0]] + u[1..];
      OccursAtPrefix(u, pat);
      ReplaceSkips(u, pat, m);
      if i == 0 {
        KeptStart(u, pat, m, p);
        assert OccursAt(u, p, 0);
      } else {
        hide *;
        OccursShift([u[0]], rest, p, i - 1);
        OccurrenceReflected(u[1..], pat, m, p, i - 1);
        ContainsShift([u[0]], u[1..], p);
      }
    }
  }

  lemma {:induction false} PassesRemove(content: string, passes: seq<string>, m: string, p: string)
    requires "" !in passes && p != "" && m != "" && !Touches(p, m)
    requires p in passes || !Contains(content, p)
    ensures !Contains(RunPasses(content, passes, m), p)
    decreases |passes|
  {
    if passes != [] {
      var next := Replace(content, passes[0], m);
      if i: nat :| OccursAt(next, p, i) { OccurrenceReflected(content, passes[0], m, p, i); }
      PassesRemove(next, passes[1..], m, p);
    }
  }

  /** No secret survives, if it cannot overlap the marker. */
  lemma NoSecretSurvives(content: string, secrets: seq<string>, s: string)
    requires s in secrets && s != "" && !Touches(s, MARKER)
    ensures !Contains(Redacted(content, secrets), s)
  {
    PassesExact(secrets);
    PassesRemove(content, Passes(secrets), MARKER, s);
  }

  /** The parts of `s` that stick out of the marker when it is placed at offset `d`. */
  function LeftPart(s: string, d: int): (l: string)
    ensures d <= -|s| || |l| < |s| || s == ""
  {
    if 0 <= -d <= |s| then s[..-d] else ""
  }

  function RightPart(s: string, m: string, d: int): string {
    if 0 <= |m| - d <= |s| then s[|m| - d..] else ""
  }

  lemma MarkerShowsSecret(s: string, m: string, d: int)
    requires AgreeAt(s, m, d)
    ensures Contains(LeftPart(s, d) + m + RightPart(s, m, d), s)
  {
    var l, r := LeftPart(s, d), RightPart(s, m, d);
    var t := l + m + r;
    var i: nat := if d < 0 then 0 else d;
    forall k | 0 <= k < |s| ensures i + k < |t| && t[i + k] == s[k] {
      if 0 <= k + d < |m| { assert s[k] == m[k + d]; }
    }
    assert t[i..i + |s|] == s;
    assert OccursAt(t, s, i);
  }

  lemma {:induction false} ByteLenBounds(s: string)
    ensures ByteLen(s) >= |s|
  {
    if s != "" { ByteLenBounds(s[1..]); }
  }

  lemma PassesOfPair(s: string, z: char)
    requires ByteLen([z]) < ByteLen(s)
    ensures Passes([s, [z]]) == [s, [z]]
  {
    PassesExact([s, [z]]);
    EarlierIsStrictOrder();
    StrictlyAscendingUnique(Passes([s, [z]]), [s, [z]], Earlier);
  }

  lemma ReplaceOne(l: string, z: char, r: string, m: string)
    requires z !in l && z !in r
    ensures Replace(l + [z] + r, [z], m) == l + m + r
  {
    var parts := [l, r];
    forall i: nat ensures !OccursAt(r, [z], i) {
      if i < |r| { assert r[i..i + 1][0] == r[i]; }
    }
    forall i: nat | i < |l| ensures !OccursAt(l + [z], [z], i) {
      assert (l + [z])[i..i + 1][0] == l[i];
    }
    assert parts[1..] == [r];
    assert Join(parts[1..], [z]) == r && Join(parts[1..], m) == r;
    ReplaceByPieces(parts, [z], m);
  }

  lemma {:induction false} FewCharacters(s: string)
    ensures |set c | c in s| <= |s|
  {
    var chars := set c | c in s;
    if s == "" {
      assert chars == {};
    } else {
      var rest := set c | c in s[1..];
      assert s == [s[0]] + s[1..];
      assert chars == {s[0]} + rest;
      FewCharacters(s[1..]);
    }
  }

  /** A secret of at least two characters that does not use every character there is leaves
      one out that is encoded in fewer bytes than the secret. */
  lemma ShorterCharacter(s: string, z: char) returns (y: char)
    requires |s| >= 2 && z !in s
    ensures y !in s && ByteLen([y]) < ByteLen(s)
  {
    ByteLenBounds(s);
    y := z;
    if |s| < 5 {
      var letters := {'a', 'b', 'c', 'd', 'e'};
      var chars := set c | c in s;
      FewCharacters(s);
      assert |letters| == 5;
      if letters <= chars { SubsetSize(letters, chars); }
      y :| y in letters && y !in chars;
    }
    assert [y][1..] == "";
    assert ByteLen([y]) == Utf8Width(y);
  }

  lemma {:induction false} SubsetSize<T>(a: set<T>, b: set<T>)
    requires a <= b
    ensures |a| <= |b|
  {
    if a != {} {
      var x :| x in a;
      SubsetSize(a - {x}, b - {x});
    }
  }

  /** A secret that can overlap the marker is not safe: beside a second secret there is a
      text in which redaction itself writes it out. */
  lemma TouchingSecretSurvives(s: string, z: char) returns (content: string, secrets: seq<string>)
    requires s != "" && Touches(s, MARKER) && z !in s
    ensures s in secrets && Contains(Redacted(content, secrets), s)
  {
    var m := MARKER;
    var d: int :| AgreeAt(s, m, d);
    var l, r := LeftPart(s, d), RightPart(s, m, d);
    MarkerShowsSecret(s, m, d);
    if |s| == 1 {
      content, secrets := s, [s];
      PassesExact(secrets);
      EarlierIsStrictOrder();
      StrictlyAscendingUnique(Passes(secrets), [s], Earlier);
      assert l + m + r == m;
      assert Replace(s, s, m) == m + Replace("", s, m) == m;
      assert RunPasses(s, [s], m) == RunPasses(m, [s][1..], m) == m;
    } else {
      var y := ShorterCharacter(s, z);
      content, secrets := l + [y] + r, [s, [y]];
      PassesExact(secrets);
      PassesOfPair(s, y);
      forall i: nat ensures !OccursAt(content, s, i) {
        if i + |s| <= |content| {
          assert content[i..i + |s|][|l| - i] == content[|l|] == y;
        }
      }
      ReplaceAbsent(content, s, m);
      ReplaceOne(l, y, r, m);
      assert secrets[1..] == [[y]] && [[y]][1..] == [];
      assert RunPasses(content, secrets, m) == RunPasses(content, [[y]], m) == l + m + r;
    }
  }

  /** Exactly the secrets that cannot overlap the marker are safe in every company and
      every text, unless a secret uses every Unicode character; `z` is one it does not use. */
  lemma SafeIffNotTouching(s: string, z: char)
    requires s != "" && z !in s
    ensures !Touches(s, MARKER)
            <==> forall content: string, secrets: seq<string> {:trigger Redacted(content, secrets)} ::
                   s in secrets ==> !Contains(Redacted(content, secrets), s)
  {
    if Touches(s, MARKER) {
      var content, secrets := TouchingSecretSurvives(s, z);
      assert Contains(Redacted(content, secrets), s);
    } else {
      forall content: string, secrets: seq<string> | s in secrets
        ensures !Contains(Redacted(content, secrets), s)
      {
        NoSecretSurvives(content, secrets, s);
      }
    }
  }

  lemma {:induction false} PassesAbsent(content: string, passes: seq<string>, m: string)
    requires "" !in passes && forall p :: p in passes ==> !Contains(content, p)
    ensures RunPasses(content, passes, m) == content
  {
    if passes != [] {
      ReplaceAbsent(content, passes[0], m);
      PassesAbsent(content, passes[1..], m);
    }
  }

  lemma RedactIdempotent(content: string, secrets: seq<string>)
    requires forall s :: s in secrets ==> !Touches(s, MARKER)
    ensures Redacted(Redacted(content, secrets), secrets) == Redacted(content, secrets)
  {
    PassesExact(secrets);
    forall s | s in Passes(secrets) ensures !Contains(Redacted(content, secrets), s) {
      NoSecretSurvives(content, secrets, s);
    }
    PassesAbsent(Redacted(content, secrets), Passes(secrets), MARKER);
  }

  // ----- the longest secret --------------------------------------------------

  lemma MarkerStep(m: string, off: nat, r: string)
    requires off < |m|
    ensures [m[off]] + (m[off + 1..] + r) == m[off..] + r
  {
    assert m[off..] == [m[off]] + m[off + 1..];
  }

  lemma NoMatchInMarker(m: string, off: nat, y: string, p: string)
    requires p != "" && off < |m| && !Touches(p, m)
    ensures !OccursAt(m[off..] + y, p, 0)
  {
    hide Touches;
    var t := m[off..] + y;
    assert m == m[..off] + m[off..];
    NotAcross("", m, y, p, off);
    assert "" + m + y == m[..off] + t;
    OccursShift(m[..off], t, p, 0);
  }

  lemma {:induction false} ReplaceAfterMarkerPart(m: string, off: nat, y: string, p: string)
    requires p != "" && m != "" && !Touches(p, m) && off <= |m|
    ensures Replace(m[off..] + y, p, m) == m[off..] + Replace(y, p, m)
    decreases |m| - off
  {
    if off == |m| {
      assert m[off..] + y == y;
      assert m[off..] + Replace(y, p, m) == Replace(y, p, m);
    } else {
      NoMatchInMarker(m, off, y, p);
      hide *;
      var t := m[off..] + y;
      ReplaceSkips(t, p, m);
      assert t[1..] == m[off + 1..] + y && t[0] == m[off];
      ReplaceAfterMarkerPart(m, off + 1, y, p);
      MarkerStep(m, off, Replace(y, p, m));
    }
  }

  lemma Shifted(a: string, b: string, c: string, d: string)
    ensures a + (b + c + d) == (a + b) + c + d
  {
  }

  lemma NotAtStart(x: string, m: string, y: string, p: string)
    requires x != "" && p != "" && m != "" && !Touches(p, m) && !(p <= x)
    ensures !OccursAt(x + m + y, p, 0) && !OccursAt(x, p, 0)
  {
    hide Touches;
    var t := x + m + y;
    if |p| > |x| { NotAcross(x, m, y, p, 0); } else { assert t[..|p|] == x[..|p|]; }
    OccursAtPrefix(t, p);
    OccursAtPrefix(x, p);
  }

  lemma AroundAtMatch(x: string, y: string, m: string, p: string)
    requires p != "" && p <= x
    requires Replace(x[|p|..] + m + y, p, m) == Replace(x[|p|..], p, m) + m + Replace(y, p, m)
    ensures Replace(x + m + y, p, m) == Replace(x, p, m) + m + Replace(y, p, m)
  {
    hide Replace;
    var t := x + m + y;
    assert t[|p|..] == x[|p|..] + m + y;
    ReplaceHere(t, p, m);
    ReplaceHere(x, p, m);
    Shifted(m, Replace(x[|p|..], p, m), m, Replace(y, p, m));
  }

  lemma AroundAfterSkip(x: string, y: string, m: string, p: string)
    requires p != "" && x != "" && !OccursAt(x + m + y, p, 0) && !OccursAt(x, p, 0)
    requires Replace(x[1..] + m + y, p, m) == Replace(x[1..], p, m) + m + Replace(y, p, m)
    ensures Replace(x + m + y, p, m) == Replace(x, p, m) + m + Replace(y, p, m)
  {
    hide Replace, OccursAt;
    var t := x + m + y;
    assert t[1..] == x[1..] + m + y && t[0] == x[0];
    ReplaceSkips(t, p, m);
    ReplaceSkips(x, p, m);
    Shifted([x[0]], Replace(x[1..], p, m), m, Replace(y, p, m));
  }

  /** A later pass works on both sides of a marker independently. */
  lemma {:induction false} ReplaceAroundMarker(x: string, y: string, m: string, p: string)
    requires p != "" && m != "" && !Touches(p, m)
    ensures Replace(x + m + y, p, m) == Replace(x, p, m) + m + Replace(y, p, m)
    decreases |x|
  {
    if x == "" {
      assert x + m + y == m[0..] + y && m[0..] == m;
      ReplaceAfterMarkerPart(m, 0, y, p);
      assert Replace(x, p, m) == "";
    } else if p <= x {
      hide Touches, Replace;
      ReplaceAroundMarker(x[|p|..], y, m, p);
      AroundAtMatch(x, y, m, p);
    } else {
      hide Touches, Replace;
      NotAtStart(x, m, y, p);
      ReplaceAroundMarker(x[1..], y, m, p);
      AroundAfterSkip(x, y, m, p);
    }
  }

  lemma {:induction false} PassesAroundMarker(x: string, y: string, passes: seq<string>, m: string)
    requires "" !in passes && m != "" && forall p :: p in passes ==> !Touches(p, m)
    ensures RunPasses(x + m + y, passes, m) == RunPasses(x, passes, m) + m + RunPasses(y, passes, m)
    decreases |passes|
  {
    if passes != [] {
      ReplaceAroundMarker(x, y, m, passes[0]);
      PassesAroundMarker(Replace(x, passes[0], m), Replace(y, passes[0], m), passes[1..], m);
    }
  }

  function EachRedacted(parts: seq<string>, passes: seq<string>, m: string): seq<string>
    requires "" !in passes
  {
    seq(|parts|, i requires 0 <= i < |parts| => RunPasses(parts[i], passes, m))
  }

  lemma {:induction false} PassesOverJoin(parts: seq<string>, passes: seq<string>, m: string)
    requires "" !in passes && m != "" && (forall p :: p in passes ==> !Touches(p, m)) && |parts| > 0
    ensures RunPasses(Join(parts, m), passes, m) == Join(EachRedacted(parts, passes, m), m)
    decreases |parts|
  {
    if |parts| > 1 {
      var tail := parts[1..];
      PassesAroundMarker(parts[0], Join(tail, m), passes, m);
      PassesOverJoin(tail, passes, m);
      assert EachRedacted(tail, passes, m) == EachRedacted(parts, passes, m)[1..];
    }
  }

  /** Each scan match of the longest secret becomes exactly one marker in the final text;
      what lies between the matches is redacted separately by the other secrets. */
  lemma LongestSecretOneMarkerEach(parts: seq<string>, secrets: seq<string>)
    requires (forall s :: s in secrets ==> !Touches(s, MARKER)) && Passes(secrets) != []
    requires ScanPieces(parts, Passes(secrets)[0])
    ensures "" !in Passes(secrets)
    ensures forall s :: s in secrets ==> ByteLen(s) <= ByteLen(Passes(secrets)[0])
    ensures Redacted(Join(parts, Passes(secrets)[0]), secrets)
            == Join(EachRedacted(parts, Passes(secrets)[1..], MARKER), MARKER)
  {
    PassesExact(secrets);
    var longest, rest := Passes(secrets)[0], Passes(secrets)[1..];
    forall s | s in secrets ensures ByteLen(s) <= ByteLen(longest) {
      if s != "" {
        var k :| 0 <= k < |Passes(secrets)| && Passes(secrets)[k] == s;
        if k > 0 { assert Earlier(longest, Passes(secrets)[k]); }
      }
    }
    ReplaceByPieces(parts, longest, MARKER);
    PassesOverJoin(parts, rest, MARKER);
  }

  /** Longest-first does not help two secrets that overlap partially: the end of the
      second one stays readable. */
  lemma PartialOverlapLeavesResidue()
    ensures Redacted("abcde", ["abc", "cde"]) == "[REDACTED]de"
  {
    var secrets := ["abc", "cde"];
    PassesExact(secrets);
    EarlierIsStrictOrder();
    assert ByteLen("abc") == ByteLen("cde");
    StrictlyAscendingUnique(Passes(secrets), secrets, Earlier);
    var m := MARKER;
    assert "abcde"[3..] == "de";
    assert Replace("abcde", "abc", m) == m + "de";
    assert 'c' !in m;
    NoChar(m + "de", "cde", m);
    assert secrets[1..] == ["cde"] && ["cde"][1..] == [];
    assert RunPasses(m + "de", ["cde"], m) == m + "de";
  }

  lemma NoChar(t: string, p: string, m: string)
    requires p != "" && p[0] !in t
    ensures Replace(t, p, m) == t
  {
    forall i: nat ensures !OccursAt(t, p, i) {
      if i + |p| <= |t| { assert t[i..i + |p|][0] == t[i]; }
    }
    ReplaceAbsent(t, p, m);
  }

  // ----- the code --------------------------------------------------------------

  method Redact(content: string, secrets: seq<string>) returns (out: string)
    ensures out == Redacted(content, secrets)
  {
    var kept: seq<string> := [];
    for i := 0 to |secrets|
      invariant kept + NonEmpty(secrets[i..]) == NonEmpty(secrets)
    {
      if secrets[i] != "" { kept := kept + [secrets[i]]; }
    }
    assert kept == NonEmpty(secrets);
    var passes := Dedup(Sort(kept, Earlier));
    PassesExact(secrets);
    assert passes[0..] == Passes(secrets);
    out := content;
    for i := 0 to |passes|
      invariant "" !in passes[i..] && RunPasses(out, passes[i..], MARKER) == Redacted(content, secrets)
    {
      assert passes[i..][1..] == passes[i + 1..];
      out := Replace(out, passes[i], MARKER);
    }
  }
}
