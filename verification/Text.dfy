/** Strings as the modelled code sees them: a Rust `str` is a sequence of Unicode scalar
    values, and the library operations on it that the models share. */
module Text {

  datatype Option<+T> = None | Some(value: T)

  predicate OccursAt(s: string, p: string, i: nat) {
    i + |p| <= |s| && s[i..i + |p|] == p
  }

  predicate Contains(s: string, p: string) {
    exists i: nat :: i <= |s| && OccursAt(s, p, i)
  }

  /** `str::replace`: scan from the left, replace each match, continue after it. */
  function Replace(s: string, p: string, rep: string): string
    requires p != ""
    decreases |s|
  {
    if |s| < |p| then s
    else if p <= s then rep + Replace(s[|p|..], p, rep)
    else [s[0]] + Replace(s[1..], p, rep)
  }

  function Join(parts: seq<string>, sep: string): string {
    if |parts| == 0 then ""
    else if |parts| == 1 then parts[0]
    else parts[0] + sep + Join(parts[1..], sep)
  }

  /** The pieces of `s` between the matches of `p` that a left-to-right scan finds:
      no piece contains `p`, and no match starts inside a piece that a match follows. */
  ghost predicate ScanPieces(parts: seq<string>, p: string) {
    |parts| > 0
    && !Contains(parts[|parts| - 1], p)
    && forall k, i: nat :: 0 <= k < |parts| - 1 && i < |parts[k]| ==> !OccursAt(parts[k] + p, p, i)
  }

  lemma SliceOfSlice(t: string, lo: nat, hi: nat, a: nat, b: nat)
    requires lo <= hi <= |t| && a <= b <= hi - lo
    ensures t[lo..hi][a..b] == t[lo + a..lo + b]
  {
    var x, y := t[lo..hi][a..b], t[lo + a..lo + b];
    forall i | 0 <= i < b - a ensures x[i] == y[i] {
      assert x[i] == t[lo..hi][a + i];
    }
  }

  lemma OccursAtPrefix(s: string, p: string)
    ensures OccursAt(s, p, 0) <==> p <= s
  {
  }

  lemma OccursShift(x: string, s: string, p: string, i: nat)
    ensures OccursAt(x + s, p, |x| + i) <==> OccursAt(s, p, i)
  {
    if i + |p| <= |s| {
      assert (x + s)[|x| + i..|x| + i + |p|] == s[i..i + |p|];
    }
  }

  lemma ContainsShift(x: string, s: string, p: string)
    requires Contains(s, p)
    ensures Contains(x + s, p)
  {
    var i: nat :| OccursAt(s, p, i);
    OccursShift(x, s, p, i);
  }

  /** A string without the pattern is left alone, and conversely a scan that finds a match
      never returns the string it was given if the replacement has another length. */
  lemma {:induction false} ReplaceAbsent(s: string, p: string, rep: string)
    requires p != "" && !Contains(s, p)
    ensures Replace(s, p, rep) == s
    decreases |s|
  {
    if |s| >= |p| {
      OccursAtPrefix(s, p);
      assert s == [s[0]] + s[1..];
      if Contains(s[1..], p) { ContainsShift([s[0]], s[1..], p); }
      ReplaceAbsent(s[1..], p, rep);
    }
  }

  lemma {:induction false} ReplaceShortens(s: string, p: string)
    requires p != ""
    ensures |Replace(s, p, "")| <= |s|
    ensures Contains(s, p) ==> |Replace(s, p, "")| < |s|
    decreases |s|
  {
    if |s| < |p| {
    } else if p <= s {
      ReplaceShortens(s[|p|..], p);
    } else {
      ReplaceShortens(s[1..], p);
      if i: nat :| OccursAt(s, p, i) {
        assert i > 0;
        assert s == [s[0]] + s[1..];
        OccursShift([s[0]], s[1..], p, i - 1);
      }
    }
  }

  lemma JoinCons(head: string, tail: seq<string>, sep: string)
    requires |tail| > 0
    ensures Join([head] + tail, sep) == head + sep + Join(tail, sep)
  {
    assert ([head] + tail)[1..] == tail;
  }

  lemma {:induction false} JoinConcat(a: seq<string>, b: seq<string>, sep: string)
    requires |a| > 0 && |b| > 0
    ensures Join(a + b, sep) == Join(a, sep) + sep + Join(b, sep)
  {
    assert (a + b)[1..] == a[1..] + b;
    if |a| > 1 { JoinConcat(a[1..], b, sep); }
  }

  lemma ScanPiecesTail(parts: seq<string>, p: string)
    requires |parts| > 1 && ScanPieces(parts, p)
    ensures ScanPieces(parts[1..], p)
  {
    forall k, i: nat | 0 <= k < |parts[1..]| - 1 && i < |parts[1..][k]|
      ensures !OccursAt(parts[1..][k] + p, p, i)
    {
      assert parts[1..][k] == parts[k + 1];
    }
  }

  /** Dropping the first character of the first piece leaves scan pieces. */
  lemma ScanPiecesDrop(parts: seq<string>, p: string)
    requires ScanPieces(parts, p) && |parts[0]| > 0
    ensures ScanPieces([parts[0][1..]] + parts[1..], p)
  {
    var q := [parts[0][1..]] + parts[1..];
    var c := [parts[0][0]];
    assert parts[0] == c + parts[0][1..];
    if |parts| == 1 {
      if Contains(q[0], p) { ContainsShift(c, q[0], p); }
    } else {
      assert q[|q| - 1] == parts[|parts| - 1];
    }
    forall k, i: nat | 0 <= k < |q| - 1 && i < |q[k]|
      ensures !OccursAt(q[k] + p, p, i)
    {
      if k == 0 {
        assert parts[0] + p == c + (q[0] + p);
        OccursShift(c, q[0] + p, p, i);
      } else {
        assert q[k] == parts[k];
      }
    }
  }

  /** `Replace` is determined by the scan pieces: whatever they are, it puts exactly one
      replacement between each two neighbours and leaves the pieces alone. */
  lemma ReplaceHere(t: string, p: string, m: string)
    requires p != "" && p <= t
    ensures Replace(t, p, m) == m + Replace(t[|p|..], p, m)
  {
  }

  lemma ReplaceSkips(t: string, p: string, m: string)
    requires p != "" && t != "" && !OccursAt(t, p, 0)
    ensures Replace(t, p, m) == [t[0]] + Replace(t[1..], p, m)
  {
    OccursAtPrefix(t, p);
    assert t == [t[0]] + t[1..];
  }

  lemma NoMatchFirst(parts: seq<string>, p: string)
    requires |parts| > 1 && |parts[0]| > 0 && ScanPieces(parts, p)
    ensures |Join(parts, p)| >= |p| && !OccursAt(Join(parts, p), p, 0)
  {
    var s := Join(parts, p);
    assert s == (parts[0] + p) + Join(parts[1..], p);
    assert !OccursAt(parts[0] + p, p, 0);
    assert (parts[0] + p)[..|p|] == s[..|p|];
  }

  lemma JoinFirstChar(parts: seq<string>, sep: string)
    requires |parts| > 1 && |parts[0]| > 0
    ensures Join(parts, sep) == [parts[0][0]] + Join([parts[0][1..]] + parts[1..], sep)
  {
    JoinCons(parts[0][1..], parts[1..], sep);
    assert parts[0] == [parts[0][0]] + parts[0][1..];
  }

  lemma EmptyPieceFirst(parts: seq<string>, sep: string)
    requires |parts| > 1 && parts[0] == ""
    ensures Join(parts, sep) == sep + Join(parts[1..], sep)
  {
    assert parts[0] + sep == sep;
  }

  lemma {:induction false} ReplaceByPieces(parts: seq<string>, p: string, rep: string)
    requires p != "" && ScanPieces(parts, p)
    ensures Replace(Join(parts, p), p, rep) == Join(parts, rep)
    decreases |parts|, if |parts| > 0 then |parts[0]| else 0
  {
    if |parts| == 1 {
      ReplaceAbsent(parts[0], p, rep);
    } else if parts[0] == "" {
      var rest := parts[1..];
      EmptyPieceFirst(parts, p);
      EmptyPieceFirst(parts, rep);
      ScanPiecesTail(parts, p);
      hide ScanPieces, Join;
      ReplaceHere(Join(parts, p), p, rep);
      assert Join(parts, p)[|p|..] == Join(rest, p);
      ReplaceByPieces(rest, p, rep);
    } else {
      NoMatchFirst(parts, p);
      ScanPiecesDrop(parts, p);
      JoinFirstChar(parts, p);
      JoinFirstChar(parts, rep);
      hide *;
      ReplaceSkips(Join(parts, p), p, rep);
      assert Join(parts, p)[1..] == Join([parts[0][1..]] + parts[1..], p);
      ReplaceByPieces([parts[0][1..]] + parts[1..], p, rep);
    }
  }

  /** Every string has scan pieces, so `ReplaceByPieces` describes every call. */
  lemma {:induction false} PiecesExist(s: string, p: string) returns (parts: seq<string>)
    requires p != ""
    ensures ScanPieces(parts, p) && Join(parts, p) == s
    decreases |s|
  {
    if |s| < |p| {
      parts := [s];
    } else if p <= s {
      var tail := PiecesExist(s[|p|..], p);
      parts := [""] + tail;
      assert parts[1..] == tail;
      forall k, i: nat | 0 <= k < |parts| - 1 && i < |parts[k]|
        ensures !OccursAt(parts[k] + p, p, i)
      {
        assert parts[k] == tail[k - 1];
      }
    } else {
      var tail := PiecesExist(s[1..], p);
      var c := [s[0]];
      parts := [c + tail[0]] + tail[1..];
      assert parts[1..] == tail[1..];
      assert tail == [tail[0]] + tail[1..];
      assert s == c + s[1..];
      assert Join(parts, p) == c + Join(tail, p);
      OccursAtPrefix(s, p);
      if |tail| == 1 {
        assert parts[0] == s;
        if i: nat :| OccursAt(s, p, i) { OccursShift(c, s[1..], p, i - 1); }
      } else {
        assert s == (parts[0] + p) + Join(tail[1..], p);
        forall k, i: nat | 0 <= k < |parts| - 1 && i < |parts[k]|
          ensures !OccursAt(parts[k] + p, p, i)
        {
          if k > 0 {
            assert parts[k] == tail[k];
          } else if i == 0 {
            assert (parts[0] + p)[..|p|] == s[..|p|];
          } else {
            assert parts[0] + p == c + (tail[0] + p);
            OccursShift(c, tail[0] + p, p, i - 1);
          }
        }
      }
    }
  }

  // ----- trimming ----------------------------------------------------------

  /** The characters with the Unicode property White_Space. */
  predicate IsSpace(c: char) {
    '\U{9}' <= c <= '\U{D}' || c == ' ' || c == '\U{85}' || c == '\U{A0}' || c == '\U{1680}'
    || '\U{2000}' <= c <= '\U{200A}' || c == '\U{2028}' || c == '\U{2029}' || c == '\U{202F}'
    || c == '\U{205F}' || c == '\U{3000}'
  }

  function TrimStart(s: string): string {
    if s != "" && IsSpace(s[0]) then TrimStart(s[1..]) else s
  }

  function TrimEnd(s: string): string {
    if s != "" && IsSpace(s[|s| - 1]) then TrimEnd(s[..|s| - 1]) else s
  }

  /** `trim`. */
  function Trim(s: string): string { TrimEnd(TrimStart(s)) }

  predicate AllSpace(s: string) { forall c :: c in s ==> IsSpace(c) }

  predicate Trimmed(t: string) { t == "" || (!IsSpace(t[0]) && !IsSpace(t[|t| - 1])) }

  lemma {:induction false} TrimStartExact(lead: string, s: string)
    requires AllSpace(lead) && (s == "" || !IsSpace(s[0]))
    ensures TrimStart(lead + s) == s
  {
    if lead == "" {
      assert lead + s == s;
    } else {
      assert (lead + s)[1..] == lead[1..] + s;
      TrimStartExact(lead[1..], s);
    }
  }

  lemma {:induction false} TrimEndExact(s: string, trail: string)
    requires AllSpace(trail) && (s == "" || !IsSpace(s[|s| - 1]))
    ensures TrimEnd(s + trail) == s
  {
    if trail == "" {
      assert s + trail == s;
    } else {
      var t := s + trail;
      assert t[..|t| - 1] == s + trail[..|trail| - 1];
      TrimEndExact(s, trail[..|trail| - 1]);
    }
  }

  /** Blanks around a text without outer blanks are what `Trim` removes. */
  lemma TrimExact(lead: string, core: string, trail: string)
    requires AllSpace(lead) && AllSpace(trail) && Trimmed(core)
    ensures Trim(lead + core + trail) == core
  {
    if core == "" {
      assert lead + core + trail == (lead + trail) + "";
      TrimStartExact(lead + trail, "");
    } else {
      assert lead + core + trail == lead + (core + trail);
      TrimStartExact(lead, core + trail);
      TrimEndExact(core, trail);
    }
  }

  lemma {:induction false} TrimStartParts(s: string) returns (lead: string)
    ensures AllSpace(lead) && s == lead + TrimStart(s) && (TrimStart(s) == "" || !IsSpace(TrimStart(s)[0]))
    decreases |s|
  {
    if s != "" && IsSpace(s[0]) {
      var rest := TrimStartParts(s[1..]);
      lead := [s[0]] + rest;
    } else {
      lead := "";
    }
  }

  lemma {:induction false} TrimEndParts(s: string) returns (trail: string)
    ensures AllSpace(trail) && s == TrimEnd(s) + trail && (TrimEnd(s) == "" || !IsSpace(TrimEnd(s)[|TrimEnd(s)| - 1]))
    decreases |s|
  {
    if s != "" && IsSpace(s[|s| - 1]) {
      var rest := TrimEndParts(s[..|s| - 1]);
      trail := rest + [s[|s| - 1]];
    } else {
      trail := "";
    }
  }

  /** Every text is its trimmed form with blanks around it. */
  lemma TrimParts(s: string) returns (lead: string, trail: string)
    ensures AllSpace(lead) && AllSpace(trail) && Trimmed(Trim(s)) && s == lead + Trim(s) + trail
  {
    lead := TrimStartParts(s);
    trail := TrimEndParts(TrimStart(s));
    assert Trim(s) != "" ==> Trim(s)[0] == TrimStart(s)[0];
  }

  // ----- numbers -----------------------------------------------------------

  predicate IsDigit(c: char) { '0' <= c <= '9' }

  predicate Digits(s: string) { s != "" && forall i :: 0 <= i < |s| ==> IsDigit(s[i]) }

  function DigitValue(c: char): nat
    requires IsDigit(c)
  {
    c as int - '0' as int
  }

  function DigitsValue(s: string): nat
    requires forall i :: 0 <= i < |s| ==> IsDigit(s[i])
  {
    if s == "" then 0 else 10 * DigitsValue(s[..|s| - 1]) + DigitValue(s[|s| - 1])
  }

  function Digit(n: nat): char
    requires n < 10
  {
    '0' + n as char
  }

  function Decimal(n: nat): string {
    if n < 10 then [Digit(n)] else Decimal(n / 10) + [Digit(n % 10)]
  }

  lemma {:induction false} DecimalDigits(n: nat)
    ensures Decimal(n) != "" && (forall c :: c in Decimal(n) ==> IsDigit(c))
    ensures DigitsValue(Decimal(n)) == n
  {
    if n >= 10 {
      DecimalDigits(n / 10);
      var d := Decimal(n);
      assert d[..|d| - 1] == Decimal(n / 10);
    } else {
      assert Decimal(n)[..0] == "";
    }
  }

  // ----- splitting -----------------------------------------------------------

  /** `split(c)` with a character: always at least one part. */
  function Split(s: string, c: char): (parts: seq<string>)
    ensures |parts| > 0
  {
    if s == "" then [""]
    else if s[0] == c then [""] + Split(s[1..], c)
    else
      var tail := Split(s[1..], c);
      [[s[0]] + tail[0]] + tail[1..]
  }

  /** `split_once(c)`. */
  function SplitOnce(s: string, c: char): Option<(string, string)> {
    if s == "" then None
    else if s[0] == c then Some(("", s[1..]))
    else
      match SplitOnce(s[1..], c)
      case None => None
      case Some(pair) => Some(([s[0]] + pair.0, pair.1))
  }

  lemma {:induction false} SplitOnceShorter(s: string, c: char)
    ensures SplitOnce(s, c).Some? ==> |SplitOnce(s, c).value.1| < |s|
  {
    if s != "" { SplitOnceShorter(s[1..], c); }
  }

  lemma {:induction false} SplitOnceExact(a: string, c: char, b: string)
    requires c !in a
    ensures SplitOnce(a + [c] + b, c) == Some((a, b))
    ensures SplitOnce(a, c) == None
  {
    if a == "" {
      assert a + [c] + b == [c] + b;
    } else {
      SplitOnceExact(a[1..], c, b);
      assert a == [a[0]] + a[1..];
      assert (a + [c] + b)[1..] == a[1..] + [c] + b;
    }
  }

  lemma {:induction false} SplitPlain(a: string, c: char)
    requires c !in a
    ensures Split(a, c) == [a]
  {
    if a != "" {
      assert a == [a[0]] + a[1..];
      SplitPlain(a[1..], c);
    }
  }

  lemma {:induction false} SplitHead(a: string, c: char, b: string)
    requires c !in a
    ensures Split(a + [c] + b, c) == [a] + Split(b, c)
  {
    if a == "" {
      assert a + [c] + b == [c] + b;
    } else {
      SplitHead(a[1..], c, b);
      assert a == [a[0]] + a[1..];
      assert (a + [c] + b)[1..] == a[1..] + [c] + b;
    }
  }

  lemma {:induction false} SplitFirst(s: string, c: char)
    ensures Split(s, c)[0] <= s
  {
    if s != "" && s[0] != c { SplitFirst(s[1..], c); }
  }

  /** Splitting undoes joining. */
  lemma {:induction false} SplitJoin(parts: seq<string>, c: char)
    requires |parts| > 0 && forall i :: 0 <= i < |parts| ==> c !in parts[i]
    ensures Split(Join(parts, [c]), c) == parts
  {
    if |parts| == 1 {
      SplitPlain(parts[0], c);
    } else {
      SplitJoin(parts[1..], c);
      SplitHead(parts[0], c, Join(parts[1..], [c]));
    }
  }

  // ----- lists -------------------------------------------------------------

  function FirstIndex<T(==)>(xs: seq<T>, x: T): (i: nat)
    requires x in xs
    ensures i < |xs| && xs[i] == x && x !in xs[..i]
  {
    if xs[0] == x then 0
    else
      assert xs == [xs[0]] + xs[1..];
      assert x !in xs[1..][..FirstIndex(xs[1..], x)];
      1 + FirstIndex(xs[1..], x)
  }
}
