/** Backup retention: three rules each mark executions for deletion, and the union of the
    marks is deleted. Instants are nanoseconds since the epoch, sizes are bytes. */
module Retention {
  import opened Sorting
  import opened Text

  type u32 = x: int | 0 <= x < 0x1_0000_0000
  type i64 = x: int | -0x8000_0000_0000_0000 <= x < 0x8000_0000_0000_0000
  newtype u64 = x: int | 0 <= x < 0x1_0000_0000_0000_0000

  datatype Exec = Exec(id: i64, createdAt: int, size: i64)

  const BYTES_PER_GB: int := 1024 * 1024 * 1024
  const NANOS_PER_DAY: int := 86_400_000_000_000
  /** The earliest instant chrono represents, -262143-01-01T00:00:00Z. */
  const MIN_INSTANT: int := -8_334_601_228_800_000_000_000

  /** The order of the sort: newest first, ties by descending id. */
  predicate Newer(a: Exec, b: Exec) {
    a.createdAt > b.createdAt || (a.createdAt == b.createdAt && a.id > b.id)
  }

  ghost predicate UniqueIds(execs: seq<Exec>) {
    forall i, j :: 0 <= i < j < |execs| ==> execs[i].id != execs[j].id
  }

  function NewestFirst(execs: seq<Exec>): (r: seq<Exec>)
    ensures |r| == |execs|
  {
    NewerIsStrictOrder();
    SortSorts(execs, Newer);
    SameElements(Sort(execs, Newer), execs);
    Sort(execs, Newer)
  }

  function Min(a: int, b: int): int { if a < b then a else b }

  function Counted(e: Exec): nat { if e.size > 0 then e.size else 0 }

  /** Bytes of the executions 1 to `i`, the newest one not counted. */
  function Total(sorted: seq<Exec>, i: nat): nat
    requires i == 0 || i < |sorted|
  {
    if i == 0 then 0 else Total(sorted, i - 1) + Counted(sorted[i])
  }

  /** The first index from `i` on at which the running total exceeds the cap. */
  function Crossing(sorted: seq<Exec>, cap: int, i: nat): (c: nat)
    requires 1 <= i
    ensures i <= c <= |sorted| || c == i
    ensures forall k :: i <= k < c && k < |sorted| ==> Total(sorted, k) <= cap
    ensures c < |sorted| ==> Total(sorted, c) > cap
    decreases |sorted| - i
  {
    if i >= |sorted| || Total(sorted, i) > cap then i else Crossing(sorted, cap, i + 1)
  }

  function NotNewerThan(sorted: seq<Exec>, t: int): seq<Exec> {
    if |sorted| == 0 then []
    else (if sorted[0].createdAt <= t then [sorted[0]] else []) + NotNewerThan(sorted[1..], t)
  }

  lemma {:induction false} NotNewerThanMember(sorted: seq<Exec>, i: nat)
    requires i < |sorted|
    ensures |NotNewerThan(sorted, sorted[i].createdAt)| > 0
  {
    if i > 0 { NotNewerThanMember(sorted[1..], i - 1); }
  }

  function Ids(execs: seq<Exec>): set<int> {
    set e | e in execs :: e.id as int
  }

  function AmountMarks(sorted: seq<Exec>, amount: u32): set<int> {
    if 0 < amount < |sorted| then Ids(sorted[amount..]) else {}
  }

  function DayMarks(sorted: seq<Exec>, days: u32): set<int>
    requires |sorted| > 0
  {
    if days > 0
    then set e | e in sorted && e.createdAt < sorted[0].createdAt - days * NANOS_PER_DAY :: e.id as int
    else {}
  }

  function SizeMarks(sorted: seq<Exec>, maxGb: u32): set<int> {
    var c := Crossing(sorted, maxGb * BYTES_PER_GB, 1);
    if maxGb > 0 && c < |sorted| then
      var group := NotNewerThan(sorted, sorted[c].createdAt);
      if |group| > 0 then Ids(group[1..]) else {}
    else {}
  }

  function Marks(sorted: seq<Exec>, amount: u32, days: u32, maxGb: u32): set<int>
    requires |sorted| > 0
  {
    AmountMarks(sorted, amount) + DayMarks(sorted, days) + SizeMarks(sorted, maxGb)
  }

  function MarkedIds(execs: seq<Exec>, marked: set<int>, newest: int): seq<int> {
    if |execs| == 0 then []
    else (if execs[0].id != newest && execs[0].id in marked then [execs[0].id as int] else [])
         + MarkedIds(execs[1..], marked, newest)
  }

  function Select(execs: seq<Exec>, amount: u32, days: u32, maxGb: u32): seq<int> {
    if |execs| == 0 || (amount == 0 && days == 0 && maxGb == 0) then []
    else
      var sorted := NewestFirst(execs);
      MarkedIds(sorted, Marks(sorted, amount, days, maxGb), sorted[0].id)
  }

  /** Whether the subtraction of the days leaves the instants that chrono represents: it panics then. */
  predicate Panics(execs: seq<Exec>, days: u32) {
    days > 0 && |execs| > 0 && NewestFirst(execs)[0].createdAt - days * NANOS_PER_DAY < MIN_INSTANT
  }

  /** The selection as it is called: None for a panic. */
  function Selected(execs: seq<Exec>, amount: u32, days: u32, maxGb: u32): Option<seq<int>> {
    if Panics(execs, days) then None else Some(Select(execs, amount, days, maxGb))
  }

  // ----- the sorted executions --------------------------------------------------

  lemma NewerIsStrictOrder()
    ensures StrictOrder(Newer)
  {
  }

  lemma {:induction false} InsertUnique(x: Exec, xs: seq<Exec>)
    requires UniqueIds(xs) && forall e :: e in xs ==> e.id != x.id
    ensures UniqueIds(Insert(x, xs, Newer))
    ensures forall e :: e in Insert(x, xs, Newer) <==> e == x || e in xs
  {
    if |xs| > 0 && Newer(xs[0], x) {
      assert xs == [xs[0]] + xs[1..];
      InsertUnique(x, xs[1..]);
      var r := Insert(x, xs[1..], Newer);
      forall j | 0 <= j < |r| ensures r[j].id != xs[0].id { assert r[j] in r; }
    }
  }

  lemma {:induction false} SortUnique(xs: seq<Exec>)
    requires UniqueIds(xs)
    ensures UniqueIds(Sort(xs, Newer)) && forall e :: e in Sort(xs, Newer) <==> e in xs
  {
    if |xs| > 0 {
      assert xs == [xs[0]] + xs[1..];
      SortUnique(xs[1..]);
      InsertUnique(xs[0], Sort(xs[1..], Newer));
    }
  }

  lemma NewestFirstExact(execs: seq<Exec>)
    requires UniqueIds(execs)
    ensures StrictlyAscending(NewestFirst(execs), Newer) && UniqueIds(NewestFirst(execs))
    ensures forall e :: e in NewestFirst(execs) <==> e in execs
  {
    NewerIsStrictOrder();
    SortSorts(execs, Newer);
    SortUnique(execs);
  }

  // ----- the day cutoff ---------------------------------------------------------------

  /** The selection panics exactly if the days reach back before the first instant from every
      execution there is. */
  lemma PanicsIff(execs: seq<Exec>, amount: u32, days: u32, maxGb: u32)
    ensures Selected(execs, amount, days, maxGb).None? <==>
              days > 0 && |execs| > 0 && forall e :: e in execs ==> e.createdAt + 8_334_601_228_800_000_000_000 < days * 86_400_000_000_000
  {
    if |execs| > 0 {
      var sorted := NewestFirst(execs);
      NewerIsStrictOrder();
      SortSorts(execs, Newer);
      SameElements(sorted, execs);
      assert sorted[0] in execs;
      forall e | e in execs ensures e.createdAt <= sorted[0].createdAt {
        var k :| 0 <= k < |sorted| && sorted[k] == e;
        assert k > 0 ==> !Newer(sorted[k], sorted[0]);
      }
    }
  }

  /** For executions since 1970, no number of days up to this one panics. */
  lemma DaysThatNeverPanic(execs: seq<Exec>, amount: u32, days: u32, maxGb: u32)
    requires days <= 96_465_292 && forall e :: e in execs ==> e.createdAt >= 0
    ensures Selected(execs, amount, days, maxGb) == Some(Select(execs, amount, days, maxGb))
  {
    PanicsIff(execs, amount, days, maxGb);
    if |execs| > 0 { assert execs[0] in execs; }
  }

  // ----- each rule marks a suffix -------------------------------------------------

  /** The first index whose execution is not newer than `t`. */
  function FirstNotNewer(sorted: seq<Exec>, t: int): (g: nat)
    ensures g <= |sorted|
    ensures forall k :: 0 <= k < g ==> sorted[k].createdAt > t
    ensures g < |sorted| ==> sorted[g].createdAt <= t
  {
    if |sorted| == 0 || sorted[0].createdAt <= t then 0 else 1 + FirstNotNewer(sorted[1..], t)
  }

  function AmountCut(sorted: seq<Exec>, amount: u32): nat {
    if amount > 0 then Min(amount, |sorted|) else |sorted|
  }

  function DayCut(sorted: seq<Exec>, days: u32): nat
    requires |sorted| > 0
  {
    if days > 0 then FirstNotNewer(sorted, sorted[0].createdAt - days * NANOS_PER_DAY - 1) else |sorted|
  }

  /** One past the start of the tie group of the execution at which the total crosses the cap. */
  function SizeCut(sorted: seq<Exec>, maxGb: u32): nat {
    var c := Crossing(sorted, maxGb * BYTES_PER_GB, 1);
    if maxGb > 0 && c < |sorted| then FirstNotNewer(sorted, sorted[c].createdAt) + 1 else |sorted|
  }

  function Cut(sorted: seq<Exec>, amount: u32, days: u32, maxGb: u32): nat
    requires |sorted| > 0
  {
    Min(AmountCut(sorted, amount), Min(DayCut(sorted, days), SizeCut(sorted, maxGb)))
  }

  lemma {:induction false} NotNewerIsSuffix(sorted: seq<Exec>, t: int)
    requires StrictlyAscending(sorted, Newer)
    ensures NotNewerThan(sorted, t) == sorted[FirstNotNewer(sorted, t)..]
  {
    if |sorted| > 0 {
      NotNewerIsSuffix(sorted[1..], t);
      assert sorted == [sorted[0]] + sorted[1..];
      assert |sorted| > 1 ==> Newer(sorted[0], sorted[1]);
    }
  }

  lemma SuffixIds(sorted: seq<Exec>, cut: nat, i: nat)
    requires UniqueIds(sorted) && cut <= |sorted| && i < |sorted|
    ensures sorted[i].id as int in Ids(sorted[cut..]) <==> i >= cut
  {
    if i >= cut {
      assert sorted[i] == sorted[cut..][i - cut];
    } else {
      forall e | e in sorted[cut..] ensures e.id != sorted[i].id {
        var k :| 0 <= k < |sorted[cut..]| && sorted[cut..][k] == e;
        assert sorted[cut + k] == e;
      }
    }
  }

  lemma CutBounds(sorted: seq<Exec>, amount: u32, days: u32, maxGb: u32)
    requires |sorted| > 0
    ensures 1 <= Cut(sorted, amount, days, maxGb) <= |sorted|
  {
  }

  lemma AmountMarksFromCut(sorted: seq<Exec>, amount: u32, i: nat)
    requires UniqueIds(sorted) && i < |sorted|
    ensures sorted[i].id as int in AmountMarks(sorted, amount) <==> i >= AmountCut(sorted, amount)
  {
    if 0 < amount < |sorted| { SuffixIds(sorted, amount, i); }
  }

  lemma DayMarksFromCut(sorted: seq<Exec>, days: u32, i: nat)
    requires StrictlyAscending(sorted, Newer) && UniqueIds(sorted) && i < |sorted|
    ensures sorted[i].id as int in DayMarks(sorted, days) <==> i >= DayCut(sorted, days)
  {
    if days > 0 {
      var t := sorted[0].createdAt - days * NANOS_PER_DAY - 1;
      var g := FirstNotNewer(sorted, t);
      assert g < i ==> Newer(sorted[g], sorted[i]);
      assert sorted[i].createdAt <= t <==> i >= g;
      forall e | e in sorted && e.id == sorted[i].id ensures e == sorted[i] {
        var k :| 0 <= k < |sorted| && sorted[k] == e;
      }
    }
  }

  lemma SizeMarksFromCut(sorted: seq<Exec>, maxGb: u32, i: nat)
    requires StrictlyAscending(sorted, Newer) && UniqueIds(sorted) && i < |sorted|
    ensures sorted[i].id as int in SizeMarks(sorted, maxGb) <==> i >= SizeCut(sorted, maxGb)
  {
    var c := Crossing(sorted, maxGb * BYTES_PER_GB, 1);
    if maxGb > 0 && c < |sorted| {
      var g := FirstNotNewer(sorted, sorted[c].createdAt);
      NotNewerIsSuffix(sorted, sorted[c].createdAt);
      assert sorted[g..][1..] == sorted[g + 1..];
      SuffixIds(sorted, g + 1, i);
    }
  }

  lemma MarkedFromCut(sorted: seq<Exec>, amount: u32, days: u32, maxGb: u32, i: nat)
    requires StrictlyAscending(sorted, Newer) && UniqueIds(sorted) && i < |sorted|
    ensures sorted[i].id as int in Marks(sorted, amount, days, maxGb) <==> i >= Cut(sorted, amount, days, maxGb)
  {
    AmountMarksFromCut(sorted, amount, i);
    DayMarksFromCut(sorted, days, i);
    SizeMarksFromCut(sorted, maxGb, i);
  }

  lemma {:induction false} MarkedSuffix(execs: seq<Exec>, marked: set<int>, newest: int, cut: nat)
    requires cut <= |execs|
    requires forall i :: 0 <= i < |execs| ==> (execs[i].id != newest && execs[i].id as int in marked <==> i >= cut)
    ensures MarkedIds(execs, marked, newest) == seq(|execs| - cut, i requires 0 <= i < |execs| - cut => execs[cut + i].id as int)
  {
    if |execs| > 0 {
      MarkedSuffix(execs[1..], marked, newest, if cut > 0 then cut - 1 else 0);
    }
  }

  function Suffix(sorted: seq<Exec>, cut: nat): seq<int>
    requires cut <= |sorted|
  {
    seq(|sorted| - cut, i requires 0 <= i < |sorted| - cut => sorted[cut + i].id as int)
  }

  /** What is deleted is a suffix of the newest-first order that starts at the smallest
      cut of the active rules and leaves at least the newest. */
  lemma DeletesSuffix(execs: seq<Exec>, amount: u32, days: u32, maxGb: u32)
    requires UniqueIds(execs) && |execs| > 0
    ensures var sorted := NewestFirst(execs);
            var cut := Cut(sorted, amount, days, maxGb);
            1 <= cut <= |sorted| && Select(execs, amount, days, maxGb) == Suffix(sorted, cut)
  {
    var sorted := NewestFirst(execs);
    NewestFirstExact(execs);
    CutBounds(sorted, amount, days, maxGb);
    forall i: nat | i < |sorted|
      ensures sorted[i].id as int in Marks(sorted, amount, days, maxGb) <==> i >= Cut(sorted, amount, days, maxGb)
    { MarkedFromCut(sorted, amount, days, maxGb, i); }
    MarkedSuffix(sorted, Marks(sorted, amount, days, maxGb), sorted[0].id, Cut(sorted, amount, days, maxGb));
  }

  /** The rules never mark the newest execution; the filter that protects it is redundant. */
  lemma NewestNeverMarked(execs: seq<Exec>, amount: u32, days: u32, maxGb: u32)
    requires UniqueIds(execs) && |execs| > 0
    ensures NewestFirst(execs)[0].id as int !in Marks(NewestFirst(execs), amount, days, maxGb)
    ensures NewestFirst(execs)[0].id as int !in Select(execs, amount, days, maxGb)
  {
    var sorted := NewestFirst(execs);
    NewestFirstExact(execs);
    CutBounds(sorted, amount, days, maxGb);
    MarkedFromCut(sorted, amount, days, maxGb, 0);
    DeletesSuffix(execs, amount, days, maxGb);
  }

  lemma OrderIrrelevant(execs: seq<Exec>, others: seq<Exec>, amount: u32, days: u32, maxGb: u32)
    requires UniqueIds(execs) && UniqueIds(others) && forall e :: e in execs <==> e in others
    ensures Select(execs, amount, days, maxGb) == Select(others, amount, days, maxGb)
  {
    NewestFirstExact(execs);
    NewestFirstExact(others);
    NewerIsStrictOrder();
    StrictlyAscendingUnique(NewestFirst(execs), NewestFirst(others), Newer);
    assert |execs| == |others|;
  }

  // ----- the size rule and repetition ------------------------------------------------

  lemma {:induction false} TotalMonotone(sorted: seq<Exec>, i: nat, j: nat)
    requires i <= j < |sorted|
    ensures Total(sorted, i) <= Total(sorted, j)
    decreases j - i
  {
    if i < j { TotalMonotone(sorted, i, j - 1); }
  }

  /** Bytes of the executions, a negative size counting as none. */
  function Bytes(execs: seq<Exec>): int {
    if |execs| == 0 then 0 else (if execs[0].size < 0 then 0 else execs[0].size) + Bytes(execs[1..])
  }

  /** Bytes of the executions 1 to `i`. */
  function BytesAfterNewest(sorted: seq<Exec>, i: nat): int
    requires i < |sorted|
  {
    Bytes(sorted[1..i + 1])
  }

  lemma {:induction false} BytesSnoc(execs: seq<Exec>, e: Exec)
    ensures Bytes(execs + [e]) == Bytes(execs) + (if e.size < 0 then 0 else e.size)
  {
    if |execs| == 0 {
      assert execs + [e] == [e] && [e][1..] == [];
    } else {
      assert (execs + [e])[1..] == execs[1..] + [e];
      BytesSnoc(execs[1..], e);
    }
  }

  lemma {:induction false} TotalIsBytes(sorted: seq<Exec>, i: nat)
    requires i < |sorted|
    ensures Total(sorted, i) == BytesAfterNewest(sorted, i)
  {
    if i == 0 {
      assert sorted[1..1] == [];
    } else {
      TotalIsBytes(sorted, i - 1);
      assert sorted[1..i + 1] == sorted[1..i] + [sorted[i]];
      BytesSnoc(sorted[1..i], sorted[i]);
    }
  }

  /** The executions after the newest up to `c` exceed the cap, and those before `c` do not. */
  predicate Crosses(sorted: seq<Exec>, cap: int, c: nat) {
    && 1 <= c < |sorted| && BytesAfterNewest(sorted, c) > cap
    && forall k :: 1 <= k < c ==> BytesAfterNewest(sorted, k) <= cap
  }

  /** A rule wants the execution at `i` deleted: it is beyond the newest `amount`, or more than
      so many days older than the newest, or, from the execution at which the bytes cross the
      cap on and those with its timestamp, not the first of them. */
  ghost predicate Unwanted(sorted: seq<Exec>, amount: u32, days: u32, maxGb: u32, i: nat)
    requires i < |sorted|
  {
    || (amount > 0 && i >= amount)
    || (days > 0 && sorted[0].createdAt - sorted[i].createdAt > days * 86_400_000_000_000)
    || (maxGb > 0 && exists c: nat, j: nat :: Crosses(sorted, maxGb * 1_073_741_824, c) && j < i
                       && sorted[j].createdAt <= sorted[c].createdAt)
  }

  lemma CrossesAt(sorted: seq<Exec>, cap: int, c: nat)
    requires cap >= 0
    ensures Crosses(sorted, cap, c) <==> c < |sorted| && c == Crossing(sorted, cap, 1)
  {
    forall k: nat | k < |sorted| ensures Total(sorted, k) == BytesAfterNewest(sorted, k) { TotalIsBytes(sorted, k); }
    var x := Crossing(sorted, cap, 1);
    assert x < |sorted| ==> BytesAfterNewest(sorted, x) > cap;
    if Crosses(sorted, cap, c) {
      assert Total(sorted, c) > cap;
    }
    if c < |sorted| && c == x {
      forall k | 1 <= k < c ensures BytesAfterNewest(sorted, k) <= cap { assert Total(sorted, k) <= cap; }
    }
  }

  lemma UnwantedFromCut(sorted: seq<Exec>, amount: u32, days: u32, maxGb: u32, i: nat)
    requires StrictlyAscending(sorted, Newer) && UniqueIds(sorted) && i < |sorted|
    ensures Unwanted(sorted, amount, days, maxGb, i) <==> i >= Cut(sorted, amount, days, maxGb)
  {
    if days > 0 {
      var g := FirstNotNewer(sorted, sorted[0].createdAt - days * NANOS_PER_DAY - 1);
      assert g < i ==> Newer(sorted[g], sorted[i]);
    }
    UnwantedBySize(sorted, maxGb, i);
  }

  lemma UnwantedBySize(sorted: seq<Exec>, maxGb: u32, i: nat)
    requires i < |sorted|
    ensures maxGb > 0 && (exists c: nat, j: nat :: Crosses(sorted, maxGb * 1_073_741_824, c) && j < i
                            && sorted[j].createdAt <= sorted[c].createdAt)
            <==> i >= SizeCut(sorted, maxGb)
  {
    var cap := maxGb * 1_073_741_824;
    var x := Crossing(sorted, cap, 1);
    CrossesAt(sorted, cap, x);
    if maxGb > 0 && x < |sorted| {
      var g := FirstNotNewer(sorted, sorted[x].createdAt);
      if i > g { assert Crosses(sorted, cap, x) && sorted[g].createdAt <= sorted[x].createdAt; }
    }
    forall c: nat, j: nat | maxGb > 0 && Crosses(sorted, cap, c) && j < i && sorted[j].createdAt <= sorted[c].createdAt
      ensures i >= SizeCut(sorted, maxGb)
    { CrossesAt(sorted, cap, c); }
  }

  /** What is deleted, in newest-first order, are exactly the executions that some rule does not want. */
  lemma DeletesUnwanted(execs: seq<Exec>, amount: u32, days: u32, maxGb: u32, i: nat)
    requires UniqueIds(execs) && i < |execs|
    ensures var sorted := NewestFirst(execs);
            sorted[i].id as int in Select(execs, amount, days, maxGb) <==> Unwanted(sorted, amount, days, maxGb, i)
  {
    hide NewestFirst, Select, Cut, Unwanted, Suffix;
    var sorted := NewestFirst(execs);
    NewestFirstExact(execs);
    DeletesSuffix(execs, amount, days, maxGb);
    UnwantedFromCut(sorted, amount, days, maxGb, i);
    InSuffix(sorted, Cut(sorted, amount, days, maxGb), i);
  }

  lemma InSuffix(sorted: seq<Exec>, cut: nat, i: nat)
    requires UniqueIds(sorted) && cut <= |sorted| && i < |sorted|
    ensures sorted[i].id as int in Suffix(sorted, cut) <==> i >= cut
  {
    var deleted := Suffix(sorted, cut);
    forall k | 0 <= k < |deleted| ensures deleted[k] == sorted[cut + k].id as int {}
    if i >= cut { assert deleted[i - cut] == sorted[i].id as int; }
  }

  /** Under the size rule what is kept, apart from the newest and the last one kept, fits the cap. */
  lemma KeptFitsCap(execs: seq<Exec>, amount: u32, days: u32, maxGb: u32)
    requires UniqueIds(execs) && |execs| > 0 && maxGb > 0
    ensures var sorted := NewestFirst(execs);
            var cut := Cut(sorted, amount, days, maxGb);
            1 <= cut <= |sorted| && (cut >= 2 ==> BytesAfterNewest(sorted, cut - 2) <= maxGb * 1_073_741_824)
  {
    var sorted := NewestFirst(execs);
    var cut := Cut(sorted, amount, days, maxGb);
    CutBounds(sorted, amount, days, maxGb);
    var c := Crossing(sorted, maxGb * BYTES_PER_GB, 1);
    if cut >= 2 && c < |sorted| {
      assert FirstNotNewer(sorted, sorted[c].createdAt) <= c;
      TotalMonotone(sorted, cut - 2, c - 1);
      if c == 1 { assert cut == 2; }
    }
    if cut >= 2 { TotalIsBytes(sorted, cut - 2); }
  }

  /** The execution at which the total crosses the cap is kept by the size rule if and only if
      no newer one shares its timestamp. */
  lemma CrossingKeptIff(sorted: seq<Exec>, maxGb: u32)
    requires StrictlyAscending(sorted, Newer) && UniqueIds(sorted) && maxGb > 0
    ensures var c := Crossing(sorted, maxGb * BYTES_PER_GB, 1);
            1 <= c < |sorted| ==>
              (sorted[c].id as int !in SizeMarks(sorted, maxGb)
               <==> forall i :: 0 <= i < c ==> sorted[i].createdAt != sorted[c].createdAt)
  {
    var c := Crossing(sorted, maxGb * BYTES_PER_GB, 1);
    if 1 <= c < |sorted| {
      SizeMarksFromCut(sorted, maxGb, c);
      var g := FirstNotNewer(sorted, sorted[c].createdAt);
      assert g <= c;
      if g < c { assert Newer(sorted[g], sorted[c]); }
    }
  }

  /** Of three executions the last two are tied, and the size rule deletes the crossing one. */
  lemma TiedCrossingIsDeleted() returns (execs: seq<Exec>)
    ensures |execs| == 3 && UniqueIds(execs) && StrictlyAscending(execs, Newer)
    ensures Crossing(execs, BYTES_PER_GB, 1) == 2 && Select(execs, 0, 0, 1) == [execs[2].id as int]
  {
    execs := [Exec(3, 1, 0), Exec(2, 0, BYTES_PER_GB), Exec(1, 0, 1)];
    NewestFirstExact(execs);
    NewerIsStrictOrder();
    StrictlyAscendingUnique(NewestFirst(execs), execs, Newer);
    assert Total(execs, 0) == 0 && Total(execs, 1) == BYTES_PER_GB && Total(execs, 2) == BYTES_PER_GB + 1;
    DeletesSuffix(execs, 0, 0, 1);
    assert FirstNotNewer(execs, 0) == 1;
    assert Suffix(execs, 2) == [execs[2].id as int];
  }

  function Survivors(execs: seq<Exec>, deleted: seq<int>): seq<Exec> {
    if |execs| == 0 then []
    else (if execs[0].id as int in deleted then [] else [execs[0]]) + Survivors(execs[1..], deleted)
  }

  lemma {:induction false} SurvivorsExact(execs: seq<Exec>, deleted: seq<int>)
    requires UniqueIds(execs)
    ensures UniqueIds(Survivors(execs, deleted))
    ensures forall e :: e in Survivors(execs, deleted) <==> e in execs && e.id as int !in deleted
  {
    if |execs| > 0 {
      assert execs == [execs[0]] + execs[1..];
      SurvivorsExact(execs[1..], deleted);
      var r := Survivors(execs[1..], deleted);
      forall j | 0 <= j < |r| ensures r[j].id != execs[0].id { assert r[j] in r; }
    }
  }

  lemma PrefixOutsideSuffix(sorted: seq<Exec>, cut: nat, e: Exec)
    requires UniqueIds(sorted) && cut <= |sorted|
    ensures e in sorted[..cut] <==> e in sorted && e.id as int !in Suffix(sorted, cut)
  {
    var deleted := Suffix(sorted, cut);
    forall k | 0 <= k < |deleted| ensures deleted[k] == sorted[cut + k].id as int {}
    if e in sorted {
      var i :| 0 <= i < |sorted| && sorted[i] == e;
      if i >= cut {
        assert deleted[i - cut] == e.id as int;
      } else {
        assert sorted[..cut][i] == e;
      }
    }
  }

  lemma SurvivorsArePrefix(execs: seq<Exec>, amount: u32, days: u32, maxGb: u32)
    requires UniqueIds(execs) && |execs| > 0
    ensures var sorted := NewestFirst(execs);
            var cut := Cut(sorted, amount, days, maxGb);
            1 <= cut <= |sorted|
            && NewestFirst(Survivors(execs, Select(execs, amount, days, maxGb))) == sorted[..cut]
  {
    hide Survivors, NewestFirst;
    var sorted := NewestFirst(execs);
    var cut := Cut(sorted, amount, days, maxGb);
    var deleted := Select(execs, amount, days, maxGb);
    NewestFirstExact(execs);
    DeletesSuffix(execs, amount, days, maxGb);
    SurvivorsExact(execs, deleted);
    var kept := NewestFirst(Survivors(execs, deleted));
    NewestFirstExact(Survivors(execs, deleted));
    forall e ensures e in kept <==> e in sorted[..cut] { PrefixOutsideSuffix(sorted, cut, e); }
    NewerIsStrictOrder();
    StrictlyAscendingUnique(kept, sorted[..cut], Newer);
  }

  lemma {:induction false} TotalPrefix(sorted: seq<Exec>, n: nat, i: nat)
    requires i < n <= |sorted|
    ensures Total(sorted[..n], i) == Total(sorted, i)
  {
    if i > 0 { TotalPrefix(sorted, n, i - 1); }
  }

  /** The cut of what a cut has kept is all of it. */
  lemma CutAgain(sorted: seq<Exec>, amount: u32, days: u32, maxGb: u32)
    requires |sorted| > 0 && 1 <= Cut(sorted, amount, days, maxGb) <= |sorted|
    ensures var n := Cut(sorted, amount, days, maxGb); Cut(sorted[..n], amount, days, maxGb) == n
  {
    var n := Cut(sorted, amount, days, maxGb);
    var kept := sorted[..n];
    assert DayCut(kept, days) == n;
    var cap := maxGb * BYTES_PER_GB;
    var c, d := Crossing(sorted, cap, 1), Crossing(kept, cap, 1);
    if maxGb > 0 && d < n {
      TotalPrefix(sorted, n, d);
      assert c <= d;
      TotalPrefix(sorted, n, c);
      assert c == d;
      assert FirstNotNewer(kept, kept[d].createdAt) == d;
    }
  }

  /** Applying the same settings to the survivors deletes nothing more. */
  lemma SelectingAgainDeletesNothing(execs: seq<Exec>, amount: u32, days: u32, maxGb: u32)
    requires UniqueIds(execs)
    ensures Select(Survivors(execs, Select(execs, amount, days, maxGb)), amount, days, maxGb) == []
  {
    if |execs| > 0 {
      hide Survivors, NewestFirst;
      var deleted := Select(execs, amount, days, maxGb);
      var survivors := Survivors(execs, deleted);
      SurvivorsArePrefix(execs, amount, days, maxGb);
      SurvivorsExact(execs, deleted);
      hide Select, Cut;
      CutAgain(NewestFirst(execs), amount, days, maxGb);
      DeletesSuffix(survivors, amount, days, maxGb);
    }
  }

  // ----- the code ----------------------------------------------------------------------

  method MarkBeyondAmount(sorted: seq<Exec>, amount: u32, before: set<int>) returns (marked: set<int>)
    ensures marked == before + AmountMarks(sorted, amount)
  {
    marked := before;
    if amount > 0 {
      var skip := Min(amount, |sorted|);
      for i := skip to |sorted|
        invariant marked == before + Ids(sorted[skip..i])
      {
        assert sorted[skip..i + 1] == sorted[skip..i] + [sorted[i]];
        marked := marked + {sorted[i].id as int};
      }
      assert sorted[skip..|sorted|] == sorted[skip..];
    }
  }

  /** None is a panic of the subtraction. */
  method MarkOlderThanDays(sorted: seq<Exec>, days: u32, before: set<int>) returns (marked: Option<set<int>>)
    requires |sorted| > 0
    ensures marked == if days > 0 && sorted[0].createdAt - days * NANOS_PER_DAY < MIN_INSTANT then None
                      else Some(before + DayMarks(sorted, days))
  {
    if days == 0 {
      assert before + DayMarks(sorted, days) == before;
      return Some(before);
    }
    var cutoff := sorted[0].createdAt - days * NANOS_PER_DAY;
    if cutoff < MIN_INSTANT { return None; }
    var all := before;
    for i := 0 to |sorted|
      invariant all == before + (set e | e in sorted[..i] && e.createdAt < cutoff :: e.id as int)
    {
      assert sorted[..i + 1] == sorted[..i] + [sorted[i]];
      if sorted[i].createdAt < cutoff { all := all + {sorted[i].id as int}; }
    }
    assert sorted[..|sorted|] == sorted;
    marked := Some(all);
  }

  /** The running total is a `u64`; that no addition overflows is part of what is verified. */
  method MarkPastSize(sorted: seq<Exec>, maxGb: u32, before: set<int>) returns (marked: set<int>)
    ensures marked == before + SizeMarks(sorted, maxGb)
  {
    marked := before;
    if maxGb > 0 && |sorted| > 0 {
      var maxBytes: u64 := maxGb as u64 * BYTES_PER_GB as u64;
      var total: u64 := 0;
      for i := 1 to |sorted|
        invariant total as int == Total(sorted, i - 1) <= maxBytes as int
        invariant Crossing(sorted, maxBytes as int, 1) == Crossing(sorted, maxBytes as int, i)
        invariant marked == before
      {
        total := total + Counted(sorted[i]) as u64;
        if total > maxBytes {
          var group := NotNewerThan(sorted, sorted[i].createdAt);
          NotNewerThanMember(sorted, i);
          for k := 1 to |group|
            invariant marked == before + Ids(group[1..k])
          {
            assert group[1..k + 1] == group[1..k] + [group[k]];
            marked := marked + {group[k].id as int};
          }
          assert group[1..|group|] == group[1..];
          break;
        }
      }
    }
  }

  method CollectMarked(sorted: seq<Exec>, marked: set<int>, newest: int) returns (ids: seq<int>)
    ensures ids == MarkedIds(sorted, marked, newest)
  {
    ids := [];
    for i := 0 to |sorted|
      invariant ids + MarkedIds(sorted[i..], marked, newest) == MarkedIds(sorted, marked, newest)
    {
      var e := sorted[i];
      assert sorted[i..] == [e] + sorted[i + 1..];
      if e.id != newest && e.id as int in marked { ids := ids + [e.id as int]; }
    }
  }

  method SelectForDeletion(execs: seq<Exec>, amount: u32, days: u32, maxGb: u32) returns (deleted: Option<seq<int>>)
    ensures deleted == Selected(execs, amount, days, maxGb)
  {
    if |execs| == 0 || (amount == 0 && days == 0 && maxGb == 0) {
      return Some([]);
    }
    var sorted := NewestFirst(execs);
    var marked := MarkBeyondAmount(sorted, amount, {});
    var older := MarkOlderThanDays(sorted, days, marked);
    if older.None? { return None; }
    marked := MarkPastSize(sorted, maxGb, older.value);
    assert marked == Marks(sorted, amount, days, maxGb);
    var ids := CollectMarked(sorted, marked, sorted[0].id);
    deleted := Some(ids);
  }
}
