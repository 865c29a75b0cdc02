/** Sorting of a vector by a comparison, and orders that determine the sorted vector. */
module Sorting {

  /** What a sort needs of a comparison: a strict order whose ties are an equivalence. */
  ghost predicate StrictOrder<T(!new)>(lt: (T, T) -> bool) {
    (forall x :: !lt(x, x))
    && (forall x, y, z :: lt(x, y) && lt(y, z) ==> lt(x, z))
    && (forall x, y, z :: lt(x, y) ==> lt(x, z) || lt(z, y))
  }

  ghost predicate Ascending<T>(xs: seq<T>, lt: (T, T) -> bool) {
    forall i, j :: 0 <= i < j < |xs| ==> !lt(xs[j], xs[i])
  }

  ghost predicate StrictlyAscending<T>(xs: seq<T>, lt: (T, T) -> bool) {
    forall i, j :: 0 <= i < j < |xs| ==> lt(xs[i], xs[j])
  }

  /** Before the elements that are not less: ties keep their order. */
  function Insert<T>(x: T, xs: seq<T>, lt: (T, T) -> bool): seq<T> {
    if |xs| == 0 || !lt(xs[0], x) then [x] + xs else [xs[0]] + Insert(x, xs[1..], lt)
  }

  function Sort<T>(xs: seq<T>, lt: (T, T) -> bool): seq<T> {
    if |xs| == 0 then [] else Insert(xs[0], Sort(xs[1..], lt), lt)
  }

  lemma {:induction false} InsertKeeps<T(!new)>(x: T, xs: seq<T>, lt: (T, T) -> bool)
    requires StrictOrder(lt) && Ascending(xs, lt)
    ensures multiset(Insert(x, xs, lt)) == multiset(xs) + multiset{x}
    ensures Ascending(Insert(x, xs, lt), lt)
  {
    if |xs| > 0 && lt(xs[0], x) {
      InsertKeeps(x, xs[1..], lt);
      var r := Insert(x, xs[1..], lt);
      assert xs == [xs[0]] + xs[1..];
      forall j | 0 <= j < |r| ensures !lt(r[j], xs[0]) {
        assert r[j] in multiset(r);
        assert r[j] == x || r[j] in xs[1..];
      }
    }
  }

  lemma {:induction false} SortSorts<T(!new)>(xs: seq<T>, lt: (T, T) -> bool)
    requires StrictOrder(lt)
    ensures multiset(Sort(xs, lt)) == multiset(xs)
    ensures Ascending(Sort(xs, lt), lt)
  {
    if |xs| > 0 {
      SortSorts(xs[1..], lt);
      InsertKeeps(xs[0], Sort(xs[1..], lt), lt);
      assert xs == [xs[0]] + xs[1..];
    }
  }

  lemma SameElements<T>(xs: seq<T>, ys: seq<T>)
    requires multiset(xs) == multiset(ys)
    ensures |xs| == |ys|
    ensures forall x :: x in xs <==> x in ys
  {
    assert |multiset(xs)| == |multiset(ys)|;
    assert forall x :: x in xs <==> x in multiset(xs);
    assert forall x :: x in ys <==> x in multiset(ys);
  }

  lemma HeadNotInTail<T(!new)>(xs: seq<T>, lt: (T, T) -> bool)
    requires StrictOrder(lt) && StrictlyAscending(xs, lt)
    ensures |xs| > 0 ==> xs[0] in xs && forall x :: x in xs[1..] <==> x in xs && x != xs[0]
  {
    if |xs| > 0 {
      assert xs == [xs[0]] + xs[1..];
    }
  }

  /** A strictly ascending sequence is determined by the set of its elements. */
  lemma {:induction false} StrictlyAscendingUnique<T(!new)>(xs: seq<T>, ys: seq<T>, lt: (T, T) -> bool)
    requires StrictOrder(lt) && StrictlyAscending(xs, lt) && StrictlyAscending(ys, lt)
    requires forall x :: x in xs <==> x in ys
    ensures xs == ys
  {
    if |xs| == 0 {
      HeadNotInTail(ys, lt);
    } else {
      HeadNotInTail(xs, lt);
      HeadNotInTail(ys, lt);
      assert xs[0] == ys[0];
      forall x ensures x in xs[1..] <==> x in ys[1..] {
        assert x in xs <==> x in ys;
      }
      StrictlyAscendingUnique(xs[1..], ys[1..], lt);
      assert xs == [xs[0]] + xs[1..] && ys == [ys[0]] + ys[1..];
    }
  }
}
