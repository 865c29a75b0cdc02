/** The lexicographic order of strings, and ordered maps as ascending association lists. */
module Ordering {
  predicate LexLess(a: string, b: string) {
    if b == "" then false
    else if a == "" then true
    else if a[0] != b[0] then a[0] < b[0]
    else LexLess(a[1..], b[1..])
  }

  lemma {:induction false} LexTrichotomy(a: string, b: string)
    ensures !LexLess(a, a)
    ensures LexLess(a, b) || a == b || LexLess(b, a)
  {
    if a != "" {
      LexTrichotomy(a[1..], if b == "" then "" else b[1..]);
      if b != "" && a[0] == b[0] {
        assert a == [a[0]] + a[1..] && b == [b[0]] + b[1..];
      }
    }
  }

  lemma {:induction false} LexTransitive(a: string, b: string, c: string)
    requires LexLess(a, b) && LexLess(b, c)
    ensures LexLess(a, c)
  {
    if a != "" && a[0] == b[0] && b[0] == c[0] {
      LexTransitive(a[1..], b[1..], c[1..]);
    }
  }

  /** The first difference decides, whatever follows. */
  lemma {:induction false} LexByPrefix(p: string, a: string, b: string)
    requires a != "" && b != "" && a[0] < b[0]
    ensures LexLess(p + a, p + b)
  {
    if p == "" {
      assert p + a == a && p + b == b;
    } else {
      assert (p + a)[1..] == p[1..] + a && (p + b)[1..] == p[1..] + b;
      LexByPrefix(p[1..], a, b);
    }
  }

  /** A `BTreeMap` with string keys: its entries in ascending order. */
  ghost predicate Ordered<V>(m: seq<(string, V)>) {
    forall i, j :: 0 <= i < j < |m| ==> LexLess(m[i].0, m[j].0)
  }

  ghost predicate HasKey<V>(m: seq<(string, V)>, k: string) {
    exists i :: 0 <= i < |m| && m[i].0 == k
  }

  /** `entry(k).or_insert(v)`. */
  function OrInsert<V>(m: seq<(string, V)>, k: string, v: V): seq<(string, V)> {
    if |m| == 0 || LexLess(k, m[0].0) then [(k, v)] + m
    else if m[0].0 == k then m
    else [m[0]] + OrInsert(m[1..], k, v)
  }

  lemma {:induction false} OrInsertMembers<V>(m: seq<(string, V)>, k: string, v: V, e: (string, V))
    ensures e in OrInsert(m, k, v) ==> e in m || e == (k, v)
    ensures e in m ==> e in OrInsert(m, k, v)
    ensures !HasKey(m, k) ==> (k, v) in OrInsert(m, k, v)
  {
    if |m| == 0 || LexLess(k, m[0].0) {
    } else if m[0].0 == k {
      assert HasKey(m, k);
    } else {
      OrInsertMembers(m[1..], k, v, e);
      assert m == [m[0]] + m[1..];
      if HasKey(m[1..], k) {
        var i :| 0 <= i < |m[1..]| && m[1..][i].0 == k;
        assert m[i + 1].0 == k;
      }
    }
  }

  lemma {:induction false} OrInsertOrdered<V>(m: seq<(string, V)>, k: string, v: V)
    requires Ordered(m)
    ensures Ordered(OrInsert(m, k, v))
  {
    if |m| == 0 {
    } else if LexLess(k, m[0].0) {
      forall j | 0 <= j < |m| ensures LexLess(k, m[j].0) {
        if j > 0 { LexTransitive(k, m[0].0, m[j].0); }
      }
    } else if m[0].0 != k {
      OrInsertOrdered(m[1..], k, v);
      LexTrichotomy(m[0].0, k);
      var t := OrInsert(m[1..], k, v);
      forall j | 0 <= j < |t| ensures LexLess(m[0].0, t[j].0) {
        var e := t[j];
        assert e in t;
        OrInsertMembers(m[1..], k, v, e);
        if e in m[1..] {
          var x :| 0 <= x < |m[1..]| && m[1..][x] == e;
          assert LexLess(m[0].0, m[x + 1].0);
        }
      }
    }
  }

  /** `or_insert` adds the pair exactly when the key is new. */
  lemma OrInsertExact<V>(m: seq<(string, V)>, k: string, v: V, key: string, value: V)
    requires Ordered(m)
    ensures (key, value) in OrInsert(m, k, v) <==> (key, value) in m || (!HasKey(m, k) && key == k && value == v)
  {
    OrInsertMembers(m, k, v, (key, value));
    if HasKey(m, k) { OrInsertKeeps(m, k, v); }
  }

  lemma {:induction false} OrInsertKeeps<V>(m: seq<(string, V)>, k: string, v: V)
    requires Ordered(m) && HasKey(m, k)
    ensures OrInsert(m, k, v) == m
  {
    var i :| 0 <= i < |m| && m[i].0 == k;
    assert !LexLess(k, m[0].0) by {
      LexTrichotomy(k, k);
      if i > 0 && LexLess(k, m[0].0) { LexTransitive(k, m[0].0, k); }
    }
    if m[0].0 != k {
      assert m[1..][i - 1].0 == k;
      OrInsertKeeps(m[1..], k, v);
    }
  }
}
