/** The magic SERVICE_* variables of a template: the ones declared in an `environment`
    section and the ones referenced after a dollar sign anywhere in the raw text. */
module ServiceRefs {
  import opened Text
  import opened Ordering

  // ----- references in the raw template ---------------------------------------------

  predicate IdentChar(c: char) {
    'a' <= c <= 'z' || 'A' <= c <= 'Z' || '0' <= c <= '9' || c == '_'
  }

  /** `e` ends the longest run of identifier characters that starts at `j`. */
  ghost predicate IsRun(s: string, j: nat, e: nat) {
    && j <= e <= |s|
    && (forall k :: j <= k < e ==> IdentChar(s[k]))
    && (e < |s| ==> !IdentChar(s[e]))
  }

  /** After a dollar sign at `i`, and one opening brace if there is one. */
  function NameStart(s: string, i: nat): nat {
    if i + 1 < |s| && s[i + 1] == '{' then i + 2 else i + 1
  }

  /** `name` starts with SERVICE_ and is the longest identifier after the `$` or `${` at `i`. */
  ghost predicate ReferenceAt(s: string, i: nat, name: string) {
    && i < |s| && s[i] == '$'
    && "SERVICE_" <= name
    && IsRun(s, NameStart(s, i), NameStart(s, i) + |name|)
    && name == s[NameStart(s, i)..NameStart(s, i) + |name|]
  }

  ghost predicate Referenced(s: string, name: string) {
    exists i :: 0 <= i < |s| && ReferenceAt(s, i, name)
  }

  /** By code: digits, capital letters, the underscore and small letters. */
  lemma IdentCharExact(c: char)
    ensures IdentChar(c) <==> (48 <= c as int <= 57 || 65 <= c as int <= 90 || c as int == 95 || 97 <= c as int <= 122)
  {
  }

  lemma RunUnique(s: string, j: nat, a: nat, b: nat)
    requires IsRun(s, j, a) && IsRun(s, j, b)
    ensures a == b
  {
  }

  /** A name that is referenced at one place is the only one there. */
  lemma ReferenceUnique(s: string, i: nat, end: nat, name: string)
    requires i < |s| && s[i] == '$' && IsRun(s, NameStart(s, i), end)
    ensures ReferenceAt(s, i, name) <==> "SERVICE_" <= name && name == s[NameStart(s, i)..end]
  {
    if ReferenceAt(s, i, name) { RunUnique(s, NameStart(s, i), end, NameStart(s, i) + |name|); }
  }

  /** Where a name is referenced in a text: what precedes the dollar sign, whether there is a
      brace, and what follows the name. */
  datatype Place = Place(before: string, brace: bool, after: string) {
    function Around(name: string): string { before + ("$" + (if brace then "{" else "") + name) + after }
  }

  ghost predicate StandsAt(raw: string, name: string, p: Place) {
    && "SERVICE_" <= name && (forall c :: c in name ==> IdentChar(c))
    && (p.after != "" ==> !IdentChar(p.after[0])) && raw == p.Around(name)
  }

  lemma PlaceStands(raw: string, name: string, p: Place)
    requires StandsAt(raw, name, p)
    ensures ReferenceAt(raw, |p.before|, name)
  {
    var i := |p.before|;
    var j := if p.brace then i + 2 else i + 1;
    assert raw[i] == '$' && raw[j..j + |name|] == name && name[0] == 'S';
    assert raw[i + 1] == if p.brace then '{' else name[0];
    assert NameStart(raw, i) == j;
    forall k | j <= k < j + |name| ensures IdentChar(raw[k]) { assert raw[k] == name[k - j] && name[k - j] in name; }
    if p.after != "" { assert raw[j + |name|] == p.after[0]; }
  }

  lemma CutInFour(s: string, i: nat, j: nat, k: nat)
    requires i <= j <= k <= |s|
    ensures s == s[..i] + (s[i..j] + s[j..k]) + s[k..]
  {
  }

  lemma MarkAt(s: string, i: nat)
    requires i < |s| && s[i] == '$' && NameStart(s, i) <= |s|
    ensures s[i..NameStart(s, i)] == "$" + (if NameStart(s, i) == i + 2 then "{" else "")
  {
  }

  lemma ReferenceStands(raw: string, name: string, i: nat) returns (p: Place)
    requires ReferenceAt(raw, i, name)
    ensures StandsAt(raw, name, p)
  {
    var j := NameStart(raw, i);
    p := Place(raw[..i], j == i + 2, raw[j + |name|..]);
    forall c | c in name ensures IdentChar(c) {
      var k :| 0 <= k < |name| && name[k] == c;
      assert raw[j + k] == c;
    }
    MarkAt(raw, i);
    hide IdentChar, NameStart;
    CutInFour(raw, i, j, j + |name|);
  }

  /** A name is referenced exactly if the text has it after `$` or `${`, up to the first
      character that cannot belong to a name. */
  lemma ReferencedExact(raw: string, name: string)
    ensures Referenced(raw, name) <==> exists p: Place :: StandsAt(raw, name, p)
  {
    if i :| 0 <= i < |raw| && ReferenceAt(raw, i, name) { var p := ReferenceStands(raw, name, i); }
    if p: Place :| StandsAt(raw, name, p) {
      PlaceStands(raw, name, p);
      assert |p.before| < |raw|;
    }
  }

  method SkipIdentifier(raw: string, start: nat) returns (j: nat)
    requires start <= |raw|
    ensures IsRun(raw, start, j)
  {
    j := start;
    while j < |raw| && IdentChar(raw[j])
      invariant start <= j <= |raw|
      invariant forall k :: start <= k < j ==> IdentChar(raw[k])
    {
      j := j + 1;
    }
  }

  /** The scan is exact although it jumps over each name it reads. */
  method ScanServiceRefs(raw: string) returns (out: set<string>)
    ensures forall name :: name in out <==> Referenced(raw, name)
  {
    out := {};
    var i := 0;
    while i < |raw|
      invariant 0 <= i <= |raw|
      invariant forall name :: name in out <==> exists k :: 0 <= k < i && ReferenceAt(raw, k, name)
    {
      ghost var from, before := i, out;
      if raw[i] == '$' {
        var start := i + 1;
        if start < |raw| && raw[start] == '{' { start := start + 1; }
        var j := SkipIdentifier(raw, start);
        var token := raw[start..j];
        if "SERVICE_" <= token { out := out + {token}; }
        forall name ensures ReferenceAt(raw, from, name) <==> "SERVICE_" <= token && name == token {
          ReferenceUnique(raw, from, j, name);
        }
        i := j;
      } else {
        i := i + 1;
      }
      forall k, name | from < k < i ensures !ReferenceAt(raw, k, name) {
        assert raw[k] != '$';
      }
      forall name ensures name in out <==> exists k :: 0 <= k < i && ReferenceAt(raw, k, name) {
        assert name in out <==> name in before || ReferenceAt(raw, from, name);
      }
    }
  }

  // ----- declarations -----------------------------------------------------------------

  /** An `environment` section: a list of strings, a mapping with its string keys and
      values, or anything else. */
  datatype Section = Listed(items: seq<string>) | Mapped(pairs: seq<(string, Option<string>)>) | Other

  type Entry = (string, Option<string>)

  function ParseItem(s: string): Entry {
    match SplitOnce(s, '=')
    case Some((k, v)) => (Trim(k), Some(v))
    case None => (Trim(s), None)
  }

  /** A list item is a key with blanks around it, and a value after the first equals sign. */
  lemma ItemExact(lead: string, key: string, trail: string, value: string)
    requires AllSpace(lead) && AllSpace(trail) && Trimmed(key) && '=' !in key
    ensures ParseItem(lead + key + trail + "=" + value) == (key, Some(value))
    ensures ParseItem(lead + key + trail) == (key, None)
  {
    var left := lead + key + trail;
    TrimExact(lead, key, trail);
    SplitOnceExact(left, '=', value);
    assert left + ['='] + value == left + "=" + value;
  }

  function Items(items: seq<string>): seq<Entry> {
    seq(|items|, i requires 0 <= i < |items| => ParseItem(items[i]))
  }

  function Declarations(s: Section): seq<Entry> {
    match s
    case Listed(items) => Items(items)
    case Mapped(pairs) => pairs
    case Other => []
  }

  function AllDeclarations(sections: seq<Section>): seq<Entry> {
    if |sections| == 0 then [] else Declarations(sections[0]) + AllDeclarations(sections[1..])
  }

  /** Every section counts, in order. */
  lemma {:induction false} DeclarationsInOrder(before: seq<Section>, s: Section, after: seq<Section>)
    ensures AllDeclarations(before + [s] + after) == AllDeclarations(before) + Declarations(s) + AllDeclarations(after)
    decreases |before|
  {
    var all := before + [s] + after;
    if |before| == 0 {
      assert all[1..] == after;
    } else {
      assert all[1..] == before[1..] + [s] + after;
      DeclarationsInOrder(before[1..], s, after);
    }
  }

  /** The value of the first declaration of `k`. */
  function FirstDeclared(ds: seq<Entry>, k: string): Option<Option<string>>
    decreases |ds|
  {
    if |ds| == 0 then None else if ds[0].0 == k then Some(ds[0].1) else FirstDeclared(ds[1..], k)
  }

  function AddDeclared(m: seq<Entry>, e: Entry): seq<Entry> {
    if "SERVICE_" <= e.0 then OrInsert(m, e.0, e.1) else m
  }

  /** What is collected: each magic name once in key order, a declared one with the value
      of its first declaration, a name that is only referenced without one. */
  ghost predicate IsCollected(m: seq<Entry>, ds: seq<Entry>, refs: set<string>) {
    && Ordered(m)
    && forall k, v :: (k, v) in m <==>
      if FirstDeclared(ds, k).Some? then "SERVICE_" <= k && FirstDeclared(ds, k) == Some(v)
      else k in refs && v == None
  }

  lemma {:induction false} FirstDeclaredSnoc(ds: seq<Entry>, e: Entry, k: string)
    ensures FirstDeclared(ds + [e], k)
            == if FirstDeclared(ds, k).Some? then FirstDeclared(ds, k) else if e.0 == k then Some(e.1) else None
    decreases |ds|
  {
    if |ds| == 0 {
      assert ds + [e] == [e];
    } else {
      assert (ds + [e])[1..] == ds[1..] + [e];
      FirstDeclaredSnoc(ds[1..], e, k);
    }
  }

  lemma CollectDeclaration(m: seq<Entry>, ds: seq<Entry>, e: Entry)
    requires IsCollected(m, ds, {})
    ensures IsCollected(AddDeclared(m, e), ds + [e], {})
  {
    var n := AddDeclared(m, e);
    if "SERVICE_" <= e.0 { OrInsertOrdered(m, e.0, e.1); }
    forall k, v ensures (k, v) in n <==> FirstDeclared(ds + [e], k).Some? && "SERVICE_" <= k && FirstDeclared(ds + [e], k) == Some(v) {
      FirstDeclaredSnoc(ds, e, k);
      if "SERVICE_" <= e.0 { OrInsertExact(m, e.0, e.1, k, v); }
    }
  }

  lemma CollectReference(m: seq<Entry>, ds: seq<Entry>, refs: set<string>, name: string)
    requires IsCollected(m, ds, refs) && "SERVICE_" <= name
    ensures IsCollected(OrInsert(m, name, None), ds, refs + {name})
  {
    OrInsertOrdered(m, name, None);
    var n := OrInsert(m, name, None);
    forall k, v
      ensures (k, v) in n <==>
              if FirstDeclared(ds, k).Some? then "SERVICE_" <= k && FirstDeclared(ds, k) == Some(v)
              else k in refs + {name} && v == None
    {
      OrInsertExact(m, name, None, k, v);
      if FirstDeclared(ds, name).Some? {
        assert (name, FirstDeclared(ds, name).value) in m;
      } else if name in refs {
        assert (name, None) in m;
      }
    }
  }

  method CollectSection(magic: seq<Entry>, ds: seq<Entry>, ghost done: seq<Entry>) returns (out: seq<Entry>)
    requires IsCollected(magic, done, {})
    ensures IsCollected(out, done + ds, {})
  {
    out := magic;
    var i := 0;
    assert done + ds[..0] == done;
    while i < |ds|
      invariant 0 <= i <= |ds|
      invariant IsCollected(out, done + ds[..i], {})
    {
      CollectDeclaration(out, done + ds[..i], ds[i]);
      assert (done + ds[..i]) + [ds[i]] == done + ds[..i + 1];
      out := AddDeclared(out, ds[i]);
      i := i + 1;
    }
    assert ds[..i] == ds;
  }

  method CollectDeclared(sections: seq<Section>) returns (magic: seq<Entry>)
    ensures IsCollected(magic, AllDeclarations(sections), {})
  {
    magic := [];
    var left := sections;
    ghost var done: seq<Entry> := [];
    while |left| > 0
      invariant IsCollected(magic, done, {})
      invariant done + AllDeclarations(left) == AllDeclarations(sections)
    {
      var ds := Declarations(left[0]);
      magic := CollectSection(magic, ds, done);
      assert done + (ds + AllDeclarations(left[1..])) == (done + ds) + AllDeclarations(left[1..]);
      done := done + ds;
      left := left[1..];
    }
    assert done == AllDeclarations(sections);
  }

  method CollectReferences(declared: seq<Entry>, refs: set<string>, ghost ds: seq<Entry>) returns (magic: seq<Entry>)
    requires IsCollected(declared, ds, {})
    requires forall name :: name in refs ==> "SERVICE_" <= name
    ensures IsCollected(magic, ds, refs)
  {
    magic := declared;
    var left := refs;
    ghost var taken := {};
    while left != {}
      invariant left + taken == refs
      invariant IsCollected(magic, ds, taken)
      decreases |left|
    {
      var name :| name in left;
      CollectReference(magic, ds, taken, name);
      magic := OrInsert(magic, name, None);
      left := left - {name};
      taken := taken + {name};
    }
    assert taken == refs;
  }

  method CollectMagicVars(sections: seq<Section>, raw: string) returns (magic: seq<Entry>, refs: set<string>)
    ensures forall name :: name in refs <==> Referenced(raw, name)
    ensures IsCollected(magic, AllDeclarations(sections), refs)
  {
    var declared := CollectDeclared(sections);
    refs := ScanServiceRefs(raw);
    magic := CollectReferences(declared, refs, AllDeclarations(sections));
  }
}
