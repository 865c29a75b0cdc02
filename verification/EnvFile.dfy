/** The build-time and runtime environment files, and the shell that sources the first. */
module EnvFile {
  import opened Shell
  import opened Text

  type Pair = (string, string)

  // ----- merging the layers ------------------------------------------------------

  /** Lowest precedence first. */
  datatype Layers = Layers(nixpacks: seq<Pair>, rustify: seq<Pair>, service: seq<Pair>, user: seq<Pair>)

  function Put(env: seq<Pair>, k: string, v: string): seq<Pair> {
    if env == [] then [(k, v)]
    else if env[0].0 == k then [(k, v)] + env[1..]
    else [env[0]] + Put(env[1..], k, v)
  }

  function PutAll(env: seq<Pair>, pairs: seq<Pair>): seq<Pair>
    decreases |pairs|
  {
    if pairs == [] then env else PutAll(Put(env, pairs[0].0, pairs[0].1), pairs[1..])
  }

  predicate Reserved(k: string) {
    "RUSTIFY_" <= k || "COOLIFY_" <= k || "SERVICE_" <= k
  }

  function Unreserved(pairs: seq<Pair>): seq<Pair> {
    if pairs == [] then []
    else (if Reserved(pairs[0].0) then [] else [pairs[0]]) + Unreserved(pairs[1..])
  }

  function AllPairs(l: Layers): seq<Pair> {
    Unreserved(l.nixpacks) + l.rustify + l.service + l.user
  }

  function Merged(l: Layers): seq<Pair> {
    PutAll([], AllPairs(l))
  }

  function Keys(env: seq<Pair>): set<string> {
    set p | p in env :: p.0
  }

  function FirstSeen(pairs: seq<Pair>, k: string): (i: nat)
    requires k in Keys(pairs)
    ensures i < |pairs| && pairs[i].0 == k && forall j :: 0 <= j < i ==> pairs[j].0 != k
  {
    var keys := seq(|pairs|, i requires 0 <= i < |pairs| => pairs[i].0);
    assert k in keys by {
      var p :| p in pairs && p.0 == k;
      var i :| 0 <= i < |pairs| && pairs[i] == p;
      assert keys[i] == k;
    }
    assert forall j :: 0 <= j < FirstIndex(keys, k) ==> keys[..FirstIndex(keys, k)][j] == pairs[j].0;
    FirstIndex(keys, k)
  }

  function LastValue(pairs: seq<Pair>, k: string): string
    requires k in Keys(pairs)
  {
    var n := |pairs| - 1;
    assert pairs == pairs[..n] + [pairs[n]];
    if pairs[n].0 == k then pairs[n].1 else LastValue(pairs[..n], k)
  }

  /** Distinct keys in first-seen order, each with its last value. */
  ghost predicate IsMerge(pairs: seq<Pair>, env: seq<Pair>) {
    Keys(env) == Keys(pairs)
    && (forall i :: 0 <= i < |env| ==> env[i].0 in Keys(pairs) && env[i].1 == LastValue(pairs, env[i].0))
    && (forall i, j :: 0 <= i < j < |env| ==>
          env[i].0 in Keys(pairs) && env[j].0 in Keys(pairs)
          && FirstSeen(pairs, env[i].0) < FirstSeen(pairs, env[j].0))
  }

  lemma {:induction false} PutExact(env: seq<Pair>, k: string, v: string)
    requires forall i, j :: 0 <= i < j < |env| ==> env[i].0 != env[j].0
    ensures var r := Put(env, k, v);
            |r| == (if k in Keys(env) then |env| else |env| + 1)
            && (forall i :: 0 <= i < |env| ==> r[i] == if env[i].0 == k then (k, v) else env[i])
            && (k !in Keys(env) ==> r[|env|] == (k, v))
  {
    if env != [] {
      var rest := env[1..];
      assert env == [env[0]] + rest;
      if env[0].0 == k {
        assert env[0] in env;
      } else {
        PutExact(rest, k, v);
        assert Keys(env) == {env[0].0} + Keys(rest);
        forall i | 0 < i < |env| ensures Put(env, k, v)[i] == Put(rest, k, v)[i - 1] && env[i] == rest[i - 1] {}
      }
    }
  }

  lemma FirstSeenSnoc(pairs: seq<Pair>, p: Pair, k: string)
    requires k in Keys(pairs)
    ensures k in Keys(pairs + [p]) && FirstSeen(pairs + [p], k) == FirstSeen(pairs, k)
  {
    var q :| q in pairs && q.0 == k;
    assert q in pairs + [p];
    var i, j := FirstSeen(pairs, k), FirstSeen(pairs + [p], k);
    assert (pairs + [p])[i] == pairs[i];
    assert j <= i && (pairs + [p])[j] == pairs[j];
  }

  lemma KeysSnoc(pairs: seq<Pair>, p: Pair)
    ensures Keys(pairs + [p]) == Keys(pairs) + {p.0}
  {
  }

  lemma LastValueSnoc(pairs: seq<Pair>, p: Pair, k: string)
    requires k in Keys(pairs + [p])
    ensures k != p.0 ==> k in Keys(pairs)
    ensures LastValue(pairs + [p], k) == if k == p.0 then p.1 else LastValue(pairs, k)
  {
    assert (pairs + [p])[..|pairs|] == pairs;
    if k != p.0 { assert exists q :: q in pairs + [p] && q.0 == k; }
  }

  lemma DistinctKeys(pairs: seq<Pair>, env: seq<Pair>)
    requires IsMerge(pairs, env)
    ensures forall i, j :: 0 <= i < j < |env| ==> env[i].0 != env[j].0
  {
    forall i, j | 0 <= i < j < |env| ensures env[i].0 != env[j].0 {
      assert FirstSeen(pairs, env[i].0) < FirstSeen(pairs, env[j].0);
    }
  }

  lemma {:induction false} PutKeys(env: seq<Pair>, k: string, v: string)
    ensures Keys(Put(env, k, v)) == Keys(env) + {k}
  {
    var r := Put(env, k, v);
    if env != [] {
      assert env == [env[0]] + env[1..] && r == [r[0]] + r[1..];
      PutKeys(env[1..], k, v);
      assert Keys(env) == {env[0].0} + Keys(env[1..]) && Keys(r) == {r[0].0} + Keys(r[1..]);
    }
  }

  lemma PutOrder(pairs: seq<Pair>, env: seq<Pair>, p: Pair, i: nat, j: nat)
    requires IsMerge(pairs, env)
    requires i < j < |Put(env, p.0, p.1)|
    ensures var all, r := pairs + [p], Put(env, p.0, p.1);
            r[i].0 in Keys(all) && r[j].0 in Keys(all) && FirstSeen(all, r[i].0) < FirstSeen(all, r[j].0)
  {
    var all, r := pairs + [p], Put(env, p.0, p.1);
    DistinctKeys(pairs, env);
    PutExact(env, p.0, p.1);
    assert env[i] in env && r[i].0 == env[i].0;
    FirstSeenSnoc(pairs, p, env[i].0);
    if j < |env| {
      assert env[j] in env && r[j].0 == env[j].0;
      FirstSeenSnoc(pairs, p, env[j].0);
    } else {
      assert all[|pairs|] == p && p in all;
      forall x | 0 <= x < |pairs| ensures all[x].0 != p.0 { assert pairs[x] in pairs && all[x] == pairs[x]; }
    }
  }

  lemma PutValues(pairs: seq<Pair>, env: seq<Pair>, p: Pair, i: nat)
    requires IsMerge(pairs, env) && i < |Put(env, p.0, p.1)|
    ensures var all, r := pairs + [p], Put(env, p.0, p.1);
            r[i].0 in Keys(all) && r[i].1 == LastValue(all, r[i].0)
  {
    DistinctKeys(pairs, env);
    PutExact(env, p.0, p.1);
    KeysSnoc(pairs, p);
    if i < |env| && env[i].0 != p.0 {
      assert Put(env, p.0, p.1)[i] == env[i];
      LastValueSnoc(pairs, p, env[i].0);
    } else {
      assert Put(env, p.0, p.1)[i] == p;
      LastValueSnoc(pairs, p, p.0);
    }
  }

  lemma PutMerges(pairs: seq<Pair>, env: seq<Pair>, p: Pair)
    requires IsMerge(pairs, env)
    ensures IsMerge(pairs + [p], Put(env, p.0, p.1))
  {
    var all, r := pairs + [p], Put(env, p.0, p.1);
    PutKeys(env, p.0, p.1);
    KeysSnoc(pairs, p);
    forall i: nat | i < |r| ensures r[i].0 in Keys(all) && r[i].1 == LastValue(all, r[i].0) {
      PutValues(pairs, env, p, i);
    }
    forall i: nat, j: nat | i < j < |r|
      ensures r[i].0 in Keys(all) && r[j].0 in Keys(all) && FirstSeen(all, r[i].0) < FirstSeen(all, r[j].0)
    { PutOrder(pairs, env, p, i, j); }
  }

  lemma {:induction false} PutAllMerges(done: seq<Pair>, env: seq<Pair>, pairs: seq<Pair>)
    requires IsMerge(done, env)
    ensures IsMerge(done + pairs, PutAll(env, pairs))
    decreases |pairs|
  {
    if pairs == [] {
      assert done + pairs == done;
    } else {
      PutMerges(done, env, pairs[0]);
      PutAllMerges(done + [pairs[0]], Put(env, pairs[0].0, pairs[0].1), pairs[1..]);
      assert done + [pairs[0]] + pairs[1..] == done + pairs;
    }
  }

  /** The merged environment has each key once, where it was first seen, with the value it
      was given last. */
  lemma MergeExact(l: Layers)
    ensures IsMerge(AllPairs(l), Merged(l))
  {
    PutAllMerges([], [], AllPairs(l));
    assert [] + AllPairs(l) == AllPairs(l);
  }

  lemma {:induction false} LastValueConcat(a: seq<Pair>, b: seq<Pair>, k: string)
    requires k in Keys(a + b)
    ensures k !in Keys(b) ==> k in Keys(a)
    ensures LastValue(a + b, k) == if k in Keys(b) then LastValue(b, k) else LastValue(a, k)
    decreases |b|
  {
    if b == [] {
      assert a + b == a;
    } else {
      var n := |b| - 1;
      assert a + b == (a + b[..n]) + [b[n]] && b == b[..n] + [b[n]];
      LastValueSnoc(a + b[..n], b[n], k);
      assert Keys(b) == Keys(b[..n]) + {b[n].0};
      if k in Keys(b) { LastValueSnoc(b[..n], b[n], k); }
      if k != b[n].0 { LastValueConcat(a, b[..n], k); }
    }
  }

  lemma KeysConcat(a: seq<Pair>, b: seq<Pair>)
    ensures Keys(a + b) == Keys(a) + Keys(b)
  {
  }

  lemma {:induction false} UnreservedExact(pairs: seq<Pair>)
    ensures forall p :: p in Unreserved(pairs) <==> p in pairs && !Reserved(p.0)
  {
    if pairs != [] {
      UnreservedExact(pairs[1..]);
      assert pairs == [pairs[0]] + pairs[1..];
    }
  }

  /** User variables win over SERVICE_*, those over RUSTIFY_*, those over the nixpacks plan,
      from which reserved names are dropped. */
  lemma LayerPrecedence(l: Layers, k: string)
    requires k in Keys(AllPairs(l))
    ensures k in Keys(l.user) ==> LastValue(AllPairs(l), k) == LastValue(l.user, k)
    ensures k !in Keys(l.user) && k in Keys(l.service) ==> LastValue(AllPairs(l), k) == LastValue(l.service, k)
    ensures k !in Keys(l.user + l.service) && k in Keys(l.rustify) ==>
              LastValue(AllPairs(l), k) == LastValue(l.rustify, k)
    ensures k !in Keys(l.user + l.service + l.rustify) ==>
              k in Keys(Unreserved(l.nixpacks)) && !Reserved(k)
              && LastValue(AllPairs(l), k) == LastValue(Unreserved(l.nixpacks), k)
  {
    var nix := Unreserved(l.nixpacks);
    UnreservedExact(l.nixpacks);
    KeysConcat(l.user, l.service);
    KeysConcat(l.user + l.service, l.rustify);
    LastValueConcat(nix + l.rustify + l.service, l.user, k);
    if k !in Keys(l.user) {
      LastValueConcat(nix + l.rustify, l.service, k);
      if k !in Keys(l.service) { LastValueConcat(nix, l.rustify, k); }
    }
  }

  lemma {:induction false} LastOfUnreserved(pairs: seq<Pair>, k: string)
    requires !Reserved(k)
    ensures k in Keys(Unreserved(pairs)) <==> k in Keys(pairs)
    ensures k in Keys(pairs) ==> LastValue(Unreserved(pairs), k) == LastValue(pairs, k)
    decreases |pairs|
  {
    if pairs != [] {
      var n := |pairs| - 1;
      var last := if Reserved(pairs[n].0) then [] else [pairs[n]];
      assert pairs == pairs[..n] + [pairs[n]];
      LastOfUnreserved(pairs[..n], k);
      UnreservedSnoc(pairs[..n], pairs[n]);
      if last == [] { assert Unreserved(pairs[..n]) + last == Unreserved(pairs[..n]); }
      assert Keys(pairs) == Keys(pairs[..n]) + {pairs[n].0};
      if k in Keys(pairs) && last != [] {
        assert Keys(Unreserved(pairs[..n]) + last) == Keys(Unreserved(pairs[..n])) + {pairs[n].0};
        LastValueSnoc(Unreserved(pairs[..n]), pairs[n], k);
      }
    }
  }

  lemma {:induction false} UnreservedSnoc(pairs: seq<Pair>, p: Pair)
    ensures Unreserved(pairs + [p]) == Unreserved(pairs) + (if Reserved(p.0) then [] else [p])
  {
    if pairs == [] {
      assert pairs + [p] == [p] && [p][1..] == [];
    } else {
      assert (pairs + [p])[1..] == pairs[1..] + [p];
      UnreservedSnoc(pairs[1..], p);
    }
  }

  /** Which keys the build environment has and from which layer each takes its value, the last
      one given there. Of the nixpacks plan, keys with a reserved prefix do not count. */
  lemma EnvironmentExact(l: Layers, k: string)
    ensures var plan := k in Keys(l.nixpacks) && !("RUSTIFY_" <= k) && !("COOLIFY_" <= k) && !("SERVICE_" <= k);
            && (k in Keys(Merged(l)) <==> k in Keys(l.user) || k in Keys(l.service) || k in Keys(l.rustify) || plan)
            && (k in Keys(Merged(l)) ==>
                  (k, if k in Keys(l.user) then LastValue(l.user, k)
                      else if k in Keys(l.service) then LastValue(l.service, k)
                      else if k in Keys(l.rustify) then LastValue(l.rustify, k)
                      else LastValue(l.nixpacks, k)) in Merged(l))
  {
    MergeExact(l);
    KeysConcat(Unreserved(l.nixpacks) + l.rustify + l.service, l.user);
    KeysConcat(Unreserved(l.nixpacks) + l.rustify, l.service);
    KeysConcat(Unreserved(l.nixpacks), l.rustify);
    KeysConcat(l.user, l.service);
    KeysConcat(l.user + l.service, l.rustify);
    if Reserved(k) { UnreservedExact(l.nixpacks); } else { LastOfUnreserved(l.nixpacks, k); }
    if k in Keys(Merged(l)) {
      LayerPrecedence(l, k);
      var p :| p in Merged(l) && p.0 == k;
      var i :| 0 <= i < |Merged(l)| && Merged(l)[i] == p;
      assert Merged(l)[i].1 == LastValue(AllPairs(l), k);
    }
  }

  // ----- printing -------------------------------------------------------------------

  predicate Escaped(c: char) { c == '\\' || c == '"' || c == '`' || c == '$' }

  function EscapeAll(v: string): string {
    if v == "" then "" else (if Escaped(v[0]) then ['\\', v[0]] else [v[0]]) + EscapeAll(v[1..])
  }

  function DoubleQuoted(v: string): string { "\"" + EscapeAll(v) + "\"" }

  function RenderPairs(env: seq<Pair>): string {
    if env == [] then ""
    else (env[0].0 + "=" + DoubleQuoted(env[0].1) + "\n") + RenderPairs(env[1..])
  }

  function RenderBuild(l: Layers): string { RenderPairs(Merged(l)) }

  function OneLine(v: string): string {
    if v == "" then "" else [if v[0] == '\n' || v[0] == '\r' then ' ' else v[0]] + OneLine(v[1..])
  }

  function RenderRuntime(vars: seq<Pair>): string {
    if vars == [] then "" else (vars[0].0 + "=" + OneLine(vars[0].1) + "\n") + RenderRuntime(vars[1..])
  }

  // ----- the shell that sources the file ---------------------------------------------

  predicate NameStart(c: char) { 'a' <= c <= 'z' || 'A' <= c <= 'Z' || c == '_' }
  predicate NameChar(c: char) { NameStart(c) || '0' <= c <= '9' }

  predicate ShellName(s: string) {
    s != "" && NameStart(s[0]) && forall i :: 0 <= i < |s| ==> NameChar(s[i])
  }

  /** A file of lines NAME="value"; anything else is not read. */
  function ReadAssignments(m: Machine, s: string): Option<seq<Pair>>
    decreases |s|
  {
    if s == "" then Some([])
    else
      match SplitOnce(s, '=')
      case None => None
      case Some((name, tail)) =>
        SplitOnceShorter(s, '=');
        if !ShellName(name) || tail == "" || tail[0] != '"' then None
        else
          match ReadWord(m, tail, Bare)
          case None => None
          case Some((value, rest)) =>
            if rest == "" || rest[0] != '\n' then None
            else
              match ReadAssignments(m, rest[1..])
              case None => None
              case Some(more) => Some([(name, value)] + more)
  }

  /** The variables after executing the assignments in order. */
  function Execute(env: map<string, string>, assignments: seq<Pair>): map<string, string>
    decreases |assignments|
  {
    if assignments == [] then env
    else Execute(env[assignments[0].0 := assignments[0].1], assignments[1..])
  }

  /** Inside double quotes, a printed character is read as the character. */
  lemma QuotedChar(m: Machine, c: char, u: string)
    ensures ReadWord(m, (if Escaped(c) then ['\\', c] else [c]) + u, Double) == Then([c], ReadWord(m, u, Double))
  {
    var t := (if Escaped(c) then ['\\', c] else [c]) + u;
    if Escaped(c) {
      assert t[0] == '\\' && t[1] == c && t[2..] == u;
    } else {
      assert t[0] == c && t[1..] == u;
    }
  }

  lemma {:induction false} EscapedBody(m: Machine, v: string, rest: string)
    requires EndsWord(rest)
    ensures ReadWord(m, EscapeAll(v) + "\"" + rest, Double) == Some((v, rest))
  {
    var t := EscapeAll(v) + "\"" + rest;
    if v == "" {
      assert t == "\"" + rest;
    } else {
      EscapedBody(m, v[1..], rest);
      var c := if Escaped(v[0]) then ['\\', v[0]] else [v[0]];
      var u := EscapeAll(v[1..]) + "\"" + rest;
      assert v == [v[0]] + v[1..];
      assert t == c + u;
      hide ReadWord, EscapeAll;
      QuotedChar(m, v[0], u);
    }
  }

  /** Any value at all survives its quoting: the shell reads one word, the value itself. */
  lemma QuotedRoundTrip(m: Machine, v: string, rest: string)
    requires EndsWord(rest)
    ensures ReadWord(m, DoubleQuoted(v) + rest, Bare) == Some((v, rest))
  {
    EscapedBody(m, v, rest);
    assert (DoubleQuoted(v) + rest)[1..] == EscapeAll(v) + "\"" + rest;
  }

  lemma ReadOne(m: Machine, k: string, v: string, more: string)
    requires ShellName(k) && ReadAssignments(m, more).Some?
    ensures ReadAssignments(m, (k + "=" + DoubleQuoted(v) + "\n") + more) == Some([(k, v)] + ReadAssignments(m, more).value)
  {
    var line, tail := k + "=" + DoubleQuoted(v) + "\n", DoubleQuoted(v) + ("\n" + more);
    assert '=' !in k;
    assert line + more == k + ['='] + tail;
    assert tail[0] == '"';
    assert ("\n" + more)[1..] == more;
    QuotedRoundTrip(m, v, "\n" + more);
    hide ShellName, EscapeAll, ReadWord, DoubleQuoted;
    SplitOnceExact(k, '=', tail);
  }

  lemma {:induction false} ReadRendered(m: Machine, env: seq<Pair>)
    requires forall i :: 0 <= i < |env| ==> ShellName(env[i].0)
    ensures ReadAssignments(m, RenderPairs(env)) == Some(env)
  {
    if env != [] {
      ReadRendered(m, env[1..]);
      ReadOne(m, env[0].0, env[0].1, RenderPairs(env[1..]));
      assert env == [env[0]] + env[1..];
    }
  }

  lemma {:induction false} ReadGivesNames(m: Machine, s: string)
    requires ReadAssignments(m, s).Some?
    ensures forall i :: 0 <= i < |ReadAssignments(m, s).value| ==> ShellName(ReadAssignments(m, s).value[i].0)
    decreases |s|
  {
    if s != "" {
      var (name, tail) := SplitOnce(s, '=').value;
      SplitOnceShorter(s, '=');
      var (value, rest) := ReadWord(m, tail, Bare).value;
      ReadGivesNames(m, rest[1..]);
    }
  }

  /** The shell reads back exactly the merged environment, whatever the values contain, if
      and only if every key is a shell name. */
  lemma BuildEnvRoundTrip(m: Machine, l: Layers)
    ensures ReadAssignments(m, RenderBuild(l)) == Some(Merged(l))
            <==> forall i :: 0 <= i < |Merged(l)| ==> ShellName(Merged(l)[i].0)
  {
    if forall i :: 0 <= i < |Merged(l)| ==> ShellName(Merged(l)[i].0) {
      ReadRendered(m, Merged(l));
    } else if ReadAssignments(m, RenderBuild(l)).Some? {
      ReadGivesNames(m, RenderBuild(l));
    }
  }

  lemma {:induction false} ExecuteExact(env: map<string, string>, ps: seq<Pair>)
    requires forall i, j :: 0 <= i < j < |ps| ==> ps[i].0 != ps[j].0
    ensures var r := Execute(env, ps);
            r.Keys == env.Keys + Keys(ps)
            && (forall i :: 0 <= i < |ps| ==> ps[i].0 in r && r[ps[i].0] == ps[i].1)
            && (forall k :: k in env && k !in Keys(ps) ==> r[k] == env[k])
    decreases |ps|
  {
    if ps != [] {
      var next := env[ps[0].0 := ps[0].1];
      assert ps == [ps[0]] + ps[1..];
      ExecuteExact(next, ps[1..]);
      assert Keys(ps) == {ps[0].0} + Keys(ps[1..]);
      assert ps[0].0 !in Keys(ps[1..]);
    }
  }

  /** After sourcing the file, every key of a layer is set to its value of highest precedence. */
  lemma SourcedEnvironment(m: Machine, l: Layers)
    requires forall k :: k in Keys(AllPairs(l)) ==> ShellName(k)
    ensures ReadAssignments(m, RenderBuild(l)).Some?
    ensures var env := Execute(map[], ReadAssignments(m, RenderBuild(l)).value);
            env.Keys == Keys(AllPairs(l)) && forall k :: k in env ==> env[k] == LastValue(AllPairs(l), k)
  {
    var merged := Merged(l);
    MergeExact(l);
    forall i | 0 <= i < |merged| ensures ShellName(merged[i].0) { assert merged[i] in merged; }
    BuildEnvRoundTrip(m, l);
    forall i, j | 0 <= i < j < |merged| ensures merged[i].0 != merged[j].0 {
      assert FirstSeen(AllPairs(l), merged[i].0) < FirstSeen(AllPairs(l), merged[j].0);
    }
    ExecuteExact(map[], merged);
    var env := Execute(map[], merged);
    forall k | k in env ensures env[k] == LastValue(AllPairs(l), k) {
      assert k in Keys(merged);
      var p :| p in merged && p.0 == k;
      var i :| 0 <= i < |merged| && merged[i] == p;
    }
  }

  // ----- the runtime file ----------------------------------------------------------------

  /** One KEY=value per line, nothing quoted. */
  function ReadLines(lines: seq<string>): Option<seq<Pair>> {
    if lines == [] || lines == [""] then Some([])
    else
      match (SplitOnce(lines[0], '='), ReadLines(lines[1..]))
      case (Some(pair), Some(more)) => Some([pair] + more)
      case _ => None
  }

  function Flattened(vars: seq<Pair>): seq<Pair> {
    if vars == [] then [] else [(vars[0].0, OneLine(vars[0].1))] + Flattened(vars[1..])
  }

  lemma {:induction false} OneLineExact(v: string)
    ensures '\n' !in OneLine(v)
    ensures OneLine(v) == v <==> '\n' !in v && '\r' !in v
    ensures |OneLine(v)| == |v|
    ensures forall i :: 0 <= i < |v| ==> OneLine(v)[i] == if v[i] == '\n' || v[i] == '\r' then ' ' else v[i]
  {
    if v != "" {
      OneLineExact(v[1..]);
      assert v == [v[0]] + v[1..];
    }
  }

  predicate LineKey(k: string) { '=' !in k && '\n' !in k }

  lemma {:induction false} RuntimeRead(vars: seq<Pair>)
    requires forall i :: 0 <= i < |vars| ==> LineKey(vars[i].0)
    ensures ReadLines(Split(RenderRuntime(vars), '\n')) == Some(Flattened(vars))
  {
    if vars != [] {
      var (k, v) := vars[0];
      var line := k + ['='] + OneLine(v);
      var more := RenderRuntime(vars[1..]);
      RuntimeRead(vars[1..]);
      OneLineExact(v);
      SplitHead(line, '\n', more);
      assert RenderRuntime(vars) == line + ['\n'] + more;
      SplitOnceExact(k, '=', OneLine(v));
      var lines := [line] + Split(more, '\n');
      assert lines[1..] == Split(more, '\n');
    }
  }

  lemma {:induction false} SplitOnceHead(s: string, c: char)
    requires SplitOnce(s, c).Some?
    ensures c !in SplitOnce(s, c).value.0 && forall x :: x in SplitOnce(s, c).value.0 ==> x in s
  {
    if s[0] != c { SplitOnceHead(s[1..], c); }
  }

  lemma {:induction false} ReadKeys(lines: seq<string>)
    requires ReadLines(lines).Some? && forall i :: 0 <= i < |lines| ==> '\n' !in lines[i]
    ensures forall i :: 0 <= i < |ReadLines(lines).value| ==> LineKey(ReadLines(lines).value[i].0)
  {
    if lines != [] && lines != [""] {
      ReadKeys(lines[1..]);
      SplitOnceHead(lines[0], '=');
    }
  }

  lemma {:induction false} LinesHaveNone(s: string, c: char)
    ensures forall i :: 0 <= i < |Split(s, c)| ==> c !in Split(s, c)[i]
  {
    if s != "" { LinesHaveNone(s[1..], c); }
  }

  lemma {:induction false} FlattenedKeys(vars: seq<Pair>)
    ensures |Flattened(vars)| == |vars| && forall i :: 0 <= i < |vars| ==> Flattened(vars)[i].0 == vars[i].0
  {
    if vars != [] { FlattenedKeys(vars[1..]); }
  }

  /** Reading the runtime file line by line gives each variable, newlines in its value turned
      into spaces, if and only if no key contains an equals sign or a newline. */
  lemma RuntimeEnvRoundTrip(vars: seq<Pair>)
    ensures ReadLines(Split(RenderRuntime(vars), '\n')) == Some(Flattened(vars))
            <==> forall i :: 0 <= i < |vars| ==> LineKey(vars[i].0)
  {
    var lines := Split(RenderRuntime(vars), '\n');
    if forall i :: 0 <= i < |vars| ==> LineKey(vars[i].0) {
      RuntimeRead(vars);
    } else if ReadLines(lines).Some? {
      LinesHaveNone(RenderRuntime(vars), '\n');
      ReadKeys(lines);
      FlattenedKeys(vars);
    }
  }

  // ----- the code ---------------------------------------------------------------------------

  lemma PutFirst(p: Pair, rest: seq<Pair>, k: string, v: string)
    ensures Put([p] + rest, k, v) == if p.0 == k then [(k, v)] + rest else [p] + Put(rest, k, v)
  {
    assert ([p] + rest)[1..] == rest;
  }

  method Upsert(env: seq<Pair>, k: string, v: string) returns (out: seq<Pair>)
    ensures out == Put(env, k, v)
  {
    assert Put([], k, v) == [(k, v)];
    hide Put;
    for i := 0 to |env|
      invariant env[..i] + Put(env[i..], k, v) == Put(env, k, v)
    {
      PutFirst(env[i], env[i + 1..], k, v);
      assert env[i..] == [env[i]] + env[i + 1..] && env[..i + 1] == env[..i] + [env[i]];
      if env[i].0 == k {
        return env[..i] + ([(k, v)] + env[i + 1..]);
      }
      assert env[..i] + ([env[i]] + Put(env[i + 1..], k, v)) == env[..i + 1] + Put(env[i + 1..], k, v);
    }
    assert env[..|env|] == env && env[|env|..] == [];
    out := env + [(k, v)];
  }

  method UpsertLayer(env: seq<Pair>, layer: seq<Pair>) returns (out: seq<Pair>)
    ensures out == PutAll(env, layer)
  {
    out := env;
    assert layer[0..] == layer;
    for i := 0 to |layer|
      invariant PutAll(out, layer[i..]) == PutAll(env, layer)
    {
      assert layer[i..][1..] == layer[i + 1..];
      out := Upsert(out, layer[i].0, layer[i].1);
    }
  }

  lemma {:induction false} PutAllConcat(env: seq<Pair>, a: seq<Pair>, b: seq<Pair>)
    ensures PutAll(env, a + b) == PutAll(PutAll(env, a), b)
    decreases |a|
  {
    if a == [] {
      assert a + b == b;
    } else {
      assert (a + b)[1..] == a[1..] + b;
      PutAllConcat(Put(env, a[0].0, a[0].1), a[1..], b);
    }
  }

  method MergeBuildEnv(l: Layers) returns (out: seq<Pair>)
    ensures out == Merged(l)
  {
    out := [];
    var nix := l.nixpacks;
    assert nix[0..] == nix;
    for i := 0 to |nix|
      invariant PutAll(out, Unreserved(nix[i..])) == PutAll([], Unreserved(nix))
    {
      assert nix[i..][1..] == nix[i + 1..];
      if !Reserved(nix[i].0) {
        assert Unreserved(nix[i..]) == [nix[i]] + Unreserved(nix[i + 1..]);
        out := Upsert(out, nix[i].0, nix[i].1);
      } else {
        assert Unreserved(nix[i..]) == Unreserved(nix[i + 1..]);
      }
    }
    out := UpsertLayer(out, l.rustify);
    out := UpsertLayer(out, l.service);
    out := UpsertLayer(out, l.user);
    PutAllConcat([], Unreserved(nix), l.rustify);
    PutAllConcat([], Unreserved(nix) + l.rustify, l.service);
    PutAllConcat([], Unreserved(nix) + l.rustify + l.service, l.user);
  }

  method BashDoubleQuote(value: string) returns (escaped: string)
    ensures escaped == DoubleQuoted(value)
  {
    escaped := "\"";
    for i := 0 to |value|
      invariant escaped + EscapeAll(value[i..]) == "\"" + EscapeAll(value)
    {
      assert value[i..] == [value[i]] + value[i + 1..];
      if Escaped(value[i]) { escaped := escaped + "\\"; }
      escaped := escaped + [value[i]];
    }
    escaped := escaped + "\"";
  }

  method RenderBuildEnv(l: Layers) returns (out: string)
    ensures out == RenderBuild(l)
  {
    var merged := MergeBuildEnv(l);
    out := "";
    hide DoubleQuoted;
    for i := 0 to |merged|
      invariant out + RenderPairs(merged[i..]) == RenderPairs(merged)
    {
      var quoted := BashDoubleQuote(merged[i].1);
      var line := merged[i].0 + "=" + quoted + "\n";
      assert merged[i..][1..] == merged[i + 1..];
      assert out + (line + RenderPairs(merged[i + 1..])) == (out + line) + RenderPairs(merged[i + 1..]);
      out := out + line;
    }
  }
}
