/** The values of the magic variables after a run, spelled out. */
module ServiceValues {
  import opened Text
  import opened Ordering
  import opened ServiceRefs
  import opened ServiceEnv

  // ----- commands of names ----------------------------------------------------------------

  lemma {:induction false} SplitCounts(s: string, c: char)
    ensures |Split(s, c)| == CountChar(s, c) + 1
  {
    if s != "" { SplitCounts(s[1..], c); }
  }

  /** A name has a command exactly if it starts with SERVICE_ and has three or four parts. */
  lemma CommandExists(name: string)
    ensures ParseCommand(name).Some? <==> "SERVICE_" <= name && |Split(name, '_')| in {3, 4}
  {
    SplitCounts(name, '_');
  }

  lemma CountThree(first: string, second: string, id: string)
    requires '_' !in first && '_' !in second && '_' !in id
    ensures CountChar("SERVICE_" + first + "_" + (second + "_" + id), '_') == 3
  {
    CountAppend(second + "_", id, '_');
    CountAppend(second, "_", '_');
    CountAbsent(second, '_');
    CountAbsent(id, '_');
    assert CountChar("_", '_') == 1;
    hide CountChar;
    CountParts(first, second + "_" + id);
  }

  /** With four parts the command has two, unless the name starts like an FQDN or a URL. */
  lemma ThreePartCommand(first: string, second: string, id: string)
    requires '_' !in first && '_' !in second && '_' !in id && !("FQDN" <= first) && !("URL" <= first)
    ensures ParseCommand("SERVICE_" + first + "_" + (second + "_" + id)) == Some(first + "_" + second)
  {
    hide CountChar, BeforeLast;
    var name := "SERVICE_" + first + "_" + (second + "_" + id);
    CountThree(first, second, id);
    assert name == "SERVICE_" + (first + ("_" + (second + "_" + id)));
    assert name[8..] == (first + "_" + second) + ['_'] + id;
    BeforeLastExact(first + "_" + second, '_', id);
    NotPairLike(first, "_" + (second + "_" + id));
  }

  /** The marks of the pairs after SERVICE_ show that the first part starts with them. */
  lemma NotPairLike(first: string, tail: string)
    requires !("FQDN" <= first) && !("URL" <= first) && "_" <= tail
    ensures !("SERVICE_FQDN" <= "SERVICE_" + (first + tail)) && !("SERVICE_URL" <= "SERVICE_" + (first + tail))
  {
    MarkInFirst("FQDN", first, tail);
    MarkInFirst("URL", first, tail);
  }

  lemma MarkInFirst(mark: string, first: string, tail: string)
    requires "_" <= tail && '_' !in mark
    ensures "SERVICE_" + mark <= "SERVICE_" + (first + tail) <==> mark <= first
  {
    var rest := first + tail;
    var name := "SERVICE_" + rest;
    assert name[8..] == rest && rest[..|first|] == first && rest[|first|] == '_';
    if "SERVICE_" + mark <= name {
      assert name[8..][..|mark|] == mark;
      forall i | 0 <= i < |mark| ensures mark[i] == rest[i] && i != |first| {}
      assert |mark| <= |first| ==> first[..|mark|] == rest[..|mark|];
    }
    if mark <= first {
      assert name[..8 + |mark|] == "SERVICE_" + mark;
    }
  }

  // ----- generated values ------------------------------------------------------------------

  /** The commands that draw a secret. */
  predicate DrawsSecret(command: string) {
    || command == "PASSWORD" || command == "PASSWORD_64" || command == "PASSWORDWITHSYMBOLS" || command == "PASSWORDWITHSYMBOLS_64"
    || command == "BASE64" || command == "BASE64_32" || command == "BASE64_64" || command == "BASE64_128"
    || command == "REALBASE64" || command == "REALBASE64_32" || command == "REALBASE64_64" || command == "REALBASE64_128"
    || command == "HEX_32" || command == "HEX_64" || command == "HEX_128"
  }

  predicate DrawsUser(command: string) { command == "USER" || command == "LOWERCASEUSER" }

  predicate Signs(command: string) { command == "SUPABASEANON" || command == "SUPABASESERVICE" }

  /** What one variable with a command other than FQDN and URL does to its own key. */
  lemma ValueStepExact(env: Env, name: string, command: string, store: Store, o: Oracle)
    ensures var out := ResolveValue(env, name, command, store, o);
            var secret := DrawsSecret(command) || Signs(command);
            && (name in store ==> name in out && out[name] == (store[name], secret))
            && (name !in store && (DrawsSecret(command) || DrawsUser(command)) ==> name in out && out[name] == (o.value(name), secret))
            && (name !in store && Signs(command) ==> name in out && out[name].1)
            && (name !in store && !DrawsSecret(command) && !DrawsUser(command) && !Signs(command) ==> out == env)
  {
  }

  lemma ValueOffPairs(name: string)
    requires ParseCommand(name).Some? && ParseCommand(name).value != "FQDN" && ParseCommand(name).value != "URL"
    ensures OffPairs(name)
  {
    hide ParseCommand;
    if "SERVICE_FQDN_" <= name {
      assert name == "SERVICE_" + "FQDN" + "_" + name[13..];
      PairNameCommand("FQDN", name[13..]);
    }
    if "SERVICE_URL_" <= name {
      assert name == "SERVICE_" + "URL" + "_" + name[12..];
      PairNameCommand("URL", name[12..]);
    }
  }

  /** A value of the loop: of its own step, which nothing later touches. */
  lemma {:induction false} LoopValue(p: Progress, magic: seq<Entry>, base: string, store: Store, o: Oracle, name: string, command: string)
    requires Respects(p.env, store) && ResolveAll(p, magic, base, store, o).Some?
    requires Ordered(magic) && HasKey(magic, name) && ParseCommand(name) == Some(command) && command != "FQDN" && command != "URL"
    ensures var env := ResolveAll(p, magic, base, store, o).value.env;
            var secret := DrawsSecret(command) || Signs(command);
            && (name in store ==> name in env && env[name] == (store[name], secret))
            && (name !in store && (DrawsSecret(command) || DrawsUser(command)) ==> name in env && env[name] == (o.value(name), secret))
            && (name !in store && Signs(command) ==> name in env && env[name].1)
    decreases |magic|
  {
    hide ParseCommand, LexLess, Generates, Writes, FqdnKey;
    var q := ResolveOne(p, magic[0], base, store, o).value;
    Step(p, magic[0], base, store, o, name);
    if magic[0].0 == name {
      OrderedTail(magic, name);
      ValueStepExact(p.env, name, command, store, o);
      ValueOffPairs(name);
      if name in q.env { LoopKeeps(q, magic[1..], base, store, o, name); }
    } else {
      var i :| 0 <= i < |magic| && magic[i].0 == name;
      assert magic[1..][i - 1].0 == name;
      LoopValue(q, magic[1..], base, store, o, name, command);
    }
  }

  /** After a run a variable has its stored value, or a value drawn for it, or none if its
      command is unknown; it is flagged as a secret exactly if its command yields one. */
  lemma ValueOfRun(t: Template, store: Store, o: Oracle, name: string, command: string)
    requires Resolve(t, store, o).Some? && Ordered(t.magic) && HasKey(t.magic, name) && !("SERVICE_NAME_" <= name)
    requires ParseCommand(name) == Some(command) && command != "FQDN" && command != "URL"
    ensures var env := Resolve(t, store, o).value;
            var secret := DrawsSecret(command) || Signs(command);
            && (name in store ==> name in env && env[name] == (store[name], secret))
            && (name !in store && (DrawsSecret(command) || DrawsUser(command)) ==> name in env && env[name] == (o.value(name), secret))
            && (name !in store && Signs(command) ==> name in env && env[name].1)
  {
    hide ParseCommand, ResolveAll, Bookkeeping;
    LoopSets(Progress(map[], []), t.magic, t.base, store, o, name);
    LoopValue(Progress(map[], []), t.magic, t.base, store, o, name, command);
    CommandPrefix(name);
    assert !("COOLIFY_" <= name) by { assert name[0] == 'S'; }
    BookkeepingSets(Loop(t, store, o).value, t.uuid, t.key, t.services, store, name);
  }

  /** The two kinds of tokens by their names: the public one has the role `anon`, the other one
      `service_role`, and both are signed with the key that is in the store after the run. */
  lemma TokenRoles(t: Template, store: Store, o: Oracle, command: string, id: string)
    requires Resolve(t, store, o).Some? && Ordered(t.magic) && '_' !in id
    requires command == "SUPABASEANON" || command == "SUPABASESERVICE"
    ensures var env := Resolve(t, store, o).value;
            var name, later := "SERVICE_" + command + "_" + id, Upserted(store, env);
            HasKey(t.magic, name) && name !in store ==>
              && name in env && "SERVICE_PASSWORD_JWT" in later
              && env[name].0 == o.sign(if command == "SUPABASEANON" then "anon" else "service_role", later["SERVICE_PASSWORD_JWT"])
  {
    var name := "SERVICE_" + command + "_" + id;
    TwoPartCommand(command, id);
    hide Resolve, ParseCommand, Upserted;
    if HasKey(t.magic, name) && name !in store { TokensMatchTheStoredKey(t, store, o, name); }
  }

  // ----- FQDNs and URLs ---------------------------------------------------------------------

  /** A name that ends in an underscore and digits is split there. */
  lemma SplitWithPort(kind: string, n: string, port: string)
    requires (kind == "FQDN" || kind == "URL") && Digits(port)
    ensures SplitServiceName("SERVICE_" + kind + "_" + n + "_" + port) == Some((n, Some(port)))
  {
    var name := "SERVICE_" + kind + "_" + n + "_" + port;
    var rest := n + "_" + port;
    UnprefixedExact(kind, rest);
    assert name == "SERVICE_" + kind + "_" + rest;
    var last := AfterLast(rest, '_');
    assert rest[|n|] == '_' && '_' !in port by { assert forall i :: 0 <= i < |port| ==> IsDigit(port[i]); }
    AfterLastIs(rest, n, port);
    assert rest[..|rest| - |last| - 1] == n;
  }

  lemma AfterLastIs(s: string, a: string, b: string)
    requires s == a + "_" + b && '_' !in b
    ensures AfterLast(s, '_') == b
  {
    hide AfterLast;
    var r := AfterLast(s, '_');
    assert s[|a|] == '_' && s[|a| + 1..] == b;
    forall i | |a| < i < |s| ensures s[i] != '_' { assert s[i] == b[i - |a| - 1]; }
    forall i | |s| - |r| <= i < |s| ensures s[i] != '_' { assert s[i] == r[i - (|s| - |r|)]; }
  }

  lemma UnprefixedExact(kind: string, rest: string)
    requires kind == "FQDN" || kind == "URL"
    ensures Unprefixed("SERVICE_" + kind + "_" + rest) == rest
  {
    var name := "SERVICE_" + kind + "_" + rest;
    var url := "SERVICE_URL_";
    assert url[8] == 'U';
    if kind == "FQDN" {
      assert name[8] == 'F' && name == "SERVICE_FQDN_" + rest;
    } else {
      assert name == url + rest;
    }
  }

  /** Any other name is kept whole. */
  lemma SplitWithoutPort(kind: string, n: string)
    requires (kind == "FQDN" || kind == "URL") && !Digits(n)
    requires forall a, b :: n == a + "_" + b ==> !Digits(b)
    ensures SplitServiceName("SERVICE_" + kind + "_" + n) == Some((n, None))
  {
    UnprefixedExact(kind, n);
    hide AfterLast, Unprefixed;
    var last := AfterLast(n, '_');
    if '_' in n {
      var a := n[..|n| - |last| - 1];
      assert n == a + "_" + last;
    } else {
      assert last == n;
    }
  }

  /** A declared value is a path if it starts with a slash and has more. */
  function PathOf(declared: Option<string>): string {
    if declared.Some? && |declared.value| > 1 && declared.value[0] == '/' then declared.value else ""
  }

  /** The value of one of the keys that an FQDN or URL variable sets. */
  predicate PairValue(k: string, v: string, n: string, port: Option<string>, base: string, path: string) {
    || (k == "SERVICE_FQDN_" + n && v == base + path)
    || (k == "SERVICE_URL_" + n && v == "https://" + base + path)
    || (port.Some? && k == "SERVICE_FQDN_" + n + "_" + port.value && v == base + ":" + port.value + path)
    || (port.Some? && k == "SERVICE_URL_" + n + "_" + port.value && v == "https://" + base + ":" + port.value + path)
  }

  lemma PairKeysDiffer(n: string, m: string)
    ensures "SERVICE_FQDN_" + n != "SERVICE_URL_" + m
    ensures n != m ==> "SERVICE_FQDN_" + n != "SERVICE_FQDN_" + m && "SERVICE_URL_" + n != "SERVICE_URL_" + m
  {
    var fqdn, url := "SERVICE_FQDN_", "SERVICE_URL_";
    assert (fqdn + n)[8] == 'F' && (url + m)[8] == 'U';
    assert (fqdn + n)[13..] == n && (fqdn + m)[13..] == m && (url + n)[12..] == n && (url + m)[12..] == m;
  }

  /** A fresh key of a pair has its host, with the scheme in the URL. */
  lemma PairExact(env: Env, store: Store, name: string, host: string, k: string)
    requires PairKey(name, k) && k !in store
    ensures var out := PutPair(env, store, name, host);
            k in out && out[k] == (if k == "SERVICE_URL_" + name then "https://" + host else host, false)
  {
    PairKeysDiffer(name, name);
  }

  lemma OtherPair(env: Env, store: Store, name: string, host: string, k: string)
    requires !PairKey(name, k) && k in env
    ensures var out := PutPair(env, store, name, host); k in out && out[k] == env[k]
  {
  }

  lemma Scheme(a: string, b: string, c: string)
    ensures "https://" + (a + b) == "https://" + a + b && "https://" + (a + ":" + b + c) == "https://" + a + ":" + b + c
  {
  }

  /** One FQDN or URL variable sets the pair of its name, and that of its port if it has one,
      each fresh key to the base with its port and path. */
  lemma FqdnStepExact(p: Progress, name: string, n: string, port: Option<string>, declared: Option<string>, base: string,
                      store: Store, k: string)
    requires SplitServiceName(name) == Some((n, port)) && FqdnKey(name, k) && k !in store
    ensures var r := ResolveFqdn(p, name, declared, base, store);
            r.Some? && k in r.value.env && !r.value.env[k].1 && PairValue(k, r.value.env[k].0, n, port, base, PathOf(declared))
  {
    hide SplitServiceName, PutPair;
    var path := PathOf(declared);
    assert path == if declared.Some? && "/" <= declared.value && declared.value != "/" then declared.value else "";
    Scheme(base, path, "");
    var env := PutPair(p.env, store, n, base + path);
    if PairKey(n, k) { PairExact(p.env, store, n, base + path, k); }
    if port.Some? {
      var m, host := n + "_" + port.value, base + ":" + port.value + path;
      Scheme(base, port.value, path);
      WithPort(n, port.value);
      if PairKey(m, k) { PairExact(env, store, m, host, k); } else { OtherPair(env, store, m, host, k); }
    }
  }

  lemma WithPort(n: string, port: string)
    ensures "SERVICE_FQDN_" + n + "_" + port == "SERVICE_FQDN_" + (n + "_" + port)
    ensures "SERVICE_URL_" + n + "_" + port == "SERVICE_URL_" + (n + "_" + port)
  {
  }

  lemma {:induction false} LoopLeaves(p: Progress, magic: seq<Entry>, base: string, store: Store, o: Oracle, k: string)
    requires Respects(p.env, store) && ResolveAll(p, magic, base, store, o).Some? && k in p.env
    requires forall j :: 0 <= j < |magic| ==> magic[j].0 != k && !FqdnKey(magic[j].0, k)
    ensures var env := ResolveAll(p, magic, base, store, o).value.env; k in env && env[k] == p.env[k]
    decreases |magic|
  {
    hide FqdnKey, Writes, ResolveOne;
    if |magic| > 0 {
      Step(p, magic[0], base, store, o, k);
      LoopLeaves(ResolveOne(p, magic[0], base, store, o).value, magic[1..], base, store, o, k);
    }
  }

  lemma {:induction false} LoopFqdn(p: Progress, magic: seq<Entry>, base: string, store: Store, o: Oracle, i: nat,
                                    n: string, port: Option<string>, k: string)
    requires Respects(p.env, store) && ResolveAll(p, magic, base, store, o).Some? && i < |magic|
    requires ParseCommand(magic[i].0) == Some("FQDN") || ParseCommand(magic[i].0) == Some("URL")
    requires SplitServiceName(magic[i].0) == Some((n, port)) && FqdnKey(magic[i].0, k) && k !in store
    requires forall j :: i < j < |magic| ==> magic[j].0 != k && !FqdnKey(magic[j].0, k)
    ensures var env := ResolveAll(p, magic, base, store, o).value.env;
            k in env && !env[k].1 && PairValue(k, env[k].0, n, port, base, PathOf(magic[i].1))
    decreases |magic|
  {
    hide FqdnKey, Writes, ParseCommand, SplitServiceName, PairValue;
    var q := ResolveOne(p, magic[0], base, store, o).value;
    Step(p, magic[0], base, store, o, k);
    if i == 0 {
      FqdnStepExact(p, magic[0].0, n, port, magic[0].1, base, store, k);
      LoopLeaves(q, magic[1..], base, store, o, k);
    } else {
      LoopFqdn(q, magic[1..], base, store, o, i - 1, n, port, k);
    }
  }

  /** After a run every fresh key of a pair has the base with the port and the declared path of
      the last variable that sets it. */
  lemma FqdnOfRun(t: Template, store: Store, o: Oracle, i: nat, n: string, port: Option<string>, k: string)
    requires Resolve(t, store, o).Some? && i < |t.magic|
    requires ParseCommand(t.magic[i].0) == Some("FQDN") || ParseCommand(t.magic[i].0) == Some("URL")
    requires SplitServiceName(t.magic[i].0) == Some((n, port)) && FqdnKey(t.magic[i].0, k) && k !in store
    requires forall j :: i < j < |t.magic| ==> t.magic[j].0 != k && !FqdnKey(t.magic[j].0, k)
    ensures var env := Resolve(t, store, o).value;
            k in env && !env[k].1 && PairValue(k, env[k].0, n, port, t.base, PathOf(t.magic[i].1))
  {
    hide ResolveAll, Bookkeeping, ParseCommand, SplitServiceName, PairValue;
    LoopSets(Progress(map[], []), t.magic, t.base, store, o, k);
    LoopFqdn(Progress(map[], []), t.magic, t.base, store, o, i, n, port, k);
    var fqdn, url, names := "SERVICE_FQDN_", "SERVICE_URL_", "SERVICE_NAME_";
    assert k[0] == 'S' && (k[8] == 'F' || k[8] == 'U') && names[8] == 'N' by {
      assert fqdn[8] == 'F' && url[8] == 'U' && fqdn[0] == 'S' && url[0] == 'S';
    }
    BookkeepingSets(Loop(t, store, o).value, t.uuid, t.key, t.services, store, k);
  }

  /** The variable routes the service with the normalized name `k`. */
  predicate Routes(e: Entry, k: string) {
    && (ParseCommand(e.0) == Some("FQDN") || ParseCommand(e.0) == Some("URL"))
    && SplitServiceName(e.0).Some? && Normalize(SplitServiceName(e.0).value.0) == k
  }

  lemma RouteStep(p: Progress, e: Entry, base: string, store: Store, o: Oracle, k: string)
    requires Ordered(p.fqdns) && ResolveOne(p, e, base, store, o).Some?
    ensures var q := ResolveOne(p, e, base, store, o).value;
            && Ordered(q.fqdns)
            && (HasKey(q.fqdns, k) <==> HasKey(p.fqdns, k) || Routes(e, k))
            && (forall v :: (k, v) in p.fqdns ==> (k, v) in q.fqdns)
            && (Routes(e, k) && !HasKey(p.fqdns, k) ==>
                  (k, Fqdn(base, "https://" + base + PathOf(e.1), SplitServiceName(e.0).value.1)) in q.fqdns)
  {
    hide ParseCommand, SplitServiceName, PutPair, Normalize, ResolveValue, LexLess;
    var q := ResolveOne(p, e, base, store, o).value;
    if ParseCommand(e.0) == Some("FQDN") || ParseCommand(e.0) == Some("URL") {
      var (n, port) := SplitServiceName(e.0).value;
      var f := Fqdn(base, "https://" + base + PathOf(e.1), port);
      Scheme(base, PathOf(e.1), "");
      assert q.fqdns == OrInsert(p.fqdns, Normalize(n), f);
      OrInsertOrdered(p.fqdns, Normalize(n), f);
      forall v ensures (k, v) in q.fqdns <==> (k, v) in p.fqdns || (!HasKey(p.fqdns, Normalize(n)) && k == Normalize(n) && v == f) {
        OrInsertExact(p.fqdns, Normalize(n), f, k, v);
      }
      EntryOfKey(p.fqdns, k);
      EntryOfKey(q.fqdns, k);
    }
  }

  lemma EntryOfKey<V(!new)>(m: seq<(string, V)>, k: string)
    ensures HasKey(m, k) <==> exists v :: (k, v) in m
  {
    if HasKey(m, k) {
      var i :| 0 <= i < |m| && m[i].0 == k;
      assert (k, m[i].1) in m;
    }
  }

  lemma {:induction false} LoopRoutes(p: Progress, magic: seq<Entry>, base: string, store: Store, o: Oracle, k: string)
    requires Ordered(p.fqdns) && ResolveAll(p, magic, base, store, o).Some?
    ensures var fqdns := ResolveAll(p, magic, base, store, o).value.fqdns;
            && (HasKey(fqdns, k) <==> HasKey(p.fqdns, k) || exists i :: 0 <= i < |magic| && Routes(magic[i], k))
            && (forall v :: (k, v) in p.fqdns ==> (k, v) in fqdns)
            && forall i :: 0 <= i < |magic| && Routes(magic[i], k) && (forall j :: 0 <= j < i ==> !Routes(magic[j], k))
                           && !HasKey(p.fqdns, k) ==>
                 (k, Fqdn(base, "https://" + base + PathOf(magic[i].1), SplitServiceName(magic[i].0).value.1)) in fqdns
    decreases |magic|
  {
    hide Routes, ResolveOne, Ordered, PathOf;
    if |magic| > 0 {
      var q := ResolveOne(p, magic[0], base, store, o).value;
      var rest := magic[1..];
      RouteStep(p, magic[0], base, store, o, k);
      LoopRoutes(q, rest, base, store, o, k);
      forall i | 0 <= i < |rest| ensures rest[i] == magic[i + 1] {}
      forall i | 0 < i < |magic| ensures magic[i] == rest[i - 1] {}
      var fqdns := ResolveAll(p, magic, base, store, o).value.fqdns;
      if i :| 0 <= i < |magic| && Routes(magic[i], k) && i > 0 { assert Routes(rest[i - 1], k); }
      forall i | 0 <= i < |magic| && Routes(magic[i], k) && (forall j :: 0 <= j < i ==> !Routes(magic[j], k)) && !HasKey(p.fqdns, k)
        ensures Routes(magic[i], k) && SplitServiceName(magic[i].0).Some?
                && (k, Fqdn(base, "https://" + base + PathOf(magic[i].1), SplitServiceName(magic[i].0).value.1)) in fqdns
      {
        RouteSplits(magic[i], k);
        if i > 0 {
          assert !Routes(magic[0], k);
          forall j | 0 <= j < i - 1 ensures !Routes(rest[j], k) { assert !Routes(magic[j + 1], k); }
          assert Routes(rest[i - 1], k);
        }
      }
    }
  }

  lemma RouteSplits(e: Entry, k: string)
    requires Routes(e, k)
    ensures SplitServiceName(e.0).Some?
  {
  }

  /** Exactly the services that an FQDN or URL variable names are routed, each as the first such
      variable says: to the base, with the declared path in its URL and its port. */
  lemma RoutesOfRun(t: Template, store: Store, o: Oracle, k: string)
    requires Resolve(t, store, o).Some?
    ensures var fqdns := Loop(t, store, o).value.fqdns;
            && (HasKey(fqdns, k) <==> exists i :: 0 <= i < |t.magic| && Routes(t.magic[i], k))
            && forall i :: 0 <= i < |t.magic| && Routes(t.magic[i], k) && (forall j :: 0 <= j < i ==> !Routes(t.magic[j], k)) ==>
                 (k, Fqdn(t.base, "https://" + t.base + PathOf(t.magic[i].1), SplitServiceName(t.magic[i].0).value.1)) in fqdns
  {
    hide Routes, Bookkeeping, PathOf;
    LoopRoutes(Progress(map[], []), t.magic, t.base, store, o, k);
  }

  // ----- the signing key ---------------------------------------------------------------------

  /** A key that the template does not name is drawn by the signer. */
  predicate KeyDrawn(env: Env, o: Oracle) {
    "SERVICE_PASSWORD_JWT" in env ==> env["SERVICE_PASSWORD_JWT"] == (o.jwtKey, true)
  }

  lemma {:induction false} LoopDrawsKey(p: Progress, magic: seq<Entry>, base: string, store: Store, o: Oracle)
    requires KeyDrawn(p.env, o) && JWT_KEY !in store && !HasKey(magic, JWT_KEY) && ResolveAll(p, magic, base, store, o).Some?
    ensures KeyDrawn(ResolveAll(p, magic, base, store, o).value.env, o)
    decreases |magic|
  {
    if |magic| > 0 {
      var e := magic[0];
      assert e.0 != JWT_KEY;
      forall i | 0 <= i < |magic[1..]| ensures magic[1..][i].0 != JWT_KEY { assert magic[i + 1].0 != JWT_KEY; }
      StepDrawsKey(p, e, base, store, o);
      LoopDrawsKey(ResolveOne(p, e, base, store, o).value, magic[1..], base, store, o);
    }
  }

  lemma StepDrawsKey(p: Progress, e: Entry, base: string, store: Store, o: Oracle)
    requires KeyDrawn(p.env, o) && JWT_KEY !in store && e.0 != JWT_KEY && ResolveOne(p, e, base, store, o).Some?
    ensures KeyDrawn(ResolveOne(p, e, base, store, o).value.env, o)
  {
    hide ParseCommand, SplitServiceName;
    if ParseCommand(e.0).Some? && (ParseCommand(e.0).value == "FQDN" || ParseCommand(e.0).value == "URL") {
      var (n, port) := SplitServiceName(e.0).value;
      KeyOffPairs();
      assert !PairKey(n, JWT_KEY);
      assert port.Some? ==> !PairKey(n + "_" + port.value, JWT_KEY);
    }
  }

  /** If tokens are signed and the template does not name the key, it is drawn once, kept as a
      secret. */
  lemma KeyOfRun(t: Template, store: Store, o: Oracle)
    requires Resolve(t, store, o).Some? && !HasKey(t.magic, "SERVICE_PASSWORD_JWT") && "SERVICE_PASSWORD_JWT" !in store
    ensures KeyDrawn(Resolve(t, store, o).value, o)
  {
    hide ResolveAll, Bookkeeping;
    LoopSets(Progress(map[], []), t.magic, t.base, store, o, "");
    LoopDrawsKey(Progress(map[], []), t.magic, t.base, store, o);
    KeyNotBookkept(t, true);
    assert JWT_KEY[8] == 'P' && JWT_KEY[0] == 'S';
    BookkeepingSets(Loop(t, store, o).value, t.uuid, t.key, t.services, store, JWT_KEY);
  }

  // ----- bookkeeping -----------------------------------------------------------------------

  lemma {:induction false} NormalizeExact(name: string)
    ensures |Normalize(name)| == |name|
    ensures forall i :: 0 <= i < |name| ==>
              Normalize(name)[i] == if name[i] == '-' || name[i] == '.' then '_'
                                    else if 'A' <= name[i] <= 'Z' then (name[i] as int + 32) as char else name[i]
  {
    if name != "" { NormalizeExact(name[1..]); }
  }

  lemma {:induction false} UpperExact(s: string)
    ensures |UpperCase(s)| == |s|
    ensures forall i :: 0 <= i < |s| ==> UpperCase(s)[i] == if 'a' <= s[i] <= 'z' then (s[i] as int - 32) as char else s[i]
  {
    if s != "" { UpperExact(s[1..]); }
  }

  function NameKeyOf(service: string): string { "SERVICE_NAME_" + UpperCase(Normalize(service)) }

  lemma {:induction false} NamesExact(env: Env, services: seq<string>, store: Store, i: nat)
    requires i < |services| && NameKeyOf(services[i]) !in store
    requires forall j :: i < j < |services| ==> NameKeyOf(services[j]) != NameKeyOf(services[i])
    ensures var out := NameVars(env, services, store);
            NameKeyOf(services[i]) in out && out[NameKeyOf(services[i])] == (services[i], false)
    decreases |services|
  {
    var next := PutPersisted(env, store, NameKeyOf(services[0]), services[0], false);
    if i > 0 {
      NamesExact(next, services[1..], store, i - 1);
    } else {
      forall j | 0 <= j < |services[1..]| ensures NameKeyOf(services[1..][j]) != NameKeyOf(services[0]) {
        assert NameKeyOf(services[j + 1]) != NameKeyOf(services[0]);
      }
      NamesLeave(next, services[1..], store, NameKeyOf(services[0]));
    }
  }

  lemma {:induction false} NamesLeave(env: Env, services: seq<string>, store: Store, k: string)
    requires k in env && forall j :: 0 <= j < |services| ==> NameKeyOf(services[j]) != k
    ensures var out := NameVars(env, services, store); k in out && out[k] == env[k]
    decreases |services|
  {
    if |services| > 0 {
      assert NameKeyOf(services[0]) != k;
      forall j | 0 <= j < |services[1..]| ensures NameKeyOf(services[1..][j]) != k { assert NameKeyOf(services[j + 1]) != k; }
      NamesLeave(PutPersisted(env, store, NameKeyOf(services[0]), services[0], false), services[1..], store, k);
    }
  }

  /** A run sets the name of each service under its own key, in capitals with underscores for
      dashes and dots. */
  lemma NamesOfRun(t: Template, store: Store, o: Oracle, i: nat)
    requires Resolve(t, store, o).Some? && i < |t.services| && NameKeyOf(t.services[i]) !in store
    requires forall j :: i < j < |t.services| ==> NameKeyOf(t.services[j]) != NameKeyOf(t.services[i])
    ensures var env := Resolve(t, store, o).value;
            NameKeyOf(t.services[i]) in env && env[NameKeyOf(t.services[i])] == (t.services[i], false)
  {
    hide ResolveAll, Join, Hosts, Urls, NameVars;
    var p := Loop(t, store, o).value;
    var env := PutPersisted(PutPersisted(p.env, store, "COOLIFY_RESOURCE_UUID", t.uuid, false),
                            store, "COOLIFY_CONTAINER_NAME", t.key + "-" + t.uuid, false);
    NamesExact(env, t.services, store, i);
    assert NameKeyOf(t.services[i])[0] == 'S';
  }

  /** The bookkeeping of a run: identifiers and, if there is an FQDN, all hosts and URLs with
      commas between. */
  lemma BookkeepingOfRun(t: Template, store: Store, o: Oracle)
    requires Resolve(t, store, o).Some?
    ensures var env := Resolve(t, store, o).value;
            var fqdns := Loop(t, store, o).value.fqdns;
            && "COOLIFY_RESOURCE_UUID" in env && "COOLIFY_CONTAINER_NAME" in env
            && ("COOLIFY_RESOURCE_UUID" !in store ==> env["COOLIFY_RESOURCE_UUID"] == (t.uuid, false))
            && ("COOLIFY_CONTAINER_NAME" !in store ==> env["COOLIFY_CONTAINER_NAME"] == (t.key + "-" + t.uuid, false))
            && (|fqdns| > 0 ==>
                  && "COOLIFY_FQDN" in env && "COOLIFY_URL" in env
                  && ("COOLIFY_FQDN" !in store ==> env["COOLIFY_FQDN"] == (Join(Hosts(fqdns), ","), false))
                  && ("COOLIFY_URL" !in store ==> env["COOLIFY_URL"] == (Join(Urls(fqdns), ","), false)))
  {
    hide ResolveAll, Join, Hosts, Urls, NameVars;
    var p := Loop(t, store, o).value;
    var env := PutPersisted(PutPersisted(p.env, store, "COOLIFY_RESOURCE_UUID", t.uuid, false),
                            store, "COOLIFY_CONTAINER_NAME", t.key + "-" + t.uuid, false);
    LoopSets(Progress(map[], []), t.magic, t.base, store, o, "");
    var uuid, name, fqdn, url := "COOLIFY_RESOURCE_UUID", "COOLIFY_CONTAINER_NAME", "COOLIFY_FQDN", "COOLIFY_URL";
    assert |uuid| == 21 && |name| == 22 && |fqdn| == 12 && |url| == 11 && uuid[0] == 'C' && name[0] == 'C';
    NamesSet(env, t.services, store, uuid);
    NamesSet(env, t.services, store, name);
  }
}
