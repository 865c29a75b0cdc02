/** Resolution of the magic SERVICE_* variables of a one-click service, whose generated
    values are stored once and reused by later deployments. */
module ServiceEnv {
  import opened Text
  import opened Ordering
  import opened ServiceRefs

  const JWT_KEY: string := "SERVICE_PASSWORD_JWT"

  // ----- names and commands --------------------------------------------------------------

  function CountChar(s: string, c: char): nat {
    if s == "" then 0 else (if s[0] == c then 1 else 0) + CountChar(s[1..], c)
  }

  /** What precedes the last `c`, or everything. */
  function BeforeLast(s: string, c: char): string
    decreases |s|
  {
    if c !in s then s
    else if s[|s| - 1] == c then s[..|s| - 1]
    else BeforeLast(s[..|s| - 1], c)
  }

  function AfterLast(s: string, c: char): (r: string)
    ensures |r| <= |s| && r == s[|s| - |r|..] && c !in r
    ensures c in s <==> |r| < |s|
    ensures c in s ==> s[|s| - |r| - 1] == c
  {
    if s == "" || s[|s| - 1] == c then ""
    else
      assert s == s[..|s| - 1] + [s[|s| - 1]];
      AfterLast(s[..|s| - 1], c) + [s[|s| - 1]]
  }

  function ParseCommand(key: string): Option<string> {
    if !("SERVICE_" <= key) then None
    else
      var count := CountChar(key, '_');
      if count != 2 && count != 3 then None
      else
        var rest := key[8..];
        if count == 3 && ("SERVICE_FQDN" <= key || "SERVICE_URL" <= key) then Some(Split(rest, '_')[0])
        else Some(BeforeLast(rest, '_'))
  }

  function Unprefixed(key: string): string {
    if "SERVICE_URL_" <= key then key[12..]
    else if "SERVICE_FQDN_" <= key then key[13..]
    else key
  }

  /** The name and the port of an FQDN or URL variable; None where the slice index
      underflows, which is a panic. */
  function SplitServiceName(key: string): Option<(string, Option<string>)> {
    var rest := Unprefixed(key);
    var last := AfterLast(rest, '_');
    if !Digits(last) then Some((rest, None))
    else if |rest| - |last| - 1 < 0 then None
    else Some((rest[..|rest| - |last| - 1], Some(last)))
  }

  /** The commands a value is generated for. */
  predicate Generates(command: string) {
    command in {"PASSWORD", "PASSWORD_64", "PASSWORDWITHSYMBOLS", "PASSWORDWITHSYMBOLS_64", "BASE64", "BASE64_32",
                "BASE64_64", "BASE64_128", "REALBASE64", "REALBASE64_32", "REALBASE64_64", "REALBASE64_128",
                "HEX_32", "HEX_64", "HEX_128", "USER", "LOWERCASEUSER"}
  }

  predicate IsToken(command: string) { command == "SUPABASEANON" || command == "SUPABASESERVICE" }

  predicate IsSecret(command: string) {
    (Generates(command) && command != "USER" && command != "LOWERCASEUSER") || IsToken(command)
  }

  function Role(command: string): string { if command == "SUPABASEANON" then "anon" else "service_role" }

  // ----- resolution ---------------------------------------------------------------------------

  type Store = map<string, string>
  type Env = map<string, (string, bool)>

  /** What the random generator and the signer answer in one run. */
  datatype Oracle = Oracle(value: string -> string, jwtKey: string, sign: (string, string) -> string)

  datatype Fqdn = Fqdn(host: string, url: string, port: Option<string>)

  /** The variables so far, and the first FQDN of each service name. */
  datatype Progress = Progress(env: Env, fqdns: seq<(string, Fqdn)>)

  function PutPersisted(env: Env, store: Store, key: string, value: string, once: bool): Env {
    env[key := (if key in store then store[key] else value, once)]
  }

  function Lower(c: char): char { if 'A' <= c <= 'Z' then c + 32 as char else c }
  function Upper(c: char): char { if 'a' <= c <= 'z' then c - 32 as char else c }

  function Normalize(name: string): string {
    if name == "" then ""
    else [if name[0] == '-' || name[0] == '.' then '_' else Lower(name[0])] + Normalize(name[1..])
  }

  function UpperCase(s: string): string {
    if s == "" then "" else [Upper(s[0])] + UpperCase(s[1..])
  }

  /** The FQDN and the URL variable of `name`. */
  function PutPair(env: Env, store: Store, name: string, host: string): Env {
    PutPersisted(PutPersisted(env, store, "SERVICE_FQDN_" + name, host, false),
                 store, "SERVICE_URL_" + name, "https://" + host, false)
  }

  function ResolveFqdn(p: Progress, name: string, declared: Option<string>, base: string, store: Store): Option<Progress> {
    match SplitServiceName(name)
    case None => None
    case Some((preserved, port)) =>
      var path := if declared.Some? && "/" <= declared.value && declared.value != "/" then declared.value else "";
      var env := PutPair(p.env, store, preserved, base + path);
      var env := if port.None? then env
                 else PutPair(env, store, preserved + "_" + port.value, base + ":" + port.value + path);
      Some(Progress(env, OrInsert(p.fqdns, Normalize(preserved), Fqdn(base, "https://" + (base + path), port))))
  }

  function EnsureJwtKey(env: Env, store: Store, o: Oracle): (string, Env) {
    if JWT_KEY in store then (store[JWT_KEY], env)
    else if JWT_KEY in env then (env[JWT_KEY].0, env)
    else (o.jwtKey, env[JWT_KEY := (o.jwtKey, true)])
  }

  function ResolveValue(env: Env, name: string, command: string, store: Store, o: Oracle): Env {
    var once := IsSecret(command);
    if name in store then env[name := (store[name], once)]
    else if IsToken(command) then
      var (key, env) := EnsureJwtKey(env, store, o);
      env[name := (o.sign(Role(command), key), once)]
    else if Generates(command) then env[name := (o.value(name), once)]
    else env
  }

  function ResolveOne(p: Progress, e: Entry, base: string, store: Store, o: Oracle): Option<Progress> {
    match ParseCommand(e.0)
    case None => Some(p)
    case Some(command) =>
      if command == "FQDN" || command == "URL" then ResolveFqdn(p, e.0, e.1, base, store)
      else Some(p.(env := ResolveValue(p.env, e.0, command, store, o)))
  }

  /** The loop over the variables in key order. */
  function ResolveAll(p: Progress, magic: seq<Entry>, base: string, store: Store, o: Oracle): Option<Progress>
    decreases |magic|
  {
    if |magic| == 0 then Some(p)
    else
      match ResolveOne(p, magic[0], base, store, o)
      case None => None
      case Some(q) => ResolveAll(q, magic[1..], base, store, o)
  }

  function NameVars(env: Env, services: seq<string>, store: Store): Env
    decreases |services|
  {
    if |services| == 0 then env
    else NameVars(PutPersisted(env, store, "SERVICE_NAME_" + UpperCase(Normalize(services[0])), services[0], false),
                  services[1..], store)
  }

  function Hosts(fqdns: seq<(string, Fqdn)>): seq<string> {
    seq(|fqdns|, i requires 0 <= i < |fqdns| => fqdns[i].1.host)
  }

  function Urls(fqdns: seq<(string, Fqdn)>): seq<string> {
    seq(|fqdns|, i requires 0 <= i < |fqdns| => fqdns[i].1.url)
  }

  function Bookkeeping(p: Progress, uuid: string, key: string, services: seq<string>, store: Store): Env {
    var env := PutPersisted(p.env, store, "COOLIFY_RESOURCE_UUID", uuid, false);
    var env := PutPersisted(env, store, "COOLIFY_CONTAINER_NAME", key + "-" + uuid, false);
    var env := NameVars(env, services, store);
    if |p.fqdns| == 0 then env
    else
      var env := PutPersisted(env, store, "COOLIFY_FQDN", Join(Hosts(p.fqdns), ","), false);
      PutPersisted(env, store, "COOLIFY_URL", Join(Urls(p.fqdns), ","), false)
  }

  /** What a template declares and refers to, with the other inputs of a deployment. */
  datatype Template = Template(services: seq<string>, magic: seq<Entry>, uuid: string, key: string, base: string)

  function Resolve(t: Template, store: Store, o: Oracle): Option<Env> {
    match ResolveAll(Progress(map[], []), t.magic, t.base, store, o)
    case None => None
    case Some(p) => Some(Bookkeeping(p, t.uuid, t.key, t.services, store))
  }

  /** The store after the deployment has upserted every variable. */
  function Upserted(store: Store, env: Env): Store {
    map k | k in store.Keys + env.Keys :: if k in env then env[k].0 else store[k]
  }

  // ----- commands of two-part names ---------------------------------------------------------------

  lemma {:induction false} CountAppend(a: string, b: string, c: char)
    ensures CountChar(a + b, c) == CountChar(a, c) + CountChar(b, c)
  {
    if a == "" {
      assert a + b == b;
    } else {
      assert (a + b)[1..] == a[1..] + b;
      CountAppend(a[1..], b, c);
    }
  }

  lemma {:induction false} CountAbsent(s: string, c: char)
    requires c !in s
    ensures CountChar(s, c) == 0
  {
    if s != "" { CountAbsent(s[1..], c); }
  }

  lemma {:induction false} BeforeLastExact(a: string, c: char, b: string)
    requires c !in b
    ensures BeforeLast(a + [c] + b, c) == a
    decreases |b|
  {
    var s := a + [c] + b;
    assert s[|a|] == c;
    if b == "" {
      assert s[..|s| - 1] == a;
    } else {
      assert s[..|s| - 1] == a + [c] + b[..|b| - 1];
      BeforeLastExact(a, c, b[..|b| - 1]);
    }
  }

  lemma CountParts(command: string, id: string)
    requires '_' !in command
    ensures CountChar("SERVICE_" + command + "_" + id, '_') == 2 + CountChar(id, '_')
  {
    CountAppend("SERVICE_" + command + "_", id, '_');
    CountAppend("SERVICE_" + command, "_", '_');
    CountAppend("SERVICE_", command, '_');
    CountAbsent(command, '_');
    assert CountChar("SERVICE_", '_') == 1 && CountChar("_", '_') == 1;
  }

  lemma TwoPartCommand(command: string, id: string)
    requires '_' !in command && '_' !in id
    ensures ParseCommand("SERVICE_" + command + "_" + id) == Some(command)
  {
    var name := "SERVICE_" + command + "_" + id;
    CountParts(command, id);
    CountAbsent(id, '_');
    assert name[8..] == command + ['_'] + id;
    BeforeLastExact(command, '_', id);
  }

  // ----- what one variable writes -------------------------------------------------------------

  predicate PairKey(name: string, k: string) { k == "SERVICE_FQDN_" + name || k == "SERVICE_URL_" + name }

  /** The keys of the pairs that an FQDN or URL variable sets. */
  predicate FqdnKey(name: string, k: string) {
    match SplitServiceName(name)
    case None => false
    case Some((preserved, port)) =>
      PairKey(preserved, k) || (port.Some? && PairKey(preserved + "_" + port.value, k))
  }

  predicate IsFqdn(command: string) { command == "FQDN" || command == "URL" }

  /** The keys that the variable `name` sets when `store` is what an earlier run left. */
  predicate Writes(name: string, store: Store, k: string) {
    match ParseCommand(name)
    case None => false
    case Some(command) =>
      if IsFqdn(command) then FqdnKey(name, k)
      else
        || (k == name && (name in store || IsToken(command) || Generates(command)))
        || (k == JWT_KEY && IsToken(command) && name !in store && JWT_KEY !in store)
  }

  predicate AnyWrites(magic: seq<Entry>, store: Store, k: string) {
    |magic| > 0 && (Writes(magic[0].0, store, k) || AnyWrites(magic[1..], store, k))
  }

  lemma PairStep(env: Env, store: Store, name: string, host: string, k: string)
    requires Respects(env, store)
    ensures var out := PutPair(env, store, name, host);
            && Respects(out, store)
            && (k in out <==> k in env || PairKey(name, k))
            && (k in env && !PairKey(name, k) ==> out[k] == env[k])
  {
  }

  /** A step sets exactly its keys, and what it does not set stays. */
  lemma FqdnStep(p: Progress, name: string, declared: Option<string>, base: string, store: Store, k: string)
    requires Respects(p.env, store)
    ensures ResolveFqdn(p, name, declared, base, store).Some? <==> SplitServiceName(name).Some?
    ensures ResolveFqdn(p, name, declared, base, store).Some? ==>
              var env := ResolveFqdn(p, name, declared, base, store).value.env;
              && Respects(env, store)
              && (k in env <==> k in p.env || FqdnKey(name, k))
              && (k in p.env && !FqdnKey(name, k) ==> env[k] == p.env[k])
  {
    if SplitServiceName(name).Some? {
      var (preserved, port) := SplitServiceName(name).value;
      var path := if declared.Some? && "/" <= declared.value && declared.value != "/" then declared.value else "";
      PairStep(p.env, store, preserved, base + path, k);
      if port.Some? {
        PairStep(PutPair(p.env, store, preserved, base + path), store, preserved + "_" + port.value,
                 base + ":" + port.value + path, k);
      }
    }
  }

  lemma ValueStep(env: Env, name: string, command: string, store: Store, o: Oracle, k: string)
    requires Respects(env, store) && ParseCommand(name) == Some(command) && !IsFqdn(command)
    ensures var out := ResolveValue(env, name, command, store, o);
            && Respects(out, store)
            && (k in out <==> k in env || Writes(name, store, k))
            && (k in env && k != name ==> out[k] == env[k])
  {
  }

  lemma Step(p: Progress, e: Entry, base: string, store: Store, o: Oracle, k: string)
    requires Respects(p.env, store) && ResolveOne(p, e, base, store, o).Some?
    ensures var q := ResolveOne(p, e, base, store, o).value;
            && Respects(q.env, store)
            && (k in q.env <==> k in p.env || Writes(e.0, store, k))
            && (k in p.env && k != e.0 && !FqdnKey(e.0, k) ==> q.env[k] == p.env[k])
  {
    if ParseCommand(e.0).Some? {
      if IsFqdn(ParseCommand(e.0).value) { FqdnStep(p, e.0, e.1, base, store, k); }
      else { ValueStep(p.env, e.0, ParseCommand(e.0).value, store, o, k); }
    }
  }

  // ----- stored values never change -----------------------------------------------------------

  ghost predicate Respects(env: Env, store: Store) {
    forall k :: k in env && k in store ==> env[k].0 == store[k]
  }

  /** The loop keeps stored values and sets exactly the keys of its variables. */
  lemma {:induction false} LoopSets(p: Progress, magic: seq<Entry>, base: string, store: Store, o: Oracle, k: string)
    requires Respects(p.env, store) && ResolveAll(p, magic, base, store, o).Some?
    ensures var env := ResolveAll(p, magic, base, store, o).value.env;
            && Respects(env, store)
            && (k in env <==> k in p.env || AnyWrites(magic, store, k))
    decreases |magic|
  {
    if |magic| > 0 {
      Step(p, magic[0], base, store, o, k);
      LoopSets(ResolveOne(p, magic[0], base, store, o).value, magic[1..], base, store, o, k);
    }
  }

  predicate NameKey(services: seq<string>, k: string) {
    exists i :: 0 <= i < |services| && k == "SERVICE_NAME_" + UpperCase(Normalize(services[i]))
  }

  lemma {:induction false} NamesSet(env: Env, services: seq<string>, store: Store, k: string)
    requires Respects(env, store)
    ensures var out := NameVars(env, services, store);
            && Respects(out, store)
            && (k in out <==> k in env || NameKey(services, k))
            && (k in env && !("SERVICE_NAME_" <= k) ==> out[k] == env[k])
    decreases |services|
  {
    if |services| > 0 {
      var key := "SERVICE_NAME_" + UpperCase(Normalize(services[0]));
      NamesSet(PutPersisted(env, store, key, services[0], false), services[1..], store, k);
      assert NameKey(services, k) <==> k == key || NameKey(services[1..], k) by {
        if NameKey(services[1..], k) {
          var i :| 0 <= i < |services[1..]| && k == "SERVICE_NAME_" + UpperCase(Normalize(services[1..][i]));
          assert services[i + 1] == services[1..][i];
        }
        if NameKey(services, k) && k != key {
          var i :| 0 <= i < |services| && k == "SERVICE_NAME_" + UpperCase(Normalize(services[i]));
          assert services[1..][i - 1] == services[i];
        }
      }
    }
  }

  predicate CoolifyKey(routed: bool, k: string) {
    k == "COOLIFY_RESOURCE_UUID" || k == "COOLIFY_CONTAINER_NAME" || (routed && (k == "COOLIFY_FQDN" || k == "COOLIFY_URL"))
  }

  lemma BookkeepingSets(p: Progress, uuid: string, key: string, services: seq<string>, store: Store, k: string)
    requires Respects(p.env, store)
    ensures var env := Bookkeeping(p, uuid, key, services, store);
            && Respects(env, store)
            && (k in env <==> k in p.env || NameKey(services, k) || CoolifyKey(|p.fqdns| > 0, k))
            && (k in p.env && !("SERVICE_NAME_" <= k) && !("COOLIFY_" <= k) ==> env[k] == p.env[k])
  {
    hide NameKey, NameVars, Join;
    var env := PutPersisted(PutPersisted(p.env, store, "COOLIFY_RESOURCE_UUID", uuid, false),
                            store, "COOLIFY_CONTAINER_NAME", key + "-" + uuid, false);
    NamesSet(env, services, store, k);
  }

  /** Whatever is stored stays as it is, in the environment and in the store. */
  lemma StoredValuesKept(t: Template, store: Store, o: Oracle)
    requires Resolve(t, store, o).Some?
    ensures Respects(Resolve(t, store, o).value, store)
    ensures forall k :: k in store ==> k in Upserted(store, Resolve(t, store, o).value)
                                       && Upserted(store, Resolve(t, store, o).value)[k] == store[k]
  {
    LoopSets(Progress(map[], []), t.magic, t.base, store, o, "");
    BookkeepingSets(ResolveAll(Progress(map[], []), t.magic, t.base, store, o).value, t.uuid, t.key, t.services, store, "");
  }

  // ----- a second run changes nothing ---------------------------------------------------------

  /** Whether a run panics and which FQDNs it finds depend on the template alone. */
  lemma {:induction false} SameFqdns(p: Progress, q: Progress, magic: seq<Entry>, base: string,
                                     s1: Store, o1: Oracle, s2: Store, o2: Oracle)
    requires p.fqdns == q.fqdns
    ensures var a, b := ResolveAll(p, magic, base, s1, o1), ResolveAll(q, magic, base, s2, o2);
            (a.Some? <==> b.Some?) && (a.Some? ==> a.value.fqdns == b.value.fqdns)
    decreases |magic|
  {
    if |magic| > 0 {
      var a, b := ResolveOne(p, magic[0], base, s1, o1), ResolveOne(q, magic[0], base, s2, o2);
      assert (a.Some? <==> b.Some?) && (a.Some? ==> a.value.fqdns == b.value.fqdns);
      if a.Some? { SameFqdns(a.value, b.value, magic[1..], base, s1, o1, s2, o2); }
    }
  }

  /** `later` is `store` with the keys of a run over `magic` added. */
  ghost predicate AddedBy(magic: seq<Entry>, store: Store, keys: set<string>, later: Store) {
    && later.Keys == store.Keys + keys
    && forall n :: AnyWrites(magic, store, n) ==> n in keys
  }

  lemma LaterWrites(name: string, store: Store, keys: set<string>, later: Store, k: string)
    requires later.Keys == store.Keys + keys && (Writes(name, store, name) ==> name in keys)
    ensures Writes(name, later, k) ==> Writes(name, store, k) || k in keys
    ensures Writes(name, store, k) && k != JWT_KEY ==> Writes(name, later, k)
  {
  }

  /** A key that no FQDN or URL variable sets. */
  predicate OffPairs(k: string) { !("SERVICE_FQDN_" <= k) && !("SERVICE_URL_" <= k) }

  lemma NoFqdnKey(name: string, k: string)
    requires OffPairs(k)
    ensures !FqdnKey(name, k)
  {
    hide SplitServiceName;
  }

  lemma KeyOffPairs()
    ensures OffPairs(JWT_KEY)
  {
    var fqdn, url := "SERVICE_FQDN_", "SERVICE_URL_";
    assert JWT_KEY[8] == 'P' && fqdn[8] == 'F' && url[8] == 'U';
  }

  lemma LaterSignsNothing(name: string, store: Store, keys: set<string>, later: Store)
    requires later.Keys == store.Keys + keys && (Writes(name, store, name) ==> name in keys)
    ensures Writes(name, later, JWT_KEY) ==> name == JWT_KEY
  {
    KeyOffPairs();
    NoFqdnKey(name, JWT_KEY);
  }

  lemma {:induction false} LaterRunWrites(magic: seq<Entry>, store: Store, keys: set<string>, later: Store, k: string)
    requires AddedBy(magic, store, keys, later)
    ensures AnyWrites(magic, later, k) ==> AnyWrites(magic, store, k) || k in keys
    ensures AnyWrites(magic, store, k) && k != JWT_KEY ==> AnyWrites(magic, later, k)
    ensures AnyWrites(magic, later, JWT_KEY) ==> HasKey(magic, JWT_KEY)
    decreases |magic|
  {
    if |magic| > 0 {
      var name := magic[0].0;
      assert AnyWrites(magic, store, name) ==> name in keys;
      LaterWrites(name, store, keys, later, k);
      LaterSignsNothing(name, store, keys, later);
      LaterRunWrites(magic[1..], store, keys, later, k);
      if HasKey(magic[1..], JWT_KEY) {
        var i :| 0 <= i < |magic[1..]| && magic[1..][i].0 == JWT_KEY;
        assert magic[i + 1].0 == JWT_KEY;
      }
    }
  }

  lemma KeyIsWritten(store: Store)
    ensures Writes(JWT_KEY, store, JWT_KEY)
  {
    hide ParseCommand, FqdnKey;
    TwoPartCommand("PASSWORD", "JWT");
    assert JWT_KEY == "SERVICE_" + "PASSWORD" + "_" + "JWT";
  }

  lemma {:induction false} NamedIsWritten(magic: seq<Entry>, store: Store)
    requires HasKey(magic, JWT_KEY)
    ensures AnyWrites(magic, store, JWT_KEY)
    decreases |magic|
  {
    var i :| 0 <= i < |magic| && magic[i].0 == JWT_KEY;
    hide Writes;
    if i == 0 {
      KeyIsWritten(store);
    } else {
      assert magic[1..][i - 1].0 == JWT_KEY;
      NamedIsWritten(magic[1..], store);
    }
  }

  predicate Sets(t: Template, store: Store, routed: bool, k: string) {
    AnyWrites(t.magic, store, k) || NameKey(t.services, k) || CoolifyKey(routed, k)
  }

  function Loop(t: Template, store: Store, o: Oracle): Option<Progress> {
    ResolveAll(Progress(map[], []), t.magic, t.base, store, o)
  }

  lemma ResolveSets(t: Template, store: Store, o: Oracle, k: string)
    requires Resolve(t, store, o).Some?
    ensures Respects(Resolve(t, store, o).value, store)
    ensures k in Resolve(t, store, o).value <==> Sets(t, store, |Loop(t, store, o).value.fqdns| > 0, k)
  {
    LoopSets(Progress(map[], []), t.magic, t.base, store, o, k);
    BookkeepingSets(Loop(t, store, o).value, t.uuid, t.key, t.services, store, k);
  }

  lemma KeyNotBookkept(t: Template, routed: bool)
    ensures !NameKey(t.services, JWT_KEY) && !CoolifyKey(routed, JWT_KEY)
  {
    assert JWT_KEY[8] == 'P' && JWT_KEY[0] == 'S';
  }

  lemma SecondRunSets(t: Template, store: Store, keys: set<string>, later: Store, routed: bool, k: string)
    requires later.Keys == store.Keys + keys && forall n :: n in keys <==> Sets(t, store, routed, n)
    ensures Sets(t, later, routed, k) <==> k in keys && (k == JWT_KEY ==> HasKey(t.magic, JWT_KEY))
  {
    assert AddedBy(t.magic, store, keys, later) by {
      forall n | AnyWrites(t.magic, store, n) ensures n in keys { assert Sets(t, store, routed, n); }
    }
    LaterRunWrites(t.magic, store, keys, later, k);
    KeyNotBookkept(t, routed);
    if HasKey(t.magic, JWT_KEY) { NamedIsWritten(t.magic, later); NamedIsWritten(t.magic, store); }
  }

  lemma UpsertedAgain(store: Store, env: Env)
    requires Respects(env, store) && env.Keys <= store.Keys
    ensures Upserted(store, env) == store
  {
    assert Upserted(store, env).Keys == store.Keys;
  }

  /** Persisting once is a fixed point: a second deployment leaves the store as it is,
      whatever the generator and the signer answer. It sets the same variables, except the
      signing key when the template does not name it: the first run sets that key only to
      sign, and the second has nothing left to sign. */
  lemma SecondRunChangesNothing(t: Template, store: Store, first: Oracle, second: Oracle)
    requires Resolve(t, store, first).Some?
    ensures var env1 := Resolve(t, store, first).value;
            var later := Upserted(store, env1);
            && Resolve(t, later, second).Some?
            && var env2 := Resolve(t, later, second).value;
               && Upserted(later, env2) == later
               && env2.Keys == if HasKey(t.magic, JWT_KEY) then env1.Keys else env1.Keys - {JWT_KEY}
  {
    var env1 := Resolve(t, store, first).value;
    var later := Upserted(store, env1);
    SameFqdns(Progress(map[], []), Progress(map[], []), t.magic, t.base, store, first, later, second);
    var env2 := Resolve(t, later, second).value;
    var routed := |Loop(t, store, first).value.fqdns| > 0;
    forall n ensures n in env1.Keys <==> Sets(t, store, routed, n) { ResolveSets(t, store, first, n); }
    ResolveSets(t, later, second, "");
    forall k ensures k in env2.Keys <==> k in env1.Keys && (k == JWT_KEY ==> HasKey(t.magic, JWT_KEY)) {
      ResolveSets(t, later, second, k);
      SecondRunSets(t, store, env1.Keys, later, routed, k);
    }
    UpsertedAgain(later, env2);
  }

  // ----- tokens are signed with the stored key -------------------------------------------------

  /** What the loop has set stays, once no later variable has that name. */
  lemma {:induction false} LoopKeeps(p: Progress, magic: seq<Entry>, base: string, store: Store, o: Oracle, k: string)
    requires Respects(p.env, store) && ResolveAll(p, magic, base, store, o).Some?
    requires k in p.env && !HasKey(magic, k) && OffPairs(k)
    ensures var env := ResolveAll(p, magic, base, store, o).value.env;
            k in env && env[k] == p.env[k]
    decreases |magic|
  {
    hide FqdnKey, Writes, ResolveOne;
    if |magic| > 0 {
      assert magic[0].0 != k;
      forall i | 0 <= i < |magic[1..]| ensures magic[1..][i].0 != k { assert magic[i + 1].0 != k; }
      NoFqdnKey(magic[0].0, k);
      Step(p, magic[0], base, store, o, k);
      LoopKeeps(ResolveOne(p, magic[0], base, store, o).value, magic[1..], base, store, o, k);
    }
  }

  predicate Token(name: string) { ParseCommand(name).Some? && IsToken(ParseCommand(name).value) }

  /** The token in `env` is signed with the stored key, or with the one in `env`. */
  ghost predicate Signed(env: Env, name: string, store: Store, o: Oracle)
    requires Token(name)
  {
    && name in env
    && (JWT_KEY in store || JWT_KEY in env)
    && env[name].0 == o.sign(Role(ParseCommand(name).value), if JWT_KEY in store then store[JWT_KEY] else env[JWT_KEY].0)
  }

  lemma {:induction false} BeforeLastPrefix(s: string, c: char)
    ensures BeforeLast(s, c) <= s
    decreases |s|
  {
    if c in s && s[|s| - 1] != c { BeforeLastPrefix(s[..|s| - 1], c); }
  }

  lemma CommandPrefix(name: string)
    requires ParseCommand(name).Some?
    ensures "SERVICE_" <= name && ParseCommand(name).value <= name[8..]
  {
    BeforeLastPrefix(name[8..], '_');
    SplitFirst(name[8..], '_');
  }

  /** A token name comes after the key's name, and is no FQDN or URL. */
  lemma TokenName(name: string)
    requires Token(name)
    ensures "SERVICE_S" <= name && LexLess(JWT_KEY, name)
  {
    CommandPrefix(name);
    var rest := name[8..];
    assert rest[0] == 'S' by { assert ParseCommand(name).value[0] == 'S'; }
    LexByPrefix("SERVICE_", "PASSWORD_JWT", rest);
    assert "SERVICE_" + rest == name;
    assert JWT_KEY == "SERVICE_" + "PASSWORD_JWT";
  }

  lemma OrderedTail(magic: seq<Entry>, k: string)
    requires |magic| > 0 && Ordered(magic) && (k == magic[0].0 || LexLess(k, magic[0].0))
    ensures Ordered(magic[1..]) && !HasKey(magic[1..], k)
  {
    LexTrichotomy(k, k);
    forall i | 0 <= i < |magic[1..]| ensures magic[1..][i].0 != k {
      assert LexLess(magic[0].0, magic[i + 1].0);
      if k != magic[0].0 { LexTransitive(k, magic[0].0, magic[i + 1].0); }
    }
  }

  lemma StepSigns(p: Progress, e: Entry, base: string, store: Store, o: Oracle)
    requires Token(e.0) && e.0 !in store && e.0 != JWT_KEY
    ensures ResolveOne(p, e, base, store, o).Some? && Signed(ResolveOne(p, e, base, store, o).value.env, e.0, store, o)
  {
  }

  lemma TokenOffPairs(name: string)
    requires "SERVICE_S" <= name
    ensures OffPairs(name)
  {
    var fqdn, url := "SERVICE_FQDN_", "SERVICE_URL_";
    assert name[8] == 'S' && fqdn[8] == 'F' && url[8] == 'U';
  }

  lemma LoopKeepsSigned(p: Progress, magic: seq<Entry>, base: string, store: Store, o: Oracle, name: string)
    requires Respects(p.env, store) && ResolveAll(p, magic, base, store, o).Some?
    requires Token(name) && Signed(p.env, name, store, o) && !HasKey(magic, name) && !HasKey(magic, JWT_KEY)
    ensures Signed(ResolveAll(p, magic, base, store, o).value.env, name, store, o)
  {
    hide ResolveAll, LexLess, ParseCommand, Role;
    TokenName(name);
    TokenOffPairs(name);
    KeyOffPairs();
    LoopKeeps(p, magic, base, store, o, name);
    if JWT_KEY !in store { LoopKeeps(p, magic, base, store, o, JWT_KEY); }
  }

  /** The loop resolves the key before any token, and nothing after a token touches either. */
  lemma {:induction false} LoopSigns(p: Progress, magic: seq<Entry>, base: string, store: Store, o: Oracle, name: string)
    requires Respects(p.env, store) && ResolveAll(p, magic, base, store, o).Some?
    requires Ordered(magic) && HasKey(magic, name) && Token(name) && name !in store
    ensures Signed(ResolveAll(p, magic, base, store, o).value.env, name, store, o)
    decreases |magic|
  {
    var q := ResolveOne(p, magic[0], base, store, o).value;
    Step(p, magic[0], base, store, o, name);
    if magic[0].0 == name {
      TokenName(name);
      OrderedTail(magic, name);
      OrderedTail(magic, JWT_KEY);
      LexTrichotomy(name, name);
      StepSigns(p, magic[0], base, store, o);
      LoopKeepsSigned(q, magic[1..], base, store, o, name);
    } else {
      var i :| 0 <= i < |magic| && magic[i].0 == name;
      assert magic[1..][i - 1].0 == name;
      LoopSigns(q, magic[1..], base, store, o, name);
    }
  }

  lemma KeptBySuffix(p: Progress, t: Template, store: Store, k: string)
    requires Respects(p.env, store) && k in p.env && (k == JWT_KEY || Token(k))
    ensures var env := Bookkeeping(p, t.uuid, t.key, t.services, store); k in env && env[k] == p.env[k]
  {
    if k != JWT_KEY { TokenName(k); }
    assert k[0] == 'S' && k[8] != 'N';
    BookkeepingSets(p, t.uuid, t.key, t.services, store, k);
  }

  /** Every freshly generated token is signed with the value that the key has in the store
      after the run. */
  lemma TokensMatchTheStoredKey(t: Template, store: Store, o: Oracle, name: string)
    requires Resolve(t, store, o).Some? && Ordered(t.magic)
    requires HasKey(t.magic, name) && Token(name) && name !in store
    ensures var env := Resolve(t, store, o).value;
            && name in env
            && JWT_KEY in Upserted(store, env)
            && env[name].0 == o.sign(if ParseCommand(name) == Some("SUPABASEANON") then "anon" else "service_role",
                                     Upserted(store, env)[JWT_KEY])
  {
    var p := Loop(t, store, o).value;
    LoopSets(Progress(map[], []), t.magic, t.base, store, o, name);
    LoopSigns(Progress(map[], []), t.magic, t.base, store, o, name);
    KeptBySuffix(p, t, store, name);
    if JWT_KEY !in store { KeptBySuffix(p, t, store, JWT_KEY); }
    BookkeepingSets(p, t.uuid, t.key, t.services, store, JWT_KEY);
  }

  // ----- every FQDN comes with its URL -----------------------------------------------------------

  lemma {:induction false} CountZero(s: string, c: char)
    requires CountChar(s, c) == 0
    ensures c !in s
  {
    if s != "" { CountZero(s[1..], c); }
  }

  /** A variable whose name starts like a pair's is resolved as one. */
  lemma PairNameCommand(kind: string, id: string)
    requires (kind == "FQDN" || kind == "URL") && ParseCommand("SERVICE_" + kind + "_" + id).Some?
    ensures ParseCommand("SERVICE_" + kind + "_" + id) == Some(kind)
  {
    var name := "SERVICE_" + kind + "_" + id;
    CountParts(kind, id);
    assert name[8..] == kind + ['_'] + id;
    if CountChar(name, '_') == 2 {
      CountZero(id, '_');
      BeforeLastExact(kind, '_', id);
    } else {
      SplitHead(kind, '_', id);
    }
  }

  /** The variables of `n`, both or neither, and the URL is the FQDN with its scheme unless
      one of the two was stored before. */
  predicate Agree(env: Env, store: Store, n: string) {
    var fqdn, url := "SERVICE_FQDN_" + n, "SERVICE_URL_" + n;
    && (fqdn in env <==> url in env)
    && (fqdn in env && fqdn !in store && url !in store ==> env[url].0 == "https://" + env[fqdn].0)
  }

  lemma PairAgrees(env: Env, store: Store, name: string, host: string, n: string)
    requires Agree(env, store, n)
    ensures Agree(PutPair(env, store, name, host), store, n)
  {
    var fqdn, url := "SERVICE_FQDN_", "SERVICE_URL_";
    assert (fqdn + n)[8] == 'F' && (url + name)[8] == 'U' && (fqdn + name)[8] == 'F' && (url + n)[8] == 'U';
    if name != n {
      assert (fqdn + n)[13..] == n && (fqdn + name)[13..] == name;
      assert (url + n)[12..] == n && (url + name)[12..] == name;
    }
  }

  lemma ValueAgrees(env: Env, store: Store, name: string, command: string, o: Oracle, n: string)
    requires ParseCommand(name) == Some(command) && !IsFqdn(command) && Agree(env, store, n)
    ensures Agree(ResolveValue(env, name, command, store, o), store, n)
  {
    var fqdn, url := "SERVICE_FQDN_", "SERVICE_URL_";
    assert fqdn == "SERVICE_" + "FQDN" + "_" && url == "SERVICE_" + "URL" + "_";
    assert JWT_KEY[8] == 'P' && (fqdn + n)[8] == 'F' && (url + n)[8] == 'U';
    if name == fqdn + n { PairNameCommand("FQDN", n); }
    if name == url + n { PairNameCommand("URL", n); }
  }

  lemma FqdnAgrees(p: Progress, e: Entry, base: string, store: Store, n: string)
    requires Agree(p.env, store, n)
    ensures var r := ResolveFqdn(p, e.0, e.1, base, store); r.Some? ==> Agree(r.value.env, store, n)
  {
    hide Agree, SplitServiceName, PutPair;
    if SplitServiceName(e.0).Some? {
      var (preserved, port) := SplitServiceName(e.0).value;
      var path := if e.1.Some? && "/" <= e.1.value && e.1.value != "/" then e.1.value else "";
      PairAgrees(p.env, store, preserved, base + path, n);
      if port.Some? {
        PairAgrees(PutPair(p.env, store, preserved, base + path), store, preserved + "_" + port.value,
                   base + ":" + port.value + path, n);
      }
    }
  }

  lemma {:induction false} LoopAgrees(p: Progress, magic: seq<Entry>, base: string, store: Store, o: Oracle, n: string)
    requires Agree(p.env, store, n) && ResolveAll(p, magic, base, store, o).Some?
    ensures Agree(ResolveAll(p, magic, base, store, o).value.env, store, n)
    decreases |magic|
  {
    if |magic| > 0 {
      var e := magic[0];
      if ParseCommand(e.0).Some? {
        if IsFqdn(ParseCommand(e.0).value) { FqdnAgrees(p, e, base, store, n); }
        else { ValueAgrees(p.env, store, e.0, ParseCommand(e.0).value, o, n); }
      }
      LoopAgrees(ResolveOne(p, e, base, store, o).value, magic[1..], base, store, o, n);
    }
  }

  lemma NotNameKey(services: seq<string>, k: string)
    requires |k| > 8 && k[8] != 'N'
    ensures !NameKey(services, k)
  {
    var mark := "SERVICE_NAME_";
    assert mark[8] == 'N';
  }

  lemma PairsComeTogether(t: Template, store: Store, o: Oracle, n: string)
    requires Resolve(t, store, o).Some?
    ensures Agree(Resolve(t, store, o).value, store, n)
  {
    hide ResolveAll, Bookkeeping, AnyWrites, NameKey;
    var fqdn, url := "SERVICE_FQDN_" + n, "SERVICE_URL_" + n;
    var p := Loop(t, store, o).value;
    LoopSets(Progress(map[], []), t.magic, t.base, store, o, n);
    LoopAgrees(Progress(map[], []), t.magic, t.base, store, o, n);
    assert fqdn[8] == 'F' && url[8] == 'U' && fqdn[0] == 'S' && url[0] == 'S';
    NotNameKey(t.services, fqdn);
    NotNameKey(t.services, url);
    BookkeepingSets(p, t.uuid, t.key, t.services, store, fqdn);
    BookkeepingSets(p, t.uuid, t.key, t.services, store, url);
  }

  // ----- the one panic ---------------------------------------------------------------------------

  lemma SplitFails(key: string)
    ensures SplitServiceName(key).None? <==> Digits(Unprefixed(key))
  {
    var rest := Unprefixed(key);
    var last := AfterLast(rest, '_');
    if |last| == |rest| { assert last == rest; }
    if Digits(rest) { assert '_' !in rest; }
  }

  /** A variable that names no service, only a port. */
  predicate OnlyPort(name: string) {
    ("SERVICE_FQDN_" <= name && Digits(name[13..])) || ("SERVICE_URL_" <= name && Digits(name[12..]))
  }

  lemma FqdnNames(digits: string)
    requires Digits(digits)
    ensures ParseCommand("SERVICE_FQDN_" + digits) == Some("FQDN") && Unprefixed("SERVICE_FQDN_" + digits) == digits
  {
    TwoPartCommand("FQDN", digits);
    assert "SERVICE_" + "FQDN" + "_" + digits == "SERVICE_FQDN_" + digits;
    assert ("SERVICE_FQDN_" + digits)[8] == 'F';
  }

  lemma UrlNames(digits: string)
    requires Digits(digits)
    ensures ParseCommand("SERVICE_URL_" + digits) == Some("URL") && Unprefixed("SERVICE_URL_" + digits) == digits
  {
    TwoPartCommand("URL", digits);
    assert "SERVICE_" + "URL" + "_" + digits == "SERVICE_URL_" + digits;
  }

  predicate Underflows(name: string) {
    ParseCommand(name).Some? && IsFqdn(ParseCommand(name).value) && SplitServiceName(name).None?
  }

  lemma NoNumber(name: string)
    requires "SERVICE_" <= name
    ensures !Digits(name)
  {
    assert name[0] == 'S';
  }

  lemma UnderflowExact(name: string)
    ensures Underflows(name) <==> OnlyPort(name)
  {
    hide ParseCommand, SplitServiceName, Digits;
    SplitFails(name);
    if "SERVICE_FQDN_" <= name && Digits(name[13..]) {
      assert name == "SERVICE_FQDN_" + name[13..];
      FqdnNames(name[13..]);
    }
    if "SERVICE_URL_" <= name && Digits(name[12..]) {
      assert name == "SERVICE_URL_" + name[12..];
      UrlNames(name[12..]);
    }
    if Underflows(name) {
      CommandPrefix(name);
      NoNumber(name);
    }
  }

  /** Resolution panics exactly when some variable names only a port. */
  lemma {:induction false} PanicsIff(p: Progress, magic: seq<Entry>, base: string, store: Store, o: Oracle)
    ensures ResolveAll(p, magic, base, store, o).None? <==> exists i :: 0 <= i < |magic| && OnlyPort(magic[i].0)
    decreases |magic|
  {
    if |magic| > 0 {
      UnderflowExact(magic[0].0);
      var r := ResolveOne(p, magic[0], base, store, o);
      assert r.None? <==> OnlyPort(magic[0].0);
      if r.Some? {
        PanicsIff(r.value, magic[1..], base, store, o);
        forall i | 0 <= i < |magic[1..]| && OnlyPort(magic[1..][i].0) ensures OnlyPort(magic[i + 1].0) {}
        forall i | 0 < i < |magic| && OnlyPort(magic[i].0) ensures OnlyPort(magic[1..][i - 1].0) {}
      }
    }
  }

  // ----- the loop --------------------------------------------------------------------------------

  method ResolveMagic(magic: seq<Entry>, base: string, store: Store, o: Oracle) returns (r: Option<Progress>)
    ensures r == ResolveAll(Progress(map[], []), magic, base, store, o)
  {
    var p := Progress(map[], []);
    var i := 0;
    while i < |magic|
      invariant 0 <= i <= |magic|
      invariant ResolveAll(p, magic[i..], base, store, o) == ResolveAll(Progress(map[], []), magic, base, store, o)
    {
      var next := ResolveOne(p, magic[i], base, store, o);
      if next.None? { return None; }
      p := next.value;
      i := i + 1;
    }
    r := Some(p);
  }

  /** The variables of one deployment, from the sections and the text of its template. */
  method ParseServiceEnv(sections: seq<Section>, raw: string, services: seq<string>, uuid: string, key: string, base: string,
                         store: Store, o: Oracle) returns (t: Template, r: Option<Env>)
    ensures exists refs :: IsCollected(t.magic, AllDeclarations(sections), refs)
                           && forall name :: name in refs <==> Referenced(raw, name)
    ensures r == Resolve(t, store, o) && t == Template(services, t.magic, uuid, key, base)
  {
    var magic, refs := CollectMagicVars(sections, raw);
    assert IsCollected(magic, AllDeclarations(sections), refs);
    t := Template(services, magic, uuid, key, base);
    var p := ResolveMagic(magic, base, store, o);
    if p.None? { return t, None; }
    r := Some(Bookkeeping(p.value, uuid, key, services, store));
  }
}
