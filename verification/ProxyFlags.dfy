/** The command flags of the Traefik proxy: generating the list from the defaults and the
    custom flags, and extracting the custom flags again before regeneration. */
module ProxyFlags {
  import opened Text

  const RESOLVER: string := "--certificatesresolvers."

  const DEFAULTS: seq<string> := [
    "--ping=true",
    "--ping.entrypoint=http",
    "--api.dashboard=true",
    "--entrypoints.http.address=:80",
    "--entrypoints.https.address=:443",
    "--entrypoints.http.http.encodequerysemicolons=true",
    "--entryPoints.http.http2.maxConcurrentStreams=250",
    "--entrypoints.https.http.encodequerysemicolons=true",
    "--entryPoints.https.http2.maxConcurrentStreams=250",
    "--entrypoints.https.http3",
    "--providers.file.directory=/traefik/dynamic/",
    "--providers.file.watch=true",
    RESOLVER + "letsencrypt.acme.httpchallenge=true",
    RESOLVER + "letsencrypt.acme.httpchallenge.entrypoint=http",
    RESOLVER + "letsencrypt.acme.storage=/traefik/acme.json",
    "--api.insecure=false",
    "--providers.docker=true",
    "--providers.docker.exposedbydefault=false"
  ]

  const DEFAULT_PREFIXES: seq<string> := [
    "--ping=",
    "--api.",
    "--entrypoints.http.address=",
    "--entrypoints.https.address=",
    "--entrypoints.http.http.encodequerysemicolons=",
    "--entryPoints.http.http2.maxConcurrentStreams=",
    "--entrypoints.https.http.encodequerysemicolons=",
    "--entryPoints.https.http2.maxConcurrentStreams=",
    "--entrypoints.https.http3",
    "--providers.file.",
    RESOLVER,
    "--providers.docker",
    "--providers.swarm",
    "--log.level=",
    "--accesslog."
  ]

  predicate HasDefaultPrefix(flag: string) {
    exists i :: 0 <= i < |DEFAULT_PREFIXES| && DEFAULT_PREFIXES[i] <= flag
  }

  /** Appends each flag that is not in the list yet. */
  function AppendNew(command: seq<string>, custom: seq<string>): seq<string>
    decreases |custom|
  {
    if custom == [] then command
    else AppendNew(if custom[0] in command then command else command + [custom[0]], custom[1..])
  }

  function Generated(custom: seq<string>): seq<string> { AppendNew(DEFAULTS, custom) }

  /** The flags that no default prefix matches, in order. */
  function Extracted(command: seq<string>): seq<string> {
    if command == [] then []
    else (if HasDefaultPrefix(command[0]) then [] else [command[0]]) + Extracted(command[1..])
  }

  function Regenerated(command: seq<string>): seq<string> { Generated(Extracted(command)) }

  // ----- facts about the two lists ---------------------------------------------------

  predicate Distinct(xs: seq<string>) {
    forall i, j :: 0 <= i < j < |xs| ==> xs[i] != xs[j]
  }

  /** The flags differ pairwise: by length, or else at the position given here. */
  lemma DefaultsDistinct()
    ensures Distinct(DEFAULTS)
  {
    var d := DEFAULTS;
    assert |d[0]| == 11 && |d[1]| == 22 && |d[2]| == 20 && |d[3]| == 30 && |d[4]| == 32 && |d[5]| == 50;
    assert |d[6]| == 49 && |d[7]| == 51 && |d[8]| == 50 && |d[9]| == 25 && |d[10]| == 44 && |d[11]| == 27;
    assert |d[12]| == 59 && |d[13]| == 70 && |d[14]| == 67 && |d[15]| == 20 && |d[16]| == 23 && |d[17]| == 41;
    assert d[2][6] == 'd' && d[15][6] == 'i';
    assert d[5][7] == 'p' && d[8][7] == 'P';
  }

  lemma FirstDefaultsMatched()
    ensures forall i :: 0 <= i < 9 && i != 1 ==> HasDefaultPrefix(DEFAULTS[i])
  {
    var d, p := DEFAULTS, DEFAULT_PREFIXES;
    assert p[0] <= d[0] && p[1] <= d[2] && p[2] <= d[3] && p[3] <= d[4];
    assert p[4] <= d[5] && p[5] <= d[6] && p[6] <= d[7] && p[7] <= d[8];
  }

  lemma FileDefaultsMatched()
    ensures forall i :: 9 <= i < 12 ==> HasDefaultPrefix(DEFAULTS[i])
  {
    var d, p := DEFAULTS, DEFAULT_PREFIXES;
    assert p[8] <= d[9] && p[9] <= d[10] && p[9] <= d[11];
  }

  lemma ResolverDefaultsMatched()
    ensures forall i :: 12 <= i < 15 ==> HasDefaultPrefix(DEFAULTS[i])
  {
    var d, p := DEFAULTS, DEFAULT_PREFIXES;
    assert p[10] <= d[12] && p[10] <= d[13] && p[10] <= d[14];
  }

  lemma DockerDefaultsMatched()
    ensures forall i :: 15 <= i < 18 ==> HasDefaultPrefix(DEFAULTS[i])
  {
    var d, p := DEFAULTS, DEFAULT_PREFIXES;
    assert p[1] <= d[15] && p[11] <= d[16] && p[11] <= d[17];
  }

  /** The prefix list misses exactly one default flag. */
  lemma SecondDefaultNotMatched()
    ensures !HasDefaultPrefix("--ping.entrypoint=http")
  {
    var p, flag := DEFAULT_PREFIXES, "--ping.entrypoint=http";
    forall i | 0 <= i < |p|
      ensures (i == 0 && |p[i]| > 6 && p[i][6] == '=') || (i > 0 && |p[i]| > 3 && (p[i][2] != 'p' || p[i][3] != 'i'))
    {}
    assert flag[6] == '.' && flag[2] == 'p' && flag[3] == 'i';
  }

  lemma ExtractedDefaults()
    ensures Extracted(DEFAULTS) == [DEFAULTS[1]]
  {
    FirstDefaultsMatched();
    FileDefaultsMatched();
    ResolverDefaultsMatched();
    DockerDefaultsMatched();
    SecondDefaultNotMatched();
    var d := DEFAULTS;
    ExtractedNone(d[2..]);
    assert d == [d[0], d[1]] + d[2..];
    assert d[1..] == [d[1]] + d[2..];
    assert d[1..][1..] == d[2..];
  }

  lemma {:induction false} ExtractedNone(xs: seq<string>)
    requires forall i :: 0 <= i < |xs| ==> HasDefaultPrefix(xs[i])
    ensures Extracted(xs) == []
  {
    if xs != [] { ExtractedNone(xs[1..]); }
  }

  // ----- generation -------------------------------------------------------------------

  /** The flags a generation adds: each custom flag that is not there yet, once, in order. */
  function Added(command: seq<string>, custom: seq<string>): seq<string>
    decreases |custom|
  {
    if custom == [] then []
    else if custom[0] in command then Added(command, custom[1..])
    else [custom[0]] + Added(command + [custom[0]], custom[1..])
  }

  lemma {:induction false} AppendsAdded(command: seq<string>, custom: seq<string>)
    ensures AppendNew(command, custom) == command + Added(command, custom)
    decreases |custom|
  {
    if custom != [] {
      if custom[0] in command {
        AppendsAdded(command, custom[1..]);
      } else {
        AppendsAdded(command + [custom[0]], custom[1..]);
      }
    }
  }

  /** Exactly the custom flags that are not in the list, distinct, in the order of their first use. */
  lemma {:induction false} AddedExact(command: seq<string>, custom: seq<string>)
    ensures Distinct(Added(command, custom))
    ensures forall f :: f in Added(command, custom) <==> f in custom && f !in command
    ensures forall i, j :: 0 <= i < j < |Added(command, custom)| ==>
              Added(command, custom)[i] in custom && Added(command, custom)[j] in custom
              && FirstIndex(custom, Added(command, custom)[i]) < FirstIndex(custom, Added(command, custom)[j])
    decreases |custom|
  {
    if custom != [] {
      var c, rest := custom[0], custom[1..];
      assert custom == [c] + rest;
      var next := if c in command then command else command + [c];
      AddedExact(next, rest);
      var r := Added(next, rest);
      forall f | f in rest && f != c ensures f in custom && FirstIndex(custom, f) == 1 + FirstIndex(rest, f) {}
      forall i | 0 <= i < |r| ensures r[i] in rest && r[i] != c { assert r[i] in r; }
    }
  }

  /** Every generated list starts with the defaults, has no duplicates, and keeps every
      other custom flag, in order. */
  lemma GeneratedExact(custom: seq<string>)
    ensures Generated(custom) == DEFAULTS + Added(DEFAULTS, custom)
    ensures Distinct(Generated(custom))
    ensures forall f :: f in custom ==> f in Generated(custom)
  {
    AppendsAdded(DEFAULTS, custom);
    AddedExact(DEFAULTS, custom);
    DefaultsDistinct();
    DistinctConcat(DEFAULTS, Added(DEFAULTS, custom));
  }

  lemma DistinctConcat(a: seq<string>, b: seq<string>)
    requires Distinct(a) && Distinct(b) && forall f :: f in b ==> f !in a
    ensures Distinct(a + b)
  {
    forall i, j | 0 <= i < j < |a + b| ensures (a + b)[i] != (a + b)[j] {
      if i < |a| <= j { assert b[j - |a|] in b && a[i] in a; }
    }
  }

  // ----- regeneration --------------------------------------------------------------------

  lemma {:induction false} ExtractedConcat(a: seq<string>, b: seq<string>)
    ensures Extracted(a + b) == Extracted(a) + Extracted(b)
  {
    if a == [] {
      assert a + b == b;
    } else {
      assert (a + b)[1..] == a[1..] + b;
      ExtractedConcat(a[1..], b);
    }
  }

  lemma DistinctTail(xs: seq<string>)
    requires |xs| > 0 && Distinct(xs)
    ensures Distinct(xs[1..]) && xs[0] !in xs[1..]
  {
  }

  lemma {:induction false} ExtractedExact(xs: seq<string>)
    ensures forall f :: f in Extracted(xs) <==> f in xs && !HasDefaultPrefix(f)
    ensures Distinct(xs) ==> Distinct(Extracted(xs))
    ensures Extracted(xs) == xs <==> forall f :: f in xs ==> !HasDefaultPrefix(f)
    ensures |Extracted(xs)| <= |xs|
  {
    if xs != [] {
      var rest := xs[1..];
      ExtractedExact(rest);
      hide HasDefaultPrefix;
      assert xs == [xs[0]] + rest;
      if Distinct(xs) { DistinctTail(xs); }
      if !HasDefaultPrefix(xs[0]) { assert Extracted(xs)[1..] == Extracted(rest); }
    }
  }

  lemma {:induction false} AddedAll(command: seq<string>, extra: seq<string>)
    requires Distinct(extra) && forall f :: f in extra ==> f !in command
    ensures Added(command, extra) == extra
    decreases |extra|
  {
    if extra != [] {
      assert extra == [extra[0]] + extra[1..];
      AddedAll(command + [extra[0]], extra[1..]);
    }
  }

  /** Regenerating a generated list drops exactly the added flags a default prefix matches. */
  lemma RegeneratedFromGenerated(custom: seq<string>)
    ensures Regenerated(Generated(custom)) == DEFAULTS + Extracted(Added(DEFAULTS, custom))
  {
    var added := Added(DEFAULTS, custom);
    var kept := Extracted(added);
    GeneratedExact(custom);
    AddedExact(DEFAULTS, custom);
    ExtractedConcat(DEFAULTS, added);
    ExtractedDefaults();
    ExtractedExact(added);
    AddedAll(DEFAULTS, kept);
    var missed := DEFAULTS[1];
    assert missed in DEFAULTS;
    assert ([missed] + kept)[1..] == kept;
    AppendsAdded(DEFAULTS, [missed] + kept);
    assert Added(DEFAULTS, [missed] + kept) == Added(DEFAULTS, kept);
  }

  /** From any command list at all, one regeneration reaches a fixed point. */
  lemma RegenerationStabilises(command: seq<string>)
    ensures Regenerated(Regenerated(command)) == Regenerated(command)
  {
    var custom := Extracted(command);
    RegeneratedFromGenerated(custom);
    GeneratedExact(custom);
    AddedExact(DEFAULTS, custom);
    ExtractedExact(command);
    ExtractedExact(Added(DEFAULTS, custom));
  }

  /** Regeneration gives back the generated list exactly if no custom flag that is not
      itself a default looks like one. */
  lemma RegenerationIdentityIff(custom: seq<string>)
    ensures Regenerated(Generated(custom)) == Generated(custom)
            <==> forall f :: f in custom ==> f in DEFAULTS || !HasDefaultPrefix(f)
  {
    var added := Added(DEFAULTS, custom);
    RegeneratedFromGenerated(custom);
    GeneratedExact(custom);
    AddedExact(DEFAULTS, custom);
    ExtractedExact(added);
    SamePrefixSameRest(DEFAULTS, Extracted(added), added);
  }

  lemma SamePrefixSameRest(a: seq<string>, x: seq<string>, y: seq<string>)
    ensures a + x == a + y <==> x == y
  {
    assert (a + x)[|a|..] == x && (a + y)[|a|..] == y;
  }

  // ----- the code ----------------------------------------------------------------------------

  method GenerateCommand(custom: seq<string>) returns (command: seq<string>)
    ensures command == Generated(custom)
  {
    command := DEFAULTS;
    assert custom[0..] == custom;
    for i := 0 to |custom|
      invariant AppendNew(command, custom[i..]) == Generated(custom)
    {
      assert custom[i..][1..] == custom[i + 1..];
      if custom[i] !in command { command := command + [custom[i]]; }
    }
  }
}
