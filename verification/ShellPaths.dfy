/** When the paths that the `ssh` command contains unquoted are read as they are meant. */
module ShellPaths {
  import opened Text
  import opened Shell
  import opened ShellCommand

  function Dashes(s: string): nat {
    if s == "" then 0 else (if s[0] == '-' then 1 else 0) + Dashes(s[1..])
  }

  lemma {:induction false} DashesConcat(a: string, b: string)
    ensures Dashes(a + b) == Dashes(a) + Dashes(b)
  {
    if a == "" {
      assert a + b == b;
    } else {
      DashesConcat(a[1..], b);
      assert (a + b)[1..] == a[1..] + b;
    }
  }

  lemma DashesOf(c: char)
    ensures Dashes([c]) == if c == '-' then 1 else 0
  {
    assert [c][1..] == "";
  }

  predicate BeforeOption(r: string) { |r| >= 2 && r[0] == ' ' && r[1] == '-' }

  // ----- expansions ---------------------------------------------------------------------

  predicate Unexpanded(a: string) { forall i :: 0 <= i < |a| ==> !Expands(a[i]) }

  /** The first word of the text begins with an unquoted tilde. */
  predicate TildeFirst(a: string)
    decreases |a|
  {
    if a == "" then false
    else if Blank(a[0]) then TildeFirst(a[1..])
    else if "\\\n" <= a then TildeFirst(a[2..])
    else a[0] == '~'
  }

  /** What is read of the text does not hang on what the machine makes of expansions, or
      the machine makes nothing of them. */
  ghost predicate Settled(m: Machine, a: string) { Unexpanded(a) || Drops(m) }

  lemma SettledTail(m: Machine, a: string, n: nat)
    requires Settled(m, a) && n <= |a|
    ensures Settled(m, a[n..])
  {
    if Unexpanded(a) { assert forall i :: 0 <= i < |a[n..]| ==> a[n..][i] == a[n + i]; }
  }

  // ----- words that stray -----------------------------------------------------------------

  /** `w` cannot be the word `a`: it is shorter than `a`, or than `a` is long if something of
      `a` was dropped, or it has a dash too many. */
  predicate Strays(w: string, a: string, dropped: bool) {
    |w| + (if dropped then 1 else 0) <= |a| || Dashes(w) > Dashes(a)
  }

  /** The first `n` characters of `a` have contributed `head`, which has no fewer dashes. */
  lemma ThenStrays(head: string, n: nat, o: Option<(string, string)>, a: string, before: bool, dropped: bool)
    requires n <= |a| && |head| <= n && Dashes(head) >= Dashes(a[..n])
    requires o.Some? && Strays(o.value.0, a[n..], before) && (dropped ==> before || |head| < n)
    ensures Then(head, o).Some? && Strays(Then(head, o).value.0, a, dropped)
  {
    DashesConcat(head, o.value.0);
    DashesConcat(a[..n], a[n..]);
    assert a == a[..n] + a[n..];
  }

  /** A word that is read from a written text before an option either ends inside that text,
      and then has lost its quoting characters, or has swallowed the option's dash. */
  lemma {:induction false} WordStrays(m: Machine, a: string, r: string, mode: Mode)
    requires BeforeOption(r) && Settled(m, a) && ReadWord(m, a + r, mode).Some?
    ensures Strays(ReadWord(m, a + r, mode).value.0, a, mode.Bare? && !PlainWord(a))
    decreases |a|
  {
    var s := a + r;
    if a == "" {
      assert s == r;
      if !mode.Bare? { DashSwallowed(m, r, mode); }
    } else {
      assert s[0] == a[0] && s[1..] == a[1..] + r;
      SettledTail(m, a, 1);
      DashesOf(a[0]);
      match mode {
        case Single => SingleStrays(m, a, r);
        case Double => DoubleStrays(m, a, r);
        case Bare => BareStrays(m, a, r);
      }
    }
  }

  lemma {:induction false} SingleStrays(m: Machine, a: string, r: string)
    requires BeforeOption(r) && Settled(m, a) && a != "" && ReadWord(m, a + r, Single).Some?
    ensures Strays(ReadWord(m, a + r, Single).value.0, a, false)
    decreases |a|, 1
  {
    var s := a + r;
    assert s[0] == a[0] && s[1..] == a[1..] + r;
    SettledTail(m, a, 1);
    if a[0] == '\'' {
      WordStrays(m, a[1..], r, Bare);
    } else {
      WordStrays(m, a[1..], r, Single);
      assert [a[0]] == a[..1];
      ThenStrays([a[0]], 1, ReadWord(m, s[1..], Single), a, false, false);
    }
  }

  lemma {:induction false} DoubleStrays(m: Machine, a: string, r: string)
    requires BeforeOption(r) && Settled(m, a) && a != "" && ReadWord(m, a + r, Double).Some?
    ensures Strays(ReadWord(m, a + r, Double).value.0, a, false)
    decreases |a|, 1
  {
    var s := a + r;
    assert s[0] == a[0] && s[1..] == a[1..] + r;
    SettledTail(m, a, 1);
    if a[0] == '"' {
      WordStrays(m, a[1..], r, Bare);
    } else if a[0] == '\\' && Escapable(s[1]) {
      Escaped(m, a, r, Double);
    } else if a[0] == '$' || a[0] == '`' {
      Dropped(m, a, r, Double);
    } else {
      WordStrays(m, a[1..], r, Double);
      assert [a[0]] == a[..1];
      ThenStrays([a[0]], 1, ReadWord(m, s[1..], Double), a, false, false);
    }
  }

  lemma {:induction false} BareStrays(m: Machine, a: string, r: string)
    requires BeforeOption(r) && Settled(m, a) && a != "" && ReadWord(m, a + r, Bare).Some?
    ensures Strays(ReadWord(m, a + r, Bare).value.0, a, !PlainWord(a))
    decreases |a|, 1
  {
    var s := a + r;
    assert s[0] == a[0] && s[1..] == a[1..] + r;
    SettledTail(m, a, 1);
    if EndsWord(a) {
    } else if a[0] == '\'' {
      WordStrays(m, a[1..], r, Single);
    } else if a[0] == '"' {
      WordStrays(m, a[1..], r, Double);
    } else if a[0] == '\\' {
      if |a| == 1 { EscapedBlank(m, a, r); } else { Escaped(m, a, r, Bare); }
    } else if Expands(a[0]) {
      Dropped(m, a, r, Bare);
    } else {
      assert PlainWord(a) <==> PlainWord(a[1..]);
      WordStrays(m, a[1..], r, Bare);
      assert [a[0]] == a[..1];
      ThenStrays([a[0]], 1, ReadWord(m, s[1..], Bare), a, !PlainWord(a), !PlainWord(a));
    }
  }

  /** A backslash is lost, and a newline with it. */
  lemma {:induction false} Escaped(m: Machine, a: string, r: string, mode: Mode)
    requires BeforeOption(r) && Settled(m, a) && |a| > 1 && a[0] == '\\' && !mode.Single?
    requires (mode.Double? ==> Escapable(a[1])) && ReadWord(m, a + r, mode).Some?
    ensures Strays(ReadWord(m, a + r, mode).value.0, a, true)
    decreases |a|, 0
  {
    var s := a + r;
    assert s[1] == a[1] && s[2..] == a[2..] + r && a[..2] == [a[0], a[1]] == [a[0]] + [a[1]];
    SettledTail(m, a, 2);
    WordStrays(m, a[2..], r, mode);
    var head := if a[1] == '\n' then "" else [a[1]];
    DashesConcat([a[0]], [a[1]]);
    DashesOf(a[0]);
    DashesOf(a[1]);
    assert ReadWord(m, s, mode) == Then(head, ReadWord(m, s[2..], mode));
    ThenStrays(head, 2, ReadWord(m, s[2..], mode), a, false, true);
  }

  /** Before an option a backslash makes the blank part of the word. */
  lemma EscapedBlank(m: Machine, a: string, r: string)
    requires BeforeOption(r) && a == "\\" && ReadWord(m, a + r, Bare).Some?
    ensures Strays(ReadWord(m, a + r, Bare).value.0, a, true)
  {
    var s := a + r;
    assert s[1] == ' ' && s[2..] == r[1..];
    DashRead(m, r[1..]);
    DashesOf('\\');
    DashesOf(' ');
    DashesConcat(" ", ReadWord(m, r[1..], Bare).value.0);
  }

  lemma {:induction false} Dropped(m: Machine, a: string, r: string, mode: Mode)
    requires BeforeOption(r) && Settled(m, a) && a != "" && !mode.Single? && Expands(a[0])
    requires (mode.Double? ==> !Wild(a[0])) && ReadWord(m, a + r, mode).Some?
    ensures Strays(ReadWord(m, a + r, mode).value.0, a, true)
    decreases |a|, 0
  {
    var s := a + r;
    assert s[0] == a[0] && s[1..] == a[1..] + r;
    assert Drops(m) && m(s) == (0, "");
    WordStrays(m, a[1..], r, mode);
    assert a[..1] == [a[0]];
    DashesOf(a[0]);
    ThenStrays("", 1, ReadWord(m, s[1..], mode), a, false, true);
  }

  /** In quotes the blank and the dash of an option are part of the word. */
  lemma DashSwallowed(m: Machine, r: string, mode: Mode)
    requires BeforeOption(r) && !mode.Bare? && ReadWord(m, r, mode).Some?
    ensures Dashes(ReadWord(m, r, mode).value.0) > 0
  {
    var o := ReadWord(m, r[2..], mode);
    assert r[1..][1..] == r[2..];
    assert ReadWord(m, r, mode) == Then([' '], Then(['-'], o));
    DashesOf('-');
    DashesConcat(['-'], o.value.0);
    DashesConcat([' '], ['-'] + o.value.0);
  }

  lemma DashRead(m: Machine, s: string)
    requires s != "" && s[0] == '-' && ReadWord(m, s, Bare).Some?
    ensures Dashes(ReadWord(m, s, Bare).value.0) > 0
  {
    var o := ReadWord(m, s[1..], Bare);
    assert ReadWord(m, s, Bare) == Then(['-'], o);
    DashesOf('-');
    DashesConcat(['-'], o.value.0);
  }

  /** The first word of what follows is not a text that does not read as itself. */
  lemma {:induction false} FirstWordStrays(m: Machine, a: string, r: string)
    requires BeforeOption(r) && Settled(m, a) && (!TildeFirst(a) || Drops(m))
    ensures var inv := ReadCommand(m, a + r);
            inv.Some? && |inv.value.words| > 0 ==> Strays(inv.value.words[0], a, !ReadsItself(a))
    decreases |a|
  {
    var s := a + r;
    if a == "" {
      assert s == r;
      var t := r[1..];
      assert t[0] == '-' && ReadCommand(m, s) == ReadCommand(m, t);
      if ReadWord(m, t, Bare).Some? { DashRead(m, t); }
    } else {
      assert s[0] == a[0] && s[1..] == a[1..] + r && s[1] == (if |a| > 1 then a[1] else r[0]);
      SettledTail(m, a, 1);
      if Blank(a[0]) {
        FirstWordStrays(m, a[1..], r);
        DashesOf(a[0]);
        assert !Plain(a[0]);
      } else if "\\\n" <= a {
        Continued(m, a, r);
      } else if a[0] == '~' {
        TildeStrays(m, a, r);
      } else if ReadWord(m, s, Bare).Some? {
        WordStrays(m, a, r, Bare);
      }
    }
  }

  lemma {:induction false} Continued(m: Machine, a: string, r: string)
    requires BeforeOption(r) && Settled(m, a) && (!TildeFirst(a) || Drops(m)) && "\\\n" <= a
    ensures var inv := ReadCommand(m, a + r);
            inv.Some? && |inv.value.words| > 0 ==> Strays(inv.value.words[0], a, true)
    decreases |a|, 0
  {
    var s := a + r;
    assert s[0] == a[0] && s[1] == a[1] && s[2..] == a[2..] + r;
    assert a[..2] == ['\\'] + ['\n'];
    SettledTail(m, a, 2);
    FirstWordStrays(m, a[2..], r);
    DashesOf('\\');
    DashesOf('\n');
    DashesConcat(['\\'], ['\n']);
    DashesConcat(a[..2], a[2..]);
    assert a == a[..2] + a[2..];
  }

  lemma TildeStrays(m: Machine, a: string, r: string)
    requires BeforeOption(r) && a != "" && a[0] == '~' && Drops(m)
    ensures var inv := ReadCommand(m, a + r);
            inv.Some? && |inv.value.words| > 0 ==> Strays(inv.value.words[0], a, true)
  {
    var s := a + r;
    assert s[0] == a[0] && s[1..] == a[1..] + r && m(s) == (0, "");
    if ReadWord(m, s[1..], Bare).Some? {
      WordStrays(m, a[1..], r, Bare);
      assert a[..1] == [a[0]];
      DashesOf(a[0]);
      ThenStrays("", 1, ReadWord(m, s[1..], Bare), a, false, true);
    }
  }

  // ----- the paths of a command ------------------------------------------------------------

  /** A command in which `word` is written as it is and followed by an option. */
  lemma MisreadAt(m: Machine, before: seq<string>, word: string, after: seq<string>, tail: string, inv: Invocation)
    requires |before| > 0 && AllReadAs(m, before, before) && !ReadsItself(word)
    requires Settled(m, word) && (!TildeFirst(word) || Drops(m))
    requires |after| > 0 && after[0] == "-o" && ReadCommand(m, Join(before + [word] + after, " ") + tail) == Some(inv)
    ensures |inv.words| <= |before| || inv.words[|before|] != word
  {
    var r := " " + Join(after, " ") + tail;
    WrittenAt(before, word, after, tail);
    WordsThenTail(m, before, before, " " + (word + r));
    BlankSkipped(m, word + r);
    assert BeforeOption(r) by { assert Join(after, " ")[..2] == "-o"; }
    FirstWordStrays(m, word, r);
    var rest := ReadCommand(m, word + r);
    if rest.Some? && |rest.value.words| > 0 {
      assert inv.words == before + rest.value.words;
      assert inv.words[|before|] == rest.value.words[0];
    }
  }

  lemma Regroup(a: string, b: string, c: string, d: string)
    ensures ((a + " " + b) + " " + c) + d == a + (" " + (b + (" " + c + d)))
  {
  }

  lemma WrittenAt(before: seq<string>, word: string, after: seq<string>, tail: string)
    requires |before| > 0 && |after| > 0
    ensures Join(before + [word] + after, " ") + tail == Join(before, " ") + (" " + (word + (" " + Join(after, " ") + tail)))
  {
    JoinConcat(before + [word], after, " ");
    JoinConcat(before, [word], " ");
    assert Join([word], " ") == word;
    hide *;
    Regroup(Join(before, " "), word, Join(after, " "), tail);
  }

  /** The paths that the program writes as they are. */
  predicate PlainPaths(c: Conn, socket: Option<string>) {
    ReadsItself(c.keyPath) && (socket.Some? ==> PlainWord(socket.value))
  }

  /** What the shell makes of the paths is decided by the text of the command alone. */
  predicate PathsUnexpanded(c: Conn, socket: Option<string>) {
    Unexpanded(c.keyPath) && !TildeFirst(c.keyPath) && (socket.Some? ==> Unexpanded(socket.value))
  }

  function BeforeKey(timeout: nat, socket: Option<string>): seq<string> {
    StartWords(timeout) + MuxOptions(socket) + ["-i"]
  }

  function AfterKey(c: Conn): seq<string> {
    FixedOptions(c)[2..] + (ProxyOption(c) + (["-p", Decimal(c.port)] + [UserAtHost(c), "'bash -se'"]))
  }

  lemma KeyIsWritten(c: Conn, timeout: nat, socket: Option<string>)
    ensures WrittenWords(c, timeout, socket) == BeforeKey(timeout, socket) + [c.keyPath] + AfterKey(c)
    ensures |IntendedWords(c, timeout, socket)| > |BeforeKey(timeout, socket)|
    ensures IntendedWords(c, timeout, socket)[|BeforeKey(timeout, socket)|] == c.keyPath
    ensures |BeforeKey(timeout, socket)| > 0 && AfterKey(c)[0] == "-o"
  {
    var target := [UserAtHost(c), "'bash -se'"];
    assert FixedOptions(c) == ["-i"] + ([c.keyPath] + FixedOptions(c)[2..]);
    hide UserAtHost, ProxyOption, Decimal, StartWords, MuxOptions, FixedOptions;
    RegroupWords(StartWords(timeout) + MuxOptions(socket), ["-i"], [c.keyPath], FixedOptions(c)[2..], ProxyOption(c),
                 ["-p", Decimal(c.port)], target);
  }

  lemma RegroupWords(a: seq<string>, b: seq<string>, c: seq<string>, d: seq<string>, e: seq<string>, f: seq<string>, g: seq<string>)
    ensures a + ((b + (c + d)) + e + f) + g == a + b + c + (d + (e + (f + g)))
  {
  }

  lemma BadKeyMisread(m: Machine, c: Conn, script: string, timeout: nat, socket: Option<string>, nonce: string, input: string)
    requires !ReadsItself(c.keyPath) && (socket.Some? ==> PlainWord(socket.value))
    requires Settled(m, c.keyPath) && (!TildeFirst(c.keyPath) || Drops(m))
    ensures ReadCommand(m, BuildSshCommand(c, script, timeout, socket, nonce)) != Some(Invocation(IntendedWords(c, timeout, socket), input))
  {
    var start := StartWords(timeout) + MuxOptions(socket);
    PlainReadsAs(m, "-i");
    assert AllReadAs(m, ["-i"], ["-i"]);
    hide StartWords, MuxOptions, IntendedWords, WrittenWords, HereDocument, ReadCommand, AfterKey, ReadsAs, AllReadAs, Join, PlainWord;
    StartReadsAs(m, timeout);
    MuxReadsAs(m, socket);
    ReadAsConcat(m, StartWords(timeout), MuxOptions(socket), StartWords(timeout), MuxOptions(socket));
    ReadAsConcat(m, start, ["-i"], start, ["-i"]);
    KeyIsWritten(c, timeout, socket);
    var inv := Invocation(IntendedWords(c, timeout, socket), input);
    if ReadCommand(m, BuildSshCommand(c, script, timeout, socket, nonce)) == Some(inv) {
      MisreadAt(m, BeforeKey(timeout, socket), c.keyPath, AfterKey(c), HereDocument(script, nonce), inv);
    }
  }

  function BeforeSocket(timeout: nat): seq<string> {
    StartWords(timeout) + ["-o", "ControlMaster=auto", "-o"]
  }

  function AfterSocket(c: Conn): seq<string> {
    ["-o", "ControlPersist=" + Decimal(MUX_PERSIST_SECS)] + (CommonOptions(c) + [UserAtHost(c), "'bash -se'"])
  }

  lemma SocketIsWritten(c: Conn, timeout: nat, socket: Option<string>)
    requires socket.Some?
    ensures WrittenWords(c, timeout, socket) == BeforeSocket(timeout) + ["ControlPath=" + socket.value] + AfterSocket(c)
    ensures |IntendedWords(c, timeout, socket)| > |BeforeSocket(timeout)|
    ensures IntendedWords(c, timeout, socket)[|BeforeSocket(timeout)|] == "ControlPath=" + socket.value
    ensures |BeforeSocket(timeout)| > 0 && AfterSocket(c)[0] == "-o"
  {
    hide UserAtHost, CommonOptions, Decimal;
  }

  lemma SocketSettled(m: Machine, socket: string)
    requires Settled(m, socket)
    ensures Settled(m, "ControlPath=" + socket) && !TildeFirst("ControlPath=" + socket)
  {
  }

  lemma BadSocketMisread(m: Machine, c: Conn, script: string, timeout: nat, socket: Option<string>, nonce: string, input: string)
    requires socket.Some? && !PlainWord("ControlPath=" + socket.value) && Settled(m, socket.value)
    ensures ReadCommand(m, BuildSshCommand(c, script, timeout, socket, nonce)) != Some(Invocation(IntendedWords(c, timeout, socket), input))
  {
    var options := ["-o", "ControlMaster=auto", "-o"];
    var word := "ControlPath=" + socket.value;
    SocketSettled(m, socket.value);
    ControlOptionsReadAs(m);
    hide StartWords, MuxOptions, IntendedWords, WrittenWords, HereDocument, ReadCommand, AfterSocket, ReadsAs, AllReadAs, Join, PlainWord;
    StartReadsAs(m, timeout);
    ReadAsConcat(m, StartWords(timeout), options, StartWords(timeout), options);
    SocketIsWritten(c, timeout, socket);
    var inv := Invocation(IntendedWords(c, timeout, socket), input);
    if ReadCommand(m, BuildSshCommand(c, script, timeout, socket, nonce)) == Some(inv) {
      MisreadAt(m, BeforeSocket(timeout), word, AfterSocket(c), HereDocument(script, nonce), inv);
    }
  }

  lemma PlainParts(a: string, b: string)
    requires PlainWord(a + b)
    ensures PlainWord(b)
  {
    forall i | 0 <= i < |b| ensures Plain(b[i]) { assert Plain((a + b)[|a| + i]); }
  }

  lemma PlainPathsNeeded(m: Machine, c: Conn, script: string, timeout: nat, socket: Option<string>, nonce: string, input: string)
    requires (PathsUnexpanded(c, socket) || Drops(m)) && !PlainPaths(c, socket)
    ensures ReadCommand(m, BuildSshCommand(c, script, timeout, socket, nonce)) != Some(Invocation(IntendedWords(c, timeout, socket), input))
  {
    if socket.Some? && !PlainWord(socket.value) {
      if PlainWord("ControlPath=" + socket.value) { PlainParts("ControlPath=", socket.value); }
      BadSocketMisread(m, c, script, timeout, socket, nonce, input);
    } else {
      BadKeyMisread(m, c, script, timeout, socket, nonce, input);
    }
  }

  /** The command does what it is meant to do on the machine `m`: these words, with the script as input. */
  predicate Intended(m: Machine, c: Conn, script: string, timeout: nat, socket: Option<string>, nonce: string) {
    ReadCommand(m, BuildSshCommand(c, script, timeout, socket, nonce))
    == Some(Invocation(IntendedWords(c, timeout, socket), script + "\n"))
  }

  /** Whatever the machine, the command is read as it is meant if and only if the two paths that
      are written as they are read as themselves and the script does not contain the delimiter.
      Nothing is asked of user, host and proxy command. */
  lemma CommandIntendedIff(m: Machine, c: Conn, script: string, timeout: nat, socket: Option<string>, nonce: string)
    requires PlainWord(nonce) && PathsUnexpanded(c, socket)
    ensures Intended(m, c, script, timeout, socket, nonce) <==> PlainPaths(c, socket) && !Contains(script, "RUSTIFY_EOF_" + nonce)
  {
    if PlainPaths(c, socket) {
      CommandRoundTrip(m, c, script, timeout, socket, nonce);
      TransportedIffNoDelimiter(script, nonce);
    } else {
      PlainPathsNeeded(m, c, script, timeout, socket, nonce, script + "\n");
    }
  }

  /** Paths with expansions included: read as meant on every machine are exactly the commands
      with paths that read as themselves. */
  lemma IntendedEverywhereIff(c: Conn, script: string, timeout: nat, socket: Option<string>, nonce: string)
    requires PlainWord(nonce)
    ensures (forall m: Machine :: Intended(m, c, script, timeout, socket, nonce))
            <==> PlainPaths(c, socket) && !Contains(script, "RUSTIFY_EOF_" + nonce)
  {
    if PlainPaths(c, socket) {
      forall m: Machine ensures Intended(m, c, script, timeout, socket, nonce) <==> !Contains(script, "RUSTIFY_EOF_" + nonce) {
        CommandRoundTrip(m, c, script, timeout, socket, nonce);
        TransportedIffNoDelimiter(script, nonce);
      }
      assert Intended(Nothing, c, script, timeout, socket, nonce) <==> !Contains(script, "RUSTIFY_EOF_" + nonce);
    } else {
      PlainPathsNeeded(Nothing, c, script, timeout, socket, nonce, script + "\n");
      assert !Intended(Nothing, c, script, timeout, socket, nonce);
    }
  }
}
