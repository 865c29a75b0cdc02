/** The `ssh` command line that carries a script in a here-document, and what a POSIX shell
    makes of it. */
module ShellCommand {
  import opened Text
  import opened Shell

  // ----- assembling the command -----------------------------------------------------

  datatype Conn = Conn(user: string, host: string, port: nat, keyPath: string, connectTimeout: nat,
                       proxyCommand: Option<string>)

  const MUX_PERSIST_SECS: nat := 3600

  function Quote(s: string): string {
    "'" + Replace(s, "'", "'\\''") + "'"
  }

  function UserAtHost(c: Conn): string { Quote(c.user) + "@" + Quote(c.host) }

  function Delimiter(nonce: string): string { "RUSTIFY_EOF_" + nonce }

  function MuxOptions(socket: Option<string>): seq<string> {
    if socket.None? then []
    else ["-o", "ControlMaster=auto", "-o", "ControlPath=" + socket.value,
          "-o", "ControlPersist=" + Decimal(MUX_PERSIST_SECS)]
  }

  function ProxyOption(c: Conn): seq<string> {
    if c.proxyCommand.Some? && c.proxyCommand.value != ""
    then ["-o", "ProxyCommand=" + Quote(c.proxyCommand.value)] else []
  }

  function FixedOptions(c: Conn): seq<string> {
    ["-i", c.keyPath, "-o", "StrictHostKeyChecking=no", "-o", "UserKnownHostsFile=/dev/null",
     "-o", "PasswordAuthentication=no", "-o", "ConnectTimeout=" + Decimal(c.connectTimeout),
     "-o", "ServerAliveInterval=20", "-o", "RequestTTY=no", "-o", "LogLevel=ERROR"]
  }

  function CommonOptions(c: Conn): seq<string> {
    FixedOptions(c) + ProxyOption(c) + ["-p", Decimal(c.port)]
  }

  function StartWords(timeout: nat): seq<string> {
    if timeout > 0 then ["timeout", Decimal(timeout), "ssh"] else ["ssh"]
  }

  /** The words of the command as they are written, in the order they are appended. */
  function WrittenWords(c: Conn, timeout: nat, socket: Option<string>): seq<string> {
    StartWords(timeout) + MuxOptions(socket) + CommonOptions(c) + [UserAtHost(c), "'bash -se'"]
  }

  function HereDocument(script: string, nonce: string): string {
    var delim := Delimiter(nonce);
    " " + ("<< " + ("\\" + (delim + ("\n" + (Replace(script, delim, "") + "\n" + delim)))))
  }

  function BuildSshCommand(c: Conn, script: string, timeout: nat, socket: Option<string>, nonce: string): string {
    Join(WrittenWords(c, timeout, socket), " ") + HereDocument(script, nonce)
  }

  // ----- quoting --------------------------------------------------------------------------

  lemma EndRead(m: Machine, rest: string)
    requires EndsWord(rest)
    ensures ReadWord(m, rest, Bare) == Some(("", rest))
  {
  }

  lemma ThenLaws(a: string, b: string, tail: Option<(string, string)>)
    ensures Then("", tail) == tail
    ensures Then(a, Then(b, tail)) == Then(a + b, tail)
    ensures forall rest :: Then(a, Some(("", rest))) == Some((a, rest))
  {
    assert a + "" == a;
    if tail.Some? {
      assert "" + tail.value.0 == tail.value.0;
      assert a + (b + tail.value.0) == a + b + tail.value.0;
    }
  }

  lemma ReplaceChar(s: string, c: char, rep: string)
    ensures Replace(s, [c], rep)
            == if s == "" then "" else (if s[0] == c then rep else [s[0]]) + Replace(s[1..], [c], rep)
  {
    if s != "" { assert [c] <= s <==> s[0] == c; }
  }

  /** Inside quotes, the replacement of a quote reads as one. */
  lemma QuotedQuote(m: Machine, u: string)
    ensures ReadWord(m, "'\\''" + u, Single) == Then("'", ReadWord(m, u, Single))
  {
    assert ("'\\''" + u)[1..] == "\\''" + u;
    assert ("\\''" + u)[2..] == "'" + u;
    assert ("'" + u)[1..] == u;
    assert ReadWord(m, "'" + u, Bare) == ReadWord(m, u, Single);
    assert ReadWord(m, "\\''" + u, Bare) == Then("'", ReadWord(m, "'" + u, Bare));
  }

  lemma EndQuote(m: Machine, rest: string)
    ensures ReadWord(m, "'" + rest, Single) == ReadWord(m, rest, Bare)
  {
    assert ("'" + rest)[1..] == rest;
  }

  lemma QuotedPlain(m: Machine, c: char, u: string)
    requires c != '\''
    ensures ReadWord(m, [c] + u, Single) == Then([c], ReadWord(m, u, Single))
  {
    assert ([c] + u)[1..] == u;
  }

  lemma QuotedEmpty(m: Machine, rest: string)
    ensures ReadWord(m, Replace("", "'", "'\\''") + "'" + rest, Single) == Then("", ReadWord(m, rest, Bare))
  {
    hide ReadWord;
    assert Replace("", "'", "'\\''") == "";
    assert "" + "'" + rest == "'" + rest;
    EndQuote(m, rest);
    ThenLaws("", "", ReadWord(m, rest, Bare));
  }

  /** The printed form of a quote or another character, before the printed rest. */
  lemma QuotedChar(s: string, rep: string, rest: string)
    requires s != ""
    ensures Replace(s, "'", rep) + "'" + rest
            == (if s[0] == '\'' then rep else [s[0]]) + (Replace(s[1..], "'", rep) + "'" + rest)
  {
    ReplaceChar(s, '\'', rep);
    hide Replace;
    var c, u := if s[0] == '\'' then rep else [s[0]], Replace(s[1..], "'", rep);
    assert c + u + "'" + rest == c + (u + "'" + rest);
  }

  lemma {:induction false} QuotedBody(m: Machine, s: string, rest: string)
    ensures ReadWord(m, Replace(s, "'", "'\\''") + "'" + rest, Single) == Then(s, ReadWord(m, rest, Bare))
  {
    hide *;
    if s == "" {
      QuotedEmpty(m, rest);
    } else {
      var u := Replace(s[1..], "'", "'\\''") + "'" + rest;
      QuotedBody(m, s[1..], rest);
      QuotedChar(s, "'\\''", rest);
      if s[0] == '\'' { QuotedQuote(m, u); } else { QuotedPlain(m, s[0], u); }
      assert s == [s[0]] + s[1..];
      ThenLaws([s[0]], s[1..], ReadWord(m, rest, Bare));
    }
  }

  /** Inside a word, the quoted text contributes exactly its characters. */
  lemma QuoteRead(m: Machine, s: string, rest: string)
    ensures ReadWord(m, Quote(s) + rest, Bare) == Then(s, ReadWord(m, rest, Bare))
  {
    QuotedBody(m, s, rest);
    var body := Replace(s, "'", "'\\''") + "'" + rest;
    assert Quote(s) + rest == "'" + body;
    hide Quote, Replace, Then;
    OpenQuote(m, body);
  }

  lemma OpenQuote(m: Machine, body: string)
    ensures ReadWord(m, "'" + body, Bare) == ReadWord(m, body, Single)
  {
    assert ("'" + body)[1..] == body;
  }

  lemma {:induction false} PlainRead(m: Machine, w: string, rest: string)
    requires PlainWord(w)
    ensures ReadWord(m, w + rest, Bare) == Then(w, ReadWord(m, rest, Bare))
  {
    if w == "" {
      assert w + rest == rest;
      ThenLaws("", "", ReadWord(m, rest, Bare));
    } else {
      ThenLaws([w[0]], w[1..], ReadWord(m, rest, Bare));
      PlainRead(m, w[1..], rest);
      assert (w + rest)[1..] == w[1..] + rest;
      assert w == [w[0]] + w[1..];
    }
  }

  /** Any text at all survives quoting: the shell reads one word, the text itself. */
  lemma QuoteRoundTrip(m: Machine, s: string, rest: string)
    requires EndsWord(rest)
    ensures ReadWord(m, Quote(s) + rest, Bare) == Some((s, rest))
  {
    QuoteRead(m, s, rest);
    ThenLaws(s, "", None);
  }

  lemma UserAtHostSplit(c: Conn, rest: string)
    ensures UserAtHost(c) + rest == Quote(c.user) + ("@" + (Quote(c.host) + rest))
  {
    hide Quote;
  }

  lemma UserAtHostRoundTrip(m: Machine, c: Conn, rest: string)
    requires EndsWord(rest)
    ensures ReadWord(m, UserAtHost(c) + rest, Bare) == Some((c.user + "@" + c.host, rest))
  {
    var tail := Quote(c.host) + rest;
    UserAtHostSplit(c, rest);
    assert PlainWord("@");
    hide *;
    EndRead(m, rest);
    QuoteRead(m, c.host, rest);
    PlainRead(m, "@", tail);
    QuoteRead(m, c.user, "@" + tail);
    var end := ReadWord(m, rest, Bare);
    ThenLaws("@", c.host, end);
    ThenLaws(c.user, "@" + c.host, end);
    assert c.user + ("@" + c.host) == c.user + "@" + c.host;
    ThenLaws(c.user + "@" + c.host, "", None);
  }

  // ----- the here-document -------------------------------------------------------------------

  lemma {:induction false} LinesContained(s: string, c: char, line: string)
    requires line in Split(s, c)
    ensures Contains(s, line)
    decreases |s|
  {
    if s == "" {
      assert OccursAt(s, line, 0);
    } else {
      var tail := Split(s[1..], c);
      assert s == [s[0]] + s[1..];
      if s[0] == c {
        if line == "" {
          assert OccursAt(s, line, 0);
        } else {
          LinesContained(s[1..], c, line);
          ContainsShift([s[0]], s[1..], line);
        }
      } else {
        SplitFirst(s[1..], c);
        if line == [s[0]] + tail[0] {
          assert s[..|line|] == line;
          assert OccursAt(s, line, 0);
        } else {
          assert line in tail[1..];
          LinesContained(s[1..], c, line);
          ContainsShift([s[0]], s[1..], line);
        }
      }
    }
  }

  function Unlines(lines: seq<string>): string {
    if |lines| == 0 then "" else lines[0] + "\n" + Unlines(lines[1..])
  }

  /** The lines before the first one that is `line`, or all of them. */
  function LinesBefore(lines: seq<string>, line: string): seq<string> {
    if line in lines then lines[..FirstIndex(lines, line)] else lines
  }

  lemma LinesBeforeCons(line: string, lines: seq<string>, delim: string)
    requires line != delim
    ensures Unlines(LinesBefore([line] + lines, delim)) == line + "\n" + Unlines(LinesBefore(lines, delim))
  {
    var all := [line] + lines;
    assert all[1..] == lines;
    assert LinesBefore(all, delim) == [line] + LinesBefore(lines, delim);
    assert LinesBefore(all, delim)[1..] == LinesBefore(lines, delim);
  }

  /** Exactly the lines before the first one that is the delimiter arrive; if there is none,
      that is the script and a newline, and otherwise it is shorter. */
  lemma {:induction false} HereDocExact(s: string, delim: string)
    requires '\n' !in delim
    ensures ReadHereDoc(s + "\n" + delim, delim) == Some(Unlines(LinesBefore(Split(s, '\n'), delim)))
    ensures delim !in Split(s, '\n') ==> ReadHereDoc(s + "\n" + delim, delim) == Some(s + "\n")
    ensures delim in Split(s, '\n') ==> |ReadHereDoc(s + "\n" + delim, delim).value| <= |s|
    decreases |s|
  {
    var t := s + "\n" + delim;
    match SplitOnce(s, '\n') {
      case None =>
        NoNewline(s, '\n');
        SplitOnceExact(s, '\n', delim);
        SplitOnceExact(delim, '\n', "");
        SplitPlain(s, '\n');
        assert Unlines([s]) == s + "\n" + Unlines([]) == s + "\n";
      case Some((line, rest)) =>
        SplitOnceParts(s, '\n');
        assert t == line + ['\n'] + (rest + "\n" + delim);
        SplitOnceExact(line, '\n', rest + "\n" + delim);
        SplitHead(line, '\n', rest);
        HereDocExact(rest, delim);
        assert s + "\n" == line + "\n" + (rest + "\n");
        if line != delim { LinesBeforeCons(line, Split(rest, '\n'), delim); }
    }
  }

  lemma {:induction false} NoNewline(s: string, c: char)
    requires SplitOnce(s, c).None?
    ensures c !in s
  {
    if s != "" { NoNewline(s[1..], c); }
  }

  lemma {:induction false} SplitOnceParts(s: string, c: char)
    requires SplitOnce(s, c).Some?
    ensures var (a, b) := SplitOnce(s, c).value;
            s == a + [c] + b && c !in a
  {
    if s[0] != c { SplitOnceParts(s[1..], c); }
  }

  /** What the remote shell gets on its standard input. */
  function Transported(script: string, nonce: string): Option<string> {
    var delim := Delimiter(nonce);
    ReadHereDoc(Replace(script, delim, "") + "\n" + delim, delim)
  }

  /** The script arrives with one newline after it exactly if it does not contain the delimiter. */
  lemma TransportedIffNoDelimiter(script: string, nonce: string)
    requires PlainWord(nonce)
    ensures Transported(script, nonce) == Some(script + "\n") <==> !Contains(script, "RUSTIFY_EOF_" + nonce)
  {
    var delim := Delimiter(nonce);
    var sent := Replace(script, delim, "");
    NoNewlineInDelimiter(nonce);
    HereDocExact(sent, delim);
    ReplaceShortens(script, delim);
    if !Contains(script, delim) {
      ReplaceAbsent(script, delim, "");
      if delim in Split(script, '\n') { LinesContained(script, '\n', delim); }
    }
  }

  lemma Spliced(d: string, script: string)
    requires |d| >= 2 && d[1] != d[0] && script == [d[0]] + (d + d[1..])
    ensures Replace(script, d, "") == d
  {
    assert script[1] != d[1];
    assert (d + d[1..])[|d|..] == d[1..];
    assert Replace(d + d[1..], d, "") == "" + Replace(d[1..], d, "") == d[1..];
    assert script[1..] == d + d[1..];
  }

  /** Stripping the delimiter once does not keep the here-document from ending early:
      removal can put a new delimiter together, and then nothing of the script arrives. */
  lemma StrippingSplicesDelimiter(nonce: string)
    requires PlainWord(nonce)
    ensures var delim := "RUSTIFY_EOF_" + nonce;
            Transported("R" + (delim + delim[1..]), nonce) == Some("")
  {
    var delim := Delimiter(nonce);
    NoNewlineInDelimiter(nonce);
    Spliced(delim, "R" + (delim + delim[1..]));
    StopsAtOnce(delim);
  }

  lemma NoNewlineInDelimiter(nonce: string)
    requires PlainWord(nonce)
    ensures PlainWord(Delimiter(nonce)) && '\n' !in Delimiter(nonce)
    ensures |Delimiter(nonce)| >= 2 && Delimiter(nonce)[0] == 'R' && Delimiter(nonce)[1] == 'U'
  {
    var delim := Delimiter(nonce);
    forall i | 0 <= i < |delim| ensures Plain(delim[i]) {
      if i >= 12 { assert delim[i] == nonce[i - 12]; }
    }
  }

  lemma StopsAtOnce(delim: string)
    ensures ReadHereDoc(delim + "\n" + delim, delim) == Some("") || '\n' in delim
  {
    if '\n' !in delim { SplitOnceExact(delim, '\n', delim); }
  }

  // ----- the whole command ------------------------------------------------------------------

  /** The options as they are meant, the proxy command as a single word. */
  function IntendedOptions(c: Conn): seq<string> {
    FixedOptions(c)
    + (if c.proxyCommand.Some? && c.proxyCommand.value != ""
       then ["-o", "ProxyCommand=" + c.proxyCommand.value] else [])
    + ["-p", Decimal(c.port)]
  }

  /** The words the program wants to run, one by one. */
  function IntendedWords(c: Conn, timeout: nat, socket: Option<string>): seq<string> {
    (if timeout > 0 then ["timeout", Decimal(timeout)] else [])
    + ["ssh"]
    + (if socket.Some?
       then ["-o", "ControlMaster=auto", "-o", "ControlPath=" + socket.value, "-o", "ControlPersist=" + Decimal(3600)]
       else [])
    + ["-i", c.keyPath,
       "-o", "StrictHostKeyChecking=no",
       "-o", "UserKnownHostsFile=/dev/null",
       "-o", "PasswordAuthentication=no",
       "-o", "ConnectTimeout=" + Decimal(c.connectTimeout),
       "-o", "ServerAliveInterval=20",
       "-o", "RequestTTY=no",
       "-o", "LogLevel=ERROR"]
    + (if c.proxyCommand.Some? && c.proxyCommand.value != "" then ["-o", "ProxyCommand=" + c.proxyCommand.value] else [])
    + ["-p", Decimal(c.port), c.user + "@" + c.host, "bash -se"]
  }

  lemma IntendedParts(c: Conn, timeout: nat, socket: Option<string>)
    ensures IntendedWords(c, timeout, socket)
            == StartWords(timeout) + MuxOptions(socket) + IntendedOptions(c) + [c.user + "@" + c.host, "bash -se"]
  {
    hide Decimal;
  }

  /** Written as `text`, the shell reads `word`. */
  ghost predicate ReadsAs(m: Machine, text: string, word: string) {
    text != "" && !EndsWord(text) && text[0] != '\\' && text[0] != '#' && text[0] != '~'
    && forall rest :: EndsWord(rest) ==> ReadWord(m, text + rest, Bare) == Some((word, rest))
  }

  ghost predicate AllReadAs(m: Machine, texts: seq<string>, words: seq<string>) {
    |texts| == |words| && forall i :: 0 <= i < |texts| ==> ReadsAs(m, texts[i], words[i])
  }

  lemma PlainReadsAs(m: Machine, w: string)
    requires ReadsItself(w)
    ensures ReadsAs(m, w, w)
  {
    assert Plain(w[0]);
    ThenLaws(w, "", None);
    forall rest | EndsWord(rest) ensures ReadWord(m, w + rest, Bare) == Some((w, rest)) { PlainRead(m, w, rest); }
  }

  lemma QuoteReadsAs(m: Machine, s: string)
    ensures ReadsAs(m, Quote(s), s)
  {
    forall rest | EndsWord(rest) ensures ReadWord(m, Quote(s) + rest, Bare) == Some((s, rest)) { QuoteRoundTrip(m, s, rest); }
  }

  lemma OneWord(m: Machine, text: string, word: string, tail: string)
    requires ReadsAs(m, text, word) && EndsWord(tail)
    ensures ReadCommand(m, text + tail) == WithWords([word], ReadCommand(m, tail))
  {
    var s := text + tail;
    assert s[0] == text[0];
    assert ReadWord(m, s, Bare) == Some((word, tail));
  }

  lemma BlankEnds(s: string)
    ensures EndsWord(" " + s)
  {
  }

  lemma BlankSkipped(m: Machine, s: string)
    ensures ReadCommand(m, " " + s) == ReadCommand(m, s)
  {
    assert (" " + s)[1..] == s;
  }

  lemma WithWordsTwice(w: string, more: seq<string>, tail: Option<Invocation>)
    ensures WithWords([w], WithWords(more, tail)) == WithWords([w] + more, tail)
  {
    if tail.Some? { assert [w] + more + tail.value.words == [w] + (more + tail.value.words); }
  }

  lemma {:induction false} WordsThenTail(m: Machine, texts: seq<string>, words: seq<string>, tail: string)
    requires |texts| > 0 && AllReadAs(m, texts, words) && EndsWord(tail)
    ensures ReadCommand(m, Join(texts, " ") + tail) == WithWords(words, ReadCommand(m, tail))
  {
    hide ReadCommand, WithWords, EndsWord;
    assert ReadsAs(m, texts[0], words[0]);
    if |texts| == 1 {
      assert words == [words[0]];
      OneWord(m, texts[0], words[0], tail);
    } else {
      var more := Join(texts[1..], " ") + tail;
      assert Join(texts, " ") + tail == texts[0] + (" " + more);
      BlankEnds(more);
      OneWord(m, texts[0], words[0], " " + more);
      BlankSkipped(m, more);
      WordsThenTail(m, texts[1..], words[1..], tail);
      WithWordsTwice(words[0], words[1..], ReadCommand(m, tail));
      assert words == [words[0]] + words[1..];
    }
  }

  lemma EscapedHead(m: Machine, r: char, w: string, rest: string)
    requires r != '\n' && PlainWord(w) && EndsWord(rest)
    ensures ReadWord(m, ['\\', r] + (w + rest), Bare) == Some(([r] + w, rest))
  {
    var s := ['\\', r] + (w + rest);
    assert s[2..] == w + rest;
    PlainRead(m, w, rest);
    assert ReadWord(m, s, Bare) == Then([r], ReadWord(m, w + rest, Bare));
    hide *;
    EndRead(m, rest);
    ThenLaws([r], w, Some(("", rest)));
    ThenLaws([r] + w, "", None);
  }

  lemma RedirectRead(m: Machine, written: string, delim: string, doc: string)
    requires written != "" && !EndsWord(written) && written[0] != '#'
    requires ReadWord(Itself, written + ("\n" + doc), Bare) == Some((delim, "\n" + doc))
    ensures ReadCommand(m, " " + ("<< " + (written + ("\n" + doc)))) == FromDocument(m, ReadHereDoc(doc, delim), AnyQuoted(written))
  {
    var after := written + ("\n" + doc);
    var redirect := "<< " + after;
    assert (" " + redirect)[1..] == redirect && redirect[2..] == " " + after && (" " + after)[1..] == after;
    assert "<<" <= redirect && redirect[2] == ' ' && redirect[0] == '<' && after[0] == written[0];
    assert SkipBlanks(" " + after) == SkipBlanks(after) == after;
    assert ReadCommand(m, redirect) == ReadInput(m, after);
    assert ("\n" + doc)[1..] == doc && "\n" <= "\n" + doc;
    assert after[..|after| - |"\n" + doc|] == written;
  }

  /** The backslash quotes the delimiter, so the document is handed over as it is. */
  lemma HereDocumentRead(m: Machine, script: string, nonce: string)
    requires PlainWord(nonce)
    ensures ReadCommand(m, HereDocument(script, nonce)) == FromDocument(m, Transported(script, nonce), true)
  {
    var delim := Delimiter(nonce);
    var written := "\\" + delim;
    var doc := Replace(script, delim, "") + "\n" + delim;
    NoNewlineInDelimiter(nonce);
    EscapedWord(Itself, delim, "\n" + doc);
    assert "\\" + (delim + ("\n" + doc)) == written + ("\n" + doc);
    RedirectRead(m, written, delim, doc);
    assert written[1..] == delim && written[0] == '\\';
    assert AnyQuoted(written);
  }

  /** The here-document as it would be without the backslash. */
  function UnquotedDocument(script: string, nonce: string): string {
    " " + ("<< " + (Delimiter(nonce) + ("\n" + (script + "\n" + Delimiter(nonce)))))
  }

  lemma UnquotedRead(m: Machine, script: string, nonce: string)
    requires PlainWord(nonce) && !Contains(script, Delimiter(nonce))
    ensures ReadCommand(m, UnquotedDocument(script, nonce)) == Some(Invocation([], Expanded(m, script + "\n")))
  {
    var delim := Delimiter(nonce);
    var doc := script + "\n" + delim;
    NoNewlineInDelimiter(nonce);
    HereDocExact(script, delim);
    if delim in Split(script, '\n') { LinesContained(script, '\n', delim); }
    PlainRead(Itself, delim, "\n" + doc);
    ThenLaws(delim, "", None);
    assert !AnyQuoted(delim);
    RedirectRead(m, delim, delim, doc);
  }

  /** It would arrive as it is on every machine exactly if it contains nothing to expand. */
  lemma QuotedDelimiterNeeded(script: string, nonce: string)
    requires PlainWord(nonce) && !Contains(script, Delimiter(nonce))
    ensures (forall m: Machine :: ReadCommand(m, UnquotedDocument(script, nonce)) == Some(Invocation([], script + "\n")))
            <==> Inert(script + "\n")
  {
    hide ReadCommand, Inert, Expanded, UnquotedDocument, Contains;
    var body := script + "\n";
    if Inert(body) {
      forall m: Machine ensures ReadCommand(m, UnquotedDocument(script, nonce)) == Some(Invocation([], body)) {
        UnquotedRead(m, script, nonce);
        InertStays(m, body);
      }
    } else {
      UnquotedRead(Nothing, script, nonce);
      OthersShrink(body);
      assert ReadCommand(Nothing, UnquotedDocument(script, nonce)) != Some(Invocation([], body));
    }
  }

  lemma EscapedWord(m: Machine, w: string, rest: string)
    requires w != "" && w[0] != '\n' && PlainWord(w) && EndsWord(rest)
    ensures ReadWord(m, "\\" + (w + rest), Bare) == Some((w, rest))
  {
    hide ReadWord;
    EscapedHead(m, w[0], w[1..], rest);
    assert [w[0]] + w[1..] == w;
    assert ['\\', w[0]] + (w[1..] + rest) == "\\" + (w + rest);
  }

  lemma ReadAsConcat(m: Machine, a: seq<string>, b: seq<string>, x: seq<string>, y: seq<string>)
    requires AllReadAs(m, a, x) && AllReadAs(m, b, y)
    ensures AllReadAs(m, a + b, x + y)
  {
    hide ReadsAs;
  }

  lemma {:induction false} PlainWordsReadAs(m: Machine, words: seq<string>)
    requires forall i :: 0 <= i < |words| ==> ReadsItself(words[i])
    ensures AllReadAs(m, words, words)
  {
    forall i | 0 <= i < |words| ensures ReadsAs(m, words[i], words[i]) { PlainReadsAs(m, words[i]); }
  }

  lemma DecimalPlain(n: nat)
    ensures ReadsItself(Decimal(n))
  {
    DecimalDigits(n);
    forall i | 0 <= i < |Decimal(n)| ensures Plain(Decimal(n)[i]) {
      assert Decimal(n)[i] in Decimal(n);
    }
  }

  lemma ProxyReadsAs(m: Machine, cmd: string)
    ensures ReadsAs(m, "ProxyCommand=" + Quote(cmd), "ProxyCommand=" + cmd)
  {
    var key := "ProxyCommand=";
    assert PlainWord(key);
    forall rest | EndsWord(rest)
      ensures ReadWord(m, key + Quote(cmd) + rest, Bare) == Some((key + cmd, rest))
    {
      hide *;
      EndRead(m, rest);
      QuoteRead(m, cmd, rest);
      PlainRead(m, key, Quote(cmd) + rest);
      ThenLaws(key, cmd, ReadWord(m, rest, Bare));
      ThenLaws(key + cmd, "", None);
      assert key + Quote(cmd) + rest == key + (Quote(cmd) + rest);
    }
  }

  lemma PlainConcat(a: string, b: string)
    requires PlainWord(a) && PlainWord(b)
    ensures PlainWord(a + b)
  {
  }

  lemma StartReadsAs(m: Machine, timeout: nat)
    ensures AllReadAs(m, StartWords(timeout), StartWords(timeout))
  {
    DecimalPlain(timeout);
    PlainWordsReadAs(m, StartWords(timeout));
  }

  lemma ControlOptionsReadAs(m: Machine)
    ensures ReadsAs(m, "-o", "-o") && ReadsAs(m, "ControlMaster=auto", "ControlMaster=auto")
    ensures AllReadAs(m, ["-o", "ControlMaster=auto", "-o"], ["-o", "ControlMaster=auto", "-o"])
  {
    hide ReadsAs;
    PlainReadsAs(m, "-o");
    PlainReadsAs(m, "ControlMaster=auto");
  }

  lemma SocketReadsAs(m: Machine, socket: string)
    requires PlainWord(socket)
    ensures ReadsAs(m, "ControlPath=" + socket, "ControlPath=" + socket)
  {
    hide ReadsAs;
    PlainConcat("ControlPath=", socket);
    PlainReadsAs(m, "ControlPath=" + socket);
  }

  lemma PersistReadsAs(m: Machine, seconds: nat)
    ensures ReadsAs(m, "ControlPersist=" + Decimal(seconds), "ControlPersist=" + Decimal(seconds))
  {
    hide ReadsAs, Decimal;
    DecimalPlain(seconds);
    PlainConcat("ControlPersist=", Decimal(seconds));
    PlainReadsAs(m, "ControlPersist=" + Decimal(seconds));
  }

  lemma MuxReadsAs(m: Machine, socket: Option<string>)
    requires socket.Some? ==> PlainWord(socket.value)
    ensures AllReadAs(m, MuxOptions(socket), MuxOptions(socket))
  {
    hide ReadsAs, Decimal;
    if socket.Some? {
      ControlOptionsReadAs(m);
      SocketReadsAs(m, socket.value);
      PersistReadsAs(m, MUX_PERSIST_SECS);
    }
  }

  lemma FixedReadsAs(m: Machine, c: Conn)
    requires ReadsItself(c.keyPath)
    ensures AllReadAs(m, FixedOptions(c), FixedOptions(c))
  {
    hide ReadsAs;
    PlainReadsAs(m, "-i");
    PlainReadsAs(m, "-o");
    hide PlainWord;
    PlainReadsAs(m, c.keyPath);
    HostOptionsReadAs(m);
    LoginOptionsReadAs(m);
    SessionOptionsReadAs(m);
    TimeoutReadsAs(m, c.connectTimeout);
  }

  lemma TimeoutReadsAs(m: Machine, seconds: nat)
    ensures ReadsAs(m, "ConnectTimeout=" + Decimal(seconds), "ConnectTimeout=" + Decimal(seconds))
  {
    hide ReadsAs, Decimal;
    DecimalPlain(seconds);
    PlainConcat("ConnectTimeout=", Decimal(seconds));
    PlainReadsAs(m, "ConnectTimeout=" + Decimal(seconds));
  }

  lemma HostOptionsReadAs(m: Machine)
    ensures ReadsAs(m, "StrictHostKeyChecking=no", "StrictHostKeyChecking=no")
    ensures ReadsAs(m, "UserKnownHostsFile=/dev/null", "UserKnownHostsFile=/dev/null")
  {
    hide ReadsAs;
    PlainReadsAs(m, "StrictHostKeyChecking=no");
    PlainReadsAs(m, "UserKnownHostsFile=/dev/null");
  }

  lemma LoginOptionsReadAs(m: Machine)
    ensures ReadsAs(m, "PasswordAuthentication=no", "PasswordAuthentication=no")
    ensures ReadsAs(m, "ServerAliveInterval=20", "ServerAliveInterval=20")
  {
    hide ReadsAs;
    PlainReadsAs(m, "PasswordAuthentication=no");
    PlainReadsAs(m, "ServerAliveInterval=20");
  }

  lemma SessionOptionsReadAs(m: Machine)
    ensures ReadsAs(m, "RequestTTY=no", "RequestTTY=no")
    ensures ReadsAs(m, "LogLevel=ERROR", "LogLevel=ERROR")
  {
    hide ReadsAs;
    PlainReadsAs(m, "RequestTTY=no");
    PlainReadsAs(m, "LogLevel=ERROR");
  }

  lemma OptionsReadAs(m: Machine, c: Conn)
    requires ReadsItself(c.keyPath)
    ensures AllReadAs(m, CommonOptions(c), IntendedOptions(c))
  {
    FixedReadsAs(m, c);
    PlainReadsAs(m, "-o");
    PlainReadsAs(m, "-p");
    DecimalPlain(c.port);
    PlainReadsAs(m, Decimal(c.port));
    var proxy := if c.proxyCommand.Some? && c.proxyCommand.value != ""
                 then ["-o", "ProxyCommand=" + c.proxyCommand.value] else [];
    if c.proxyCommand.Some? { ProxyReadsAs(m, c.proxyCommand.value); }
    ReadAsConcat(m, FixedOptions(c), ProxyOption(c), FixedOptions(c), proxy);
    ReadAsConcat(m, FixedOptions(c) + ProxyOption(c), ["-p", Decimal(c.port)], FixedOptions(c) + proxy, ["-p", Decimal(c.port)]);
  }

  lemma WordsReadAs(m: Machine, c: Conn, timeout: nat, socket: Option<string>)
    requires ReadsItself(c.keyPath) && (socket.Some? ==> PlainWord(socket.value))
    ensures AllReadAs(m, WrittenWords(c, timeout, socket), IntendedWords(c, timeout, socket))
  {
    IntendedParts(c, timeout, socket);
    hide IntendedWords, IntendedOptions, CommonOptions;
    var start := StartWords(timeout) + MuxOptions(socket);
    StartReadsAs(m, timeout);
    MuxReadsAs(m, socket);
    ReadAsConcat(m, StartWords(timeout), MuxOptions(socket), StartWords(timeout), MuxOptions(socket));
    OptionsReadAs(m, c);
    ReadAsConcat(m, start, CommonOptions(c), start, IntendedOptions(c));
    TargetReadsAs(m, c);
    BashReadsAs(m);
    ReadAsConcat(m, start + CommonOptions(c), [UserAtHost(c), "'bash -se'"], start + IntendedOptions(c), [c.user + "@" + c.host, "bash -se"]);
  }

  lemma TargetReadsAs(m: Machine, c: Conn)
    ensures ReadsAs(m, UserAtHost(c), c.user + "@" + c.host)
  {
    forall rest | EndsWord(rest)
      ensures ReadWord(m, UserAtHost(c) + rest, Bare) == Some((c.user + "@" + c.host, rest))
    { UserAtHostRoundTrip(m, c, rest); }
  }

  lemma QuoteQuoteless(s: string)
    requires '\'' !in s
    ensures Quote(s) == "'" + s + "'"
  {
    forall i: nat ensures !OccursAt(s, "'", i) {
      if i < |s| { assert s[i..i + 1][0] == s[i]; }
    }
    ReplaceAbsent(s, "'", "'\\''");
  }

  lemma BashReadsAs(m: Machine)
    ensures ReadsAs(m, "'bash -se'", "bash -se")
  {
    hide ReadsAs, Quote;
    var s := "bash -se";
    QuoteReadsAs(m, s);
    QuoteQuoteless(s);
    assert "'" + s + "'" == "'bash -se'";
  }

  /** The local shell reads the assembled command as exactly the intended words, whatever
      user, host and proxy command contain, and hands over the here-document as input. */
  lemma CommandRoundTrip(m: Machine, c: Conn, script: string, timeout: nat, socket: Option<string>, nonce: string)
    requires ReadsItself(c.keyPath) && (socket.Some? ==> PlainWord(socket.value)) && PlainWord(nonce)
    ensures ReadCommand(m, BuildSshCommand(c, script, timeout, socket, nonce))
            == (match Transported(script, nonce)
                case None => None
                case Some(body) => Some(Invocation(IntendedWords(c, timeout, socket), body)))
    ensures !Contains(script, "RUSTIFY_EOF_" + nonce) ==>
              ReadCommand(m, BuildSshCommand(c, script, timeout, socket, nonce))
              == Some(Invocation(IntendedWords(c, timeout, socket), script + "\n"))
  {
    WordsReadAs(m, c, timeout, socket);
    WordsThenTail(m, WrittenWords(c, timeout, socket), IntendedWords(c, timeout, socket), HereDocument(script, nonce));
    HereDocumentRead(m, script, nonce);
    TransportedIffNoDelimiter(script, nonce);
    assert IntendedWords(c, timeout, socket) + [] == IntendedWords(c, timeout, socket);
  }

  // ----- the code -----------------------------------------------------------------------------

  lemma JoinTarget(c: Conn)
    ensures Join([UserAtHost(c), "'bash -se'"], " ") == UserAtHost(c) + " " + "'bash -se'"
  {
    assert [UserAtHost(c), "'bash -se'"][1..] == ["'bash -se'"];
  }

  lemma JoinWritten(c: Conn, timeout: nat, socket: Option<string>)
    ensures Join(WrittenWords(c, timeout, socket), " ")
            == Join(StartWords(timeout) + MuxOptions(socket), " ") + " " + Join(CommonOptions(c), " ") + " "
               + (UserAtHost(c) + " " + "'bash -se'")
  {
    var start := StartWords(timeout) + MuxOptions(socket);
    JoinConcat(start, CommonOptions(c), " ");
    JoinConcat(start + CommonOptions(c), [UserAtHost(c), "'bash -se'"], " ");
    JoinTarget(c);
  }

  method AssembleSshCommand(c: Conn, script: string, timeout: nat, socket: Option<string>, nonce: string)
    returns (cmd: string)
    ensures cmd == BuildSshCommand(c, script, timeout, socket, nonce)
  {
    cmd := Join(StartWords(timeout), " ");
    if socket.Some? {
      JoinConcat(StartWords(timeout), MuxOptions(socket), " ");
      cmd := cmd + " " + Join(MuxOptions(socket), " ");
    } else {
      assert StartWords(timeout) + MuxOptions(socket) == StartWords(timeout);
    }
    cmd := cmd + " " + Join(CommonOptions(c), " ");
    cmd := cmd + " " + (UserAtHost(c) + " " + "'bash -se'");
    JoinWritten(c, timeout, socket);
    cmd := cmd + HereDocument(script, nonce);
  }
}
