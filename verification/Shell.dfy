/** A POSIX shell as a reader of text: words with their quoting and expansions, and a simple
    command with a here-document. Sections 2.2, 2.3, 2.6 and 2.7.4 of POSIX.1-2017, Shell
    Command Language, with space and tab as the blanks. */
module Shell {
  import opened Text

  // ----- characters -------------------------------------------------------------------

  predicate Blank(ch: char) { ch == ' ' || ch == '\t' }

  predicate Operator(ch: char) {
    ch == '|' || ch == '&' || ch == ';' || ch == '<' || ch == '>' || ch == '(' || ch == ')'
  }

  /** An unquoted character that begins an expansion or makes the word a pattern. */
  predicate Expands(ch: char) { ch == '$' || ch == '`' || Wild(ch) }

  predicate Wild(ch: char) { ch == '*' || ch == '?' || ch == '[' }

  /** Characters that stand for themselves unquoted; `#` and `~` not at the start of a word. */
  predicate Plain(ch: char) {
    !Blank(ch) && ch != '\n' && !Operator(ch) && !Expands(ch) && ch != '\'' && ch != '"' && ch != '\\'
  }

  predicate PlainWord(w: string) { forall i :: 0 <= i < |w| ==> Plain(w[i]) }

  /** A text that an unquoted word may consist of. */
  predicate ReadsItself(w: string) { PlainWord(w) && w != "" && w[0] != '#' && w[0] != '~' }

  predicate EndsWord(s: string) { s == "" || Blank(s[0]) || s[0] == '\n' || Operator(s[0]) }

  // ----- words --------------------------------------------------------------------------

  /** What the shell finds outside the text, in its environment and in the file system: for a
      text that starts with an expansion, how many more characters belong to the expansion
      and what it becomes. */
  type Machine = string -> (nat, string)

  function Taken(m: Machine, s: string): (n: nat)
    requires s != ""
    ensures 1 <= n <= |s|
  {
    if m(s).0 < |s| then 1 + m(s).0 else |s|
  }

  datatype Mode = Bare | Single | Double

  /** What a backslash escapes between double quotes. */
  predicate Escapable(ch: char) { ch == '$' || ch == '`' || ch == '"' || ch == '\\' || ch == '\n' }

  /** The rest of a word, with its quotes removed, and what follows the word. */
  function ReadWord(m: Machine, s: string, mode: Mode): (r: Option<(string, string)>)
    ensures r.Some? ==> |r.value.1| <= |s|
    ensures r.Some? && mode.Bare? && !EndsWord(s) ==> |r.value.1| < |s|
    decreases |s|
  {
    match mode
    case Single =>
      if s == "" then None
      else if s[0] == '\'' then ReadWord(m, s[1..], Bare)
      else Then([s[0]], ReadWord(m, s[1..], Single))
    case Double =>
      if s == "" then None
      else if s[0] == '"' then ReadWord(m, s[1..], Bare)
      else if s[0] == '\\' && |s| > 1 && Escapable(s[1]) then
        Then(if s[1] == '\n' then "" else [s[1]], ReadWord(m, s[2..], Double))
      else if s[0] == '$' || s[0] == '`' then Then(m(s).1, ReadWord(m, s[Taken(m, s)..], Double))
      else Then([s[0]], ReadWord(m, s[1..], Double))
    case Bare =>
      if EndsWord(s) then Some(("", s))
      else if s[0] == '\'' then ReadWord(m, s[1..], Single)
      else if s[0] == '"' then ReadWord(m, s[1..], Double)
      else if s[0] == '\\' then
        if |s| == 1 then None
        else Then(if s[1] == '\n' then "" else [s[1]], ReadWord(m, s[2..], Bare))
      else if Expands(s[0]) then Then(m(s).1, ReadWord(m, s[Taken(m, s)..], Bare))
      else Then([s[0]], ReadWord(m, s[1..], Bare))
  }

  function Then(head: string, tail: Option<(string, string)>): Option<(string, string)> {
    match tail
    case None => None
    case Some((w, rest)) => Some((head + w, rest))
  }

  // ----- here-documents -----------------------------------------------------------------

  /** The delimiter of a here-document undergoes quote removal and nothing else. */
  function Itself(s: string): (nat, string) { (0, if s == "" then "" else [s[0]]) }

  /** Whether any part of a word, as it is written, is quoted. */
  predicate AnyQuoted(written: string) {
    exists i :: 0 <= i < |written|
      && (written[i] == '\'' || written[i] == '"' || (written[i] == '\\' && !("\n" <= written[i + 1..])))
  }

  /** The lines up to the one that is exactly the delimiter; a missing delimiter is an error. */
  function ReadHereDoc(s: string, delim: string): Option<string>
    decreases |s|
  {
    match SplitOnce(s, '\n')
    case None => if s == delim then Some("") else None
    case Some((line, rest)) =>
      SplitOnceShorter(s, '\n');
      if line == delim then Some("")
      else
        match ReadHereDoc(rest, delim)
        case None => None
        case Some(body) => Some(line + "\n" + body)
  }

  /** What becomes of a here-document whose delimiter is not quoted. */
  function Expanded(m: Machine, s: string): string
    decreases |s|
  {
    if s == "" then ""
    else if s[0] == '\\' && |s| > 1 && s[1] != '"' && Escapable(s[1]) then
      (if s[1] == '\n' then "" else [s[1]]) + Expanded(m, s[2..])
    else if s[0] == '$' || s[0] == '`' then m(s).1 + Expanded(m, s[Taken(m, s)..])
    else [s[0]] + Expanded(m, s[1..])
  }

  // ----- commands -------------------------------------------------------------------------

  /** What is executed: the words, and the text on standard input. */
  datatype Invocation = Invocation(words: seq<string>, input: string)

  function SkipBlanks(s: string): (t: string)
    ensures |t| <= |s|
  {
    if s != "" && Blank(s[0]) then SkipBlanks(s[1..]) else s
  }

  /** A simple command whose only redirection is a here-document at its end; None for every
      other command. The first word is taken for a program, not for a reserved word. */
  function ReadCommand(m: Machine, s: string): Option<Invocation>
    decreases |s|
  {
    if s != "" && Blank(s[0]) then ReadCommand(m, s[1..])
    else if "\\\n" <= s then ReadCommand(m, s[2..])
    else if "<<" <= s && !("<<-" <= s) then ReadInput(m, SkipBlanks(s[2..]))
    else if EndsWord(s) || s[0] == '#' then None
    else
      match if s[0] == '~' then Then(m(s).1, ReadWord(m, s[Taken(m, s)..], Bare)) else ReadWord(m, s, Bare)
      case None => None
      case Some((w, rest)) => WithWords([w], ReadCommand(m, rest))
  }

  /** The delimiter, the end of the line, and the document. */
  function ReadInput(m: Machine, s: string): Option<Invocation> {
    if EndsWord(s) || s[0] == '#' then None
    else
      match ReadWord(Itself, s, Bare)
      case None => None
      case Some((delim, rest)) =>
        if !("\n" <= rest) then None
        else FromDocument(m, ReadHereDoc(rest[1..], delim), AnyQuoted(s[..|s| - |rest|]))
  }

  function FromDocument(m: Machine, body: Option<string>, quoted: bool): Option<Invocation> {
    match body
    case None => None
    case Some(text) => Some(Invocation([], if quoted then text else Expanded(m, text)))
  }

  function WithWords(words: seq<string>, tail: Option<Invocation>): Option<Invocation> {
    match tail
    case None => None
    case Some(inv) => Some(Invocation(words + inv.words, inv.input))
  }

  // ----- the document of an unquoted delimiter ----------------------------------------------

  /** Nothing in the text is expanded, and no backslash escapes anything. */
  predicate Inert(s: string) {
    forall i :: 0 <= i < |s| ==>
      && s[i] != '$' && s[i] != '`'
      && (s[i] == '\\' && i + 1 < |s| ==> s[i + 1] != '\\' && s[i + 1] != '\n')
  }

  /** A machine on which every expansion is empty. */
  ghost predicate Drops(m: Machine) { forall s: string :: m(s) == (0, "") }

  function Nothing(s: string): (nat, string) { (0, "") }

  lemma {:induction false} InertStays(m: Machine, s: string)
    requires Inert(s)
    ensures Expanded(m, s) == s
    decreases |s|
  {
    if s != "" {
      assert s == [s[0]] + s[1..];
      assert |s| > 1 ==> s[1] != '$' && s[1] != '`';
      InertStays(m, s[1..]);
    }
  }

  lemma {:induction false} OthersShrink(s: string)
    ensures |Expanded(Nothing, s)| <= |s|
    ensures !Inert(s) ==> |Expanded(Nothing, s)| < |s|
    decreases |s|
  {
    if s != "" {
      if s[0] == '\\' && |s| > 1 && s[1] != '"' && Escapable(s[1]) {
        OthersShrink(s[2..]);
      } else {
        OthersShrink(s[1..]);
        if s[0] != '$' && s[0] != '`' && Inert(s[1..]) {
          forall i | 0 <= i < |s|
            ensures s[i] != '$' && s[i] != '`' && (s[i] == '\\' && i + 1 < |s| ==> s[i + 1] != '\\' && s[i + 1] != '\n')
          {
            if i > 0 { assert s[i] == s[1..][i - 1]; }
          }
        }
      }
    }
  }
}
