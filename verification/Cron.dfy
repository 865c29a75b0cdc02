/** The hand-written cron matcher of the backup dispatcher, and the meaning of the
    expressions it is given. */
module Cron {
  import opened Text

  const U32_LIMIT: nat := 0x1_0000_0000

  // ----- the matcher -------------------------------------------------------------

  function WordLen(s: string): (n: nat)
    ensures n <= |s|
    ensures s != "" && !IsSpace(s[0]) ==> n > 0
  {
    if s == "" || IsSpace(s[0]) then 0 else 1 + WordLen(s[1..])
  }

  /** `split_whitespace`. */
  function Words(s: string): seq<string>
    decreases |s|
  {
    if s == "" then []
    else if IsSpace(s[0]) then Words(s[1..])
    else [s[..WordLen(s)]] + Words(s[WordLen(s)..])
  }

  /** `parse::<u32>()`: an optional plus sign, then decimal digits within range. */
  function ParseU32(s: string): Option<nat> {
    var d := if s != "" && s[0] == '+' then s[1..] else s;
    if !Digits(d) then None
    else if DigitsValue(d) < U32_LIMIT then Some(DigitsValue(d)) else None
  }

  predicate PartMatchesRaw(part: string, value: nat) {
    var (spec, step) := match SplitOnce(part, '/')
      case Some((spec, step)) => (spec, ParseU32(step))
      case None => (part, None);
    match step
    case Some(step) =>
      step > 0 &&
      if spec == "*" then value % step == 0
      else (match SplitOnce(spec, '-')
        case Some((a, b)) => (match (ParseU32(a), ParseU32(b))
          case (Some(lo), Some(hi)) => value >= lo && value <= hi && (value - lo) % step == 0
          case _ => false)
        case None => (match ParseU32(spec)
          case Some(lo) => value >= lo && (value - lo) % step == 0
          case None => false))
    case None =>
      if spec == "*" then true
      else (match SplitOnce(spec, '-')
        case Some((a, b)) => (match (ParseU32(a), ParseU32(b))
          case (Some(lo), Some(hi)) => value >= lo && value <= hi
          case _ => false)
        case None => ParseU32(spec) == Some(value))
  }

  predicate PartMatches(part: string, value: nat, weekday: bool) {
    (weekday && value == 0 && PartMatchesRaw(part, 7)) || PartMatchesRaw(part, value)
  }

  predicate FieldMatches(field: string, value: nat, weekday: bool) {
    var parts := Split(field, ',');
    exists i :: 0 <= i < |parts| && PartMatches(parts[i], value, weekday)
  }

  /** The minute a schedule is checked for; `weekday` counts from Sunday. */
  datatype Moment = Moment(minute: nat, hour: nat, day: nat, month: nat, weekday: nat)

  function ExpandMacro(expr: string): string {
    if expr == "@yearly" || expr == "@annually" then "0 0 1 1 *"
    else if expr == "@monthly" then "0 0 1 * *"
    else if expr == "@weekly" then "0 0 * * 0"
    else if expr == "@daily" || expr == "@midnight" then "0 0 * * *"
    else if expr == "@hourly" then "0 * * * *"
    else if expr == "@every_minute" then "* * * * *"
    else expr
  }

  predicate FieldsDue(fields: seq<string>, dt: Moment) {
    |fields| == 5
    && FieldMatches(fields[0], dt.minute, false)
    && FieldMatches(fields[1], dt.hour, false)
    && FieldMatches(fields[2], dt.day, false)
    && FieldMatches(fields[3], dt.month, false)
    && FieldMatches(fields[4], dt.weekday, true)
  }

  function Fields(expr: string): seq<string> {
    Words(ExpandMacro(Trim(expr)))
  }

  predicate CronIsDue(expr: string, dt: Moment) {
    FieldsDue(Fields(expr), dt)
  }

  // ----- expressions, what they print as and what they mean -------------------------

  datatype Spec = Any | From(n: nat) | Span(lo: nat, hi: nat)
  datatype Part = Part(spec: Spec, step: Option<nat>)
  datatype Expr = Expr(minute: seq<Part>, hour: seq<Part>, day: seq<Part>, month: seq<Part>, weekday: seq<Part>)

  function PrintSpec(s: Spec): string {
    match s
    case Any => "*"
    case From(n) => Decimal(n)
    case Span(lo, hi) => Decimal(lo) + "-" + Decimal(hi)
  }

  function PrintPart(p: Part): string {
    PrintSpec(p.spec) + (if p.step.Some? then "/" + Decimal(p.step.value) else "")
  }

  function PrintParts(ps: seq<Part>): (r: seq<string>)
    ensures |r| == |ps|
  {
    seq(|ps|, i requires 0 <= i < |ps| => PrintPart(ps[i]))
  }

  function PrintField(ps: seq<Part>): string { Join(PrintParts(ps), ",") }

  /** The blanks around and between the five fields. */
  datatype Layout = Layout(lead: string, gaps: seq<string>, trail: string)

  predicate ValidLayout(l: Layout) {
    AllSpace(l.lead) && AllSpace(l.trail) && |l.gaps| == 4 && forall i :: 0 <= i < 4 ==> l.gaps[i] != "" && AllSpace(l.gaps[i])
  }

  function PrintFields(e: Expr): seq<string> {
    [PrintField(e.minute), PrintField(e.hour), PrintField(e.day), PrintField(e.month), PrintField(e.weekday)]
  }

  function Spread(words: seq<string>, gaps: seq<string>): string
    requires |words| == |gaps| + 1
  {
    if |gaps| == 0 then words[0] else words[0] + (gaps[0] + Spread(words[1..], gaps[1..]))
  }

  function PrintCore(e: Expr, l: Layout): string
    requires ValidLayout(l)
  {
    Spread(PrintFields(e), l.gaps)
  }

  function Print(e: Expr, l: Layout): string
    requires ValidLayout(l)
  {
    l.lead + PrintCore(e, l) + l.trail
  }

  predicate U32Part(p: Part) {
    (match p.spec
     case Any => true
     case From(n) => n < U32_LIMIT
     case Span(lo, hi) => lo < U32_LIMIT && hi < U32_LIMIT)
    && (p.step.Some? ==> p.step.value < U32_LIMIT)
  }

  predicate U32Field(ps: seq<Part>) {
    |ps| > 0 && forall i :: 0 <= i < |ps| ==> U32Part(ps[i])
  }

  predicate U32Expr(e: Expr) {
    U32Field(e.minute) && U32Field(e.hour) && U32Field(e.day) && U32Field(e.month) && U32Field(e.weekday)
  }

  /** The set a part stands for: a range, or the steps from its start that lie in the range. */
  ghost predicate Denotes(p: Part, v: nat) {
    var lo := match p.spec case Any => 0 case From(n) => n case Span(a, _) => a;
    (p.spec.Span? ==> v <= p.spec.hi)
    && (match p.step
        case None => v >= lo && (p.spec.From? ==> v == lo)
        case Some(step) => step > 0 && exists k: nat :: v == lo + k * step)
  }

  ghost predicate FieldDenotes(ps: seq<Part>, v: nat) {
    exists i :: 0 <= i < |ps| && Denotes(ps[i], v)
  }

  ghost predicate ExprDenotes(e: Expr, dt: Moment) {
    FieldDenotes(e.minute, dt.minute) && FieldDenotes(e.hour, dt.hour)
    && FieldDenotes(e.day, dt.day) && FieldDenotes(e.month, dt.month)
    && (FieldDenotes(e.weekday, dt.weekday) || (dt.weekday == 0 && FieldDenotes(e.weekday, 7)))
  }

  // ----- numbers -----------------------------------------------------------------------

  /** Parsing undoes printing within the 32 bits, and rejects what does not fit. */
  lemma ParseDecimal(n: nat)
    ensures ParseU32(Decimal(n)) == if n < U32_LIMIT then Some(n) else None
  {
    DecimalDigits(n);
    assert Decimal(n)[0] in Decimal(n);
  }

  lemma {:induction false} ProductAtLeast(d: nat, step: nat)
    requires d >= 1
    ensures d * step >= step
  {
    if d > 1 { ProductAtLeast(d - 1, step); }
  }

  lemma RemainderZero(k: nat, step: nat, q: nat, r: nat)
    requires k * step == q * step + r && r < step
    ensures r == 0
  {
    if k > q {
      assert (k - q) * step == k * step - q * step;
      ProductAtLeast(k - q, step);
    } else if k < q {
      assert (q - k) * step == q * step - k * step;
      ProductAtLeast(q - k, step);
    }
  }

  lemma StepsReach(v: nat, lo: nat, step: nat)
    requires step > 0
    ensures (v >= lo && (v - lo) % step == 0) <==> exists k: nat :: v == lo + k * step
  {
    if v >= lo && (v - lo) % step == 0 {
      var k := (v - lo) / step;
      assert v == lo + k * step;
    }
    if k: nat :| v == lo + k * step {
      RemainderZero(k, step, (v - lo) / step, (v - lo) % step);
    }
  }

  // ----- parts and fields --------------------------------------------------------------

  lemma SpecChars(s: Spec)
    ensures PrintSpec(s) != ""
    ensures forall c :: c in PrintSpec(s) ==> IsDigit(c) || c == '*' || c == '-'
  {
    match s {
      case Any =>
      case From(n) => DecimalDigits(n);
      case Span(lo, hi) =>
        DecimalDigits(lo);
        DecimalDigits(hi);
    }
  }

  lemma PartChars(p: Part)
    ensures PrintPart(p) != ""
    ensures forall c :: c in PrintPart(p) ==> IsDigit(c) || c == '*' || c == '-' || c == '/'
  {
    SpecChars(p.spec);
    if p.step.Some? { DecimalDigits(p.step.value); }
  }

  lemma SpanSplits(lo: nat, hi: nat)
    ensures SplitOnce(PrintSpec(Span(lo, hi)), '-') == Some((Decimal(lo), Decimal(hi)))
    ensures PrintSpec(Span(lo, hi)) != "*"
  {
    DecimalDigits(lo);
    SplitOnceExact(Decimal(lo), '-', Decimal(hi));
    assert Decimal(lo) + ['-'] + Decimal(hi) == PrintSpec(Span(lo, hi));
  }

  lemma NumberSplits(n: nat)
    ensures SplitOnce(Decimal(n), '-') == None && Decimal(n) != "*"
  {
    DecimalDigits(n);
    SplitOnceExact(Decimal(n), '-', "");
    assert Decimal(n)[0] in Decimal(n);
  }

  lemma PartMeaning(p: Part, v: nat)
    requires U32Part(p)
    ensures PartMatchesRaw(PrintPart(p), v) <==> Denotes(p, v)
  {
    hide SplitOnce, Decimal, ParseU32;
    var spec := PrintSpec(p.spec);
    SpecChars(p.spec);
    match p.step {
      case Some(step) =>
        SplitOnceExact(spec, '/', Decimal(step));
        assert spec + ['/'] + Decimal(step) == PrintPart(p);
        ParseDecimal(step);
      case None =>
        SplitOnceExact(spec, '/', "");
        assert spec == PrintPart(p);
    }
    match p.spec {
      case Any =>
        if p.step.Some? && p.step.value > 0 { StepsReach(v, 0, p.step.value); }
      case From(n) =>
        NumberSplits(n);
        ParseDecimal(n);
        if p.step.Some? && p.step.value > 0 { StepsReach(v, n, p.step.value); }
      case Span(lo, hi) =>
        SpanSplits(lo, hi);
        ParseDecimal(lo);
        ParseDecimal(hi);
        if p.step.Some? && p.step.value > 0 { StepsReach(v, lo, p.step.value); }
    }
  }

  lemma FieldMeaning(ps: seq<Part>, v: nat, weekday: bool)
    requires U32Field(ps)
    ensures FieldMatches(PrintField(ps), v, weekday)
            <==> FieldDenotes(ps, v) || (weekday && v == 0 && FieldDenotes(ps, 7))
  {
    var parts := PrintParts(ps);
    forall i | 0 <= i < |ps|
      ensures ',' !in parts[i]
      ensures PartMatches(parts[i], v, weekday) <==> Denotes(ps[i], v) || (weekday && v == 0 && Denotes(ps[i], 7))
    {
      PartChars(ps[i]);
      PartMeaning(ps[i], v);
      PartMeaning(ps[i], 7);
    }
    SplitJoin(parts, ',');
    if FieldDenotes(ps, v) {
      var i :| 0 <= i < |ps| && Denotes(ps[i], v);
      assert PartMatches(parts[i], v, weekday);
    }
    if weekday && v == 0 && FieldDenotes(ps, 7) {
      var i :| 0 <= i < |ps| && Denotes(ps[i], 7);
      assert PartMatches(parts[i], v, weekday);
    }
  }

  // ----- the whole expression ------------------------------------------------------------

  predicate Word(s: string) { s != "" && forall c :: c in s ==> !IsSpace(c) }

  lemma {:induction false} JoinWord(parts: seq<string>)
    requires |parts| > 0 && forall i :: 0 <= i < |parts| ==> Word(parts[i])
    ensures Word(parts[0]) && Word(Join(parts, ",")) && Join(parts, ",")[0] == parts[0][0]
  {
    if |parts| > 1 { JoinWord(parts[1..]); }
  }

  lemma FieldIsWord(ps: seq<Part>)
    requires |ps| > 0
    ensures Word(PrintField(ps)) && PrintField(ps)[0] != '@'
  {
    var parts := PrintParts(ps);
    forall i | 0 <= i < |ps| ensures Word(parts[i]) { PartChars(ps[i]); }
    PartChars(ps[0]);
    assert parts[0][0] in parts[0];
    JoinWord(parts);
  }

  lemma {:induction false} WordsSkip(gap: string, s: string)
    requires AllSpace(gap)
    ensures Words(gap + s) == Words(s)
  {
    if gap == "" {
      assert gap + s == s;
    } else {
      assert (gap + s)[1..] == gap[1..] + s;
      WordsSkip(gap[1..], s);
    }
  }

  lemma {:induction false} WordLenExact(w: string, rest: string)
    requires (forall c :: c in w ==> !IsSpace(c)) && (rest == "" || IsSpace(rest[0]))
    ensures WordLen(w + rest) == |w|
  {
    if w != "" {
      assert (w + rest)[1..] == w[1..] + rest;
      WordLenExact(w[1..], rest);
    } else {
      assert w + rest == rest;
    }
  }

  lemma WordsTake(w: string, gap: string, rest: string)
    requires Word(w) && gap != "" && AllSpace(gap)
    ensures Words(w + (gap + rest)) == [w] + Words(rest)
  {
    WordLenExact(w, gap + rest);
    var t := w + (gap + rest);
    assert t[..|w|] == w && t[|w|..] == gap + rest;
    WordsSkip(gap, rest);
  }

  lemma WordsLast(w: string)
    requires Word(w)
    ensures Words(w) == [w]
  {
    WordLenExact(w, "");
    assert w + "" == w && w[..|w|] == w && w[|w|..] == "";
  }

  lemma {:induction false} SpreadWords(words: seq<string>, gaps: seq<string>)
    requires |words| == |gaps| + 1
    requires forall i :: 0 <= i < |words| ==> Word(words[i])
    requires forall i :: 0 <= i < |gaps| ==> gaps[i] != "" && AllSpace(gaps[i])
    ensures Words(Spread(words, gaps)) == words
  {
    assert Word(words[0]);
    if |gaps| == 0 {
      WordsLast(words[0]);
    } else {
      SpreadWords(words[1..], gaps[1..]);
      WordsTake(words[0], gaps[0], Spread(words[1..], gaps[1..]));
    }
  }

  lemma {:induction false} SpreadEnds(words: seq<string>, gaps: seq<string>)
    requires |words| == |gaps| + 1
    requires forall i :: 0 <= i < |words| ==> words[i] != ""
    ensures words[0] != "" && words[|gaps|] != ""
    ensures var s, last := Spread(words, gaps), words[|gaps|];
            s != "" && s[|s| - 1] == last[|last| - 1] && s[0] == words[0][0]
  {
    if |gaps| > 0 { SpreadEnds(words[1..], gaps[1..]); }
  }

  lemma CoreExact(e: Expr, l: Layout)
    requires U32Expr(e) && ValidLayout(l)
    ensures var core := PrintCore(e, l);
            Words(core) == PrintFields(e)
            && core != "" && core[0] != '@' && !IsSpace(core[0]) && !IsSpace(core[|core| - 1])
  {
    FieldIsWord(e.minute);
    FieldIsWord(e.hour);
    FieldIsWord(e.day);
    FieldIsWord(e.month);
    FieldIsWord(e.weekday);
    SpreadWords(PrintFields(e), l.gaps);
    forall i | 0 <= i < 5 ensures PrintFields(e)[i] != "" { assert Word(PrintFields(e)[i]); }
    SpreadEnds(PrintFields(e), l.gaps);
    var first, last := PrintField(e.minute), PrintField(e.weekday);
    assert first[0] in first && last[|last| - 1] in last;
  }

  lemma NotAMacro(s: string)
    requires s != "" && s[0] != '@'
    ensures ExpandMacro(s) == s
  {
  }

  lemma FieldsOfPrinted(e: Expr, l: Layout)
    requires U32Expr(e) && ValidLayout(l)
    ensures Fields(Print(e, l)) == PrintFields(e)
  {
    var core := PrintCore(e, l);
    CoreExact(e, l);
    TrimExact(l.lead, core, l.trail);
    NotAMacro(core);
  }

  lemma FieldsMeaning(e: Expr, dt: Moment)
    requires U32Expr(e)
    ensures FieldsDue(PrintFields(e), dt) <==> ExprDenotes(e, dt)
  {
    hide FieldMatches, FieldDenotes, PrintField, U32Field;
    FieldMeaning(e.minute, dt.minute, false);
    FieldMeaning(e.hour, dt.hour, false);
    FieldMeaning(e.day, dt.day, false);
    FieldMeaning(e.month, dt.month, false);
    FieldMeaning(e.weekday, dt.weekday, true);
  }

  /** The matcher run on a printed expression answers whether every component of the
      moment lies in the set its field stands for, Sunday being both 0 and 7. */
  lemma DueIffDenoted(e: Expr, l: Layout, dt: Moment)
    requires U32Expr(e) && ValidLayout(l)
    ensures CronIsDue(Print(e, l), dt) <==> ExprDenotes(e, dt)
  {
    FieldsOfPrinted(e, l);
    FieldsMeaning(e, dt);
  }

  // ----- what is not understood -----------------------------------------------------------

  /** A text is a number exactly if it consists of decimal digits, at least one, after a plus
      sign or none, and its value fits 32 bits. */
  lemma ParseExact(s: string)
    ensures var d := if s != "" && s[0] == '+' then s[1..] else s;
            ParseU32(s) == if Digits(d) && DigitsValue(d) < 4_294_967_296 then Some(DigitsValue(d)) else None
  {
  }

  /** What precedes a step matches nothing, with or without a step, if it is neither a star nor
      a number nor two numbers with a dash between. */
  lemma UnreadableNeverMatches(part: string, v: nat)
    requires var spec := if SplitOnce(part, '/').Some? then SplitOnce(part, '/').value.0 else part;
             && spec != "*"
             && match SplitOnce(spec, '-')
                case None => ParseU32(spec).None?
                case Some((a, b)) => ParseU32(a).None? || ParseU32(b).None?
    ensures !PartMatchesRaw(part, v)
  {
  }

  /** Whatever the words of an expression are, it is due only if there are five of them, and
      then exactly if each matches its component. */
  lemma FiveFieldsNeeded(words: seq<string>, gaps: seq<string>, lead: string, trail: string, dt: Moment)
    requires |words| == |gaps| + 1 && AllSpace(lead) && AllSpace(trail)
    requires (forall i :: 0 <= i < |words| ==> Word(words[i])) && words[0] != "" && words[0][0] != '@'
    requires forall i :: 0 <= i < |gaps| ==> gaps[i] != "" && AllSpace(gaps[i])
    ensures CronIsDue(lead + Spread(words, gaps) + trail, dt) <==>
              && |words| == 5
              && FieldMatches(words[0], dt.minute, false) && FieldMatches(words[1], dt.hour, false)
              && FieldMatches(words[2], dt.day, false) && FieldMatches(words[3], dt.month, false)
              && FieldMatches(words[4], dt.weekday, true)
  {
    hide FieldMatches;
    var core := Spread(words, gaps);
    SpreadWords(words, gaps);
    SpreadEnds(words, gaps);
    assert Word(words[0]) && Word(words[|gaps|]);
    TrimExact(lead, core, trail);
    NotAMacro(core);
  }

  /** A step that is not a 32-bit number is not rejected: the part then matches as if it
      had no step. */
  lemma UnreadableStepIgnored(spec: string, step: string, v: nat)
    requires '/' !in spec && ParseU32(step).None?
    ensures PartMatchesRaw(spec + "/" + step, v) == PartMatchesRaw(spec, v)
  {
    SplitOnceExact(spec, '/', step);
    assert spec + ['/'] + step == spec + "/" + step;
  }

  const ALWAYS: seq<Part> := [Part(Any, None)]

  function Exactly(n: nat): seq<Part> { [Part(From(n), None)] }

  /** What the six macros stand for, blanks around them ignored. */
  function MacroMeaning(m: string): Option<Expr> {
    if m == "@yearly" || m == "@annually" then Some(Expr(Exactly(0), Exactly(0), Exactly(1), Exactly(1), ALWAYS))
    else if m == "@monthly" then Some(Expr(Exactly(0), Exactly(0), Exactly(1), ALWAYS, ALWAYS))
    else if m == "@weekly" then Some(Expr(Exactly(0), Exactly(0), ALWAYS, ALWAYS, Exactly(0)))
    else if m == "@daily" || m == "@midnight" then Some(Expr(Exactly(0), Exactly(0), ALWAYS, ALWAYS, ALWAYS))
    else if m == "@hourly" then Some(Expr(Exactly(0), ALWAYS, ALWAYS, ALWAYS, ALWAYS))
    else if m == "@every_minute" then Some(Expr(ALWAYS, ALWAYS, ALWAYS, ALWAYS, ALWAYS))
    else None
  }

  lemma FieldOfOne(p: Part)
    ensures PrintField([p]) == PrintPart(p)
  {
    assert PrintParts([p]) == [PrintPart(p)];
  }

  lemma OneCharWord(a: char, rest: string)
    requires !IsSpace(a)
    ensures Words([a, ' '] + rest) == [[a]] + Words(rest)
  {
    WordsTake([a], " ", rest);
    assert [a, ' '] + rest == [a] + (" " + rest);
  }

  lemma FiveCharWords(a: char, b: char, c: char, d: char, e: char, t: string)
    requires !IsSpace(a) && !IsSpace(b) && !IsSpace(c) && !IsSpace(d) && !IsSpace(e)
    requires t == [a, ' '] + ([b, ' '] + ([c, ' '] + ([d, ' '] + [e])))
    ensures Words(t) == [[a]] + ([[b]] + ([[c]] + ([[d]] + [[e]])))
  {
    WordsLast([e]);
    OneCharWord(d, [e]);
    OneCharWord(c, [d, ' '] + [e]);
    OneCharWord(b, [c, ' '] + ([d, ' '] + [e]));
    OneCharWord(a, [b, ' '] + ([c, ' '] + ([d, ' '] + [e])));
  }

  lemma FiveChars(a: char, b: char, c: char, d: char, e: char)
    requires !IsSpace(a) && !IsSpace(b) && !IsSpace(c) && !IsSpace(d) && !IsSpace(e)
    ensures Words([a, ' ', b, ' ', c, ' ', d, ' ', e]) == [[a], [b], [c], [d], [e]]
  {
    var t := [a, ' ', b, ' ', c, ' ', d, ' ', e];
    FiveCharWords(a, b, c, d, e, t);
  }

  lemma SimpleFields()
    ensures PrintField(ALWAYS) == "*" && PrintField(Exactly(0)) == "0" && PrintField(Exactly(1)) == "1"
  {
    FieldOfOne(Part(Any, None));
    FieldOfOne(Part(From(0), None));
    FieldOfOne(Part(From(1), None));
    assert ALWAYS == [Part(Any, None)];
    assert PrintPart(Part(Any, None)) == "*";
    assert PrintPart(Part(From(0), None)) == "0" && PrintPart(Part(From(1), None)) == "1";
  }

  lemma MacroExpands(m: string)
    requires MacroMeaning(m).Some?
    ensures Words(ExpandMacro(m)) == PrintFields(MacroMeaning(m).value)
  {
    SimpleFields();
    if m == "@yearly" || m == "@annually" { FiveChars('0', '0', '1', '1', '*'); }
    else if m == "@monthly" { FiveChars('0', '0', '1', '*', '*'); }
    else if m == "@weekly" { FiveChars('0', '0', '*', '*', '0'); }
    else if m == "@daily" || m == "@midnight" { FiveChars('0', '0', '*', '*', '*'); }
    else if m == "@hourly" { FiveChars('0', '*', '*', '*', '*'); }
    else {
      assert ExpandMacro(m) == "* * * * *";
      FiveChars('*', '*', '*', '*', '*');
    }
  }

  lemma MacroEnds(m: string)
    requires MacroMeaning(m).Some?
    ensures m != "" && !IsSpace(m[0]) && !IsSpace(m[|m| - 1])
    ensures U32Expr(MacroMeaning(m).value)
  {
    assert |m| > 5 && m[0] == '@' && 'a' <= m[|m| - 1] <= 'z';
  }

  lemma MacroFields(m: string, lead: string, trail: string)
    requires MacroMeaning(m).Some? && AllSpace(lead) && AllSpace(trail)
    ensures Fields(lead + m + trail) == PrintFields(MacroMeaning(m).value)
    ensures U32Expr(MacroMeaning(m).value)
  {
    MacroEnds(m);
    TrimExact(lead, m, trail);
    MacroExpands(m);
  }

  lemma MacroDueIffDenoted(m: string, lead: string, trail: string, dt: Moment)
    requires MacroMeaning(m).Some? && AllSpace(lead) && AllSpace(trail)
    ensures CronIsDue(lead + m + trail, dt) <==> ExprDenotes(MacroMeaning(m).value, dt)
  {
    MacroFields(m, lead, trail);
    FieldsMeaning(MacroMeaning(m).value, dt);
  }
}
