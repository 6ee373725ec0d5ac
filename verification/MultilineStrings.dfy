/**
  Which leading part of each line belongs to a literal that was already open
  when the line began (src/sql_text.rs, `multiline_string_continuation_prefix_lengths`).
  The `DELIMITER` lines of MySQL scripts are read by an arbitrary function `directive`.
 */
module MultilineStrings {
  import opened Prelude
  import opened SqlBytes
  import opened LineScanner

  type Directive = string -> Option<string>

  function ActiveDelimiter(directive: Directive, lines: seq<string>, line: nat): string {
    if line == 0 || line > |lines| then ";"
    else
      match directive(lines[line - 1])
      case Some(delimiter) => delimiter
      case None => ActiveDelimiter(directive, lines, line - 1)
  }

  /** A dollar-quote tag that opens a literal at `i`, on line `line`. */
  function OpeningDollarTag(directive: Directive, text: string, line: nat, i: nat): (r: Option<string>)
    ensures r.Some? ==> IsDollarTag(r.value) && HasAt(text, i, r.value)
  {
    var lines := Lines(text);
    if line < |lines| && directive(lines[line]).Some? then None
    else
      match ParseDollarQuoteTag(text, i)
      case None => None
      case Some(tag) =>
        if line < |lines| && ActiveDelimiter(directive, lines, line) == tag then None
        else if LooksLikeConditionalCompilationFlag(text, i) then None
        else Some(tag)
  }

  function PlainStep(directive: Directive, text: string, line: nat, i: nat): (r: (nat, Mode))
    requires i < |text|
    ensures i < r.0 <= |text| && r.1.Ok()
    ensures forall j :: i < j < r.0 ==> text[j] != '\n'
  {
    if text[i] == '\n' then (i + 1, Plain)
    else if SqlLineCommentPrefixLen(text, i).Some? then (i + SqlLineCommentPrefixLen(text, i).value, LineComment)
    else if StartsBlockComment(text, i) then (i + 2, BlockComment)
    else if QQuotePrefixAt(text, i).Some? then
      (i + QQuotePrefixAt(text, i).value.prefixLen, QQuote(QQuotePrefixAt(text, i).value.closing))
    else if OpeningDollarTag(directive, text, line, i).Some? then
      (i + |OpeningDollarTag(directive, text, line, i).value|, DollarQuote(OpeningDollarTag(directive, text, line, i).value))
    else if text[i] == '\'' then (i + 1, SingleQuote)
    else if text[i] == '"' then (i + 1, DoubleQuote)
    else if text[i] == '`' then (i + 1, Backtick)
    else (i + 1, Plain)
  }

  function Step(directive: Directive, text: string, line: nat, i: nat, mode: Mode): (r: (nat, Mode))
    requires i < |text| && mode.Ok()
    ensures StepOk(text, i, mode, r)
  {
    match mode
    case Plain => PlainStep(directive, text, line, i)
    case LineComment => (i + 1, if text[i] == '\n' then Plain else LineComment)
    case _ => InsideStep(text, i, mode)
  }

  function SqlScanner(directive: Directive, text: string): Scanner {
    (line: nat, i: nat, mode: Mode) => if i < |text| && mode.Ok() then Step(directive, text, line, i, mode) else (i, mode)
  }

  lemma {:induction false} SqlScannerOk(directive: Directive, text: string)
    ensures ScannerOk(text, SqlScanner(directive, text))
  {
  }

  /** Where the scanner of the source stops on `text`, and in which mode. */
  ghost function SqlTrace(directive: Directive, text: string): (r: Trace)
    ensures IsTrace(text, SqlScanner(directive, text), r)
  {
    SqlScannerOk(directive, text);
    TraceOf(text, SqlScanner(directive, text))
  }

  /**
    The source indexes out of range exactly for the line counts that are not safe; otherwise
    the entry of every line means what `EntryOk` says, on the trace of the whole text.
   */
  method ContinuationPrefixLengths(directive: Directive, text: string, lineCount: nat) returns (r: Option<Entries>)
    ensures r.Some? <==> CountIsSafe(text, SqlTrace(directive, text), lineCount)
    ensures r.Some? ==> |r.value| == lineCount && AllEntriesOk(text, SqlTrace(directive, text), r.value)
  {
    r := ScanLines(text, SqlScanner(directive, text), lineCount, SqlTrace(directive, text));
  }

  /** Every stop from `i` on and before `end` is in mode `mode`. */
  predicate StaysIn(trace: Trace, i: nat, end: nat, mode: Mode) {
    forall p :: i <= p < end && p < |trace| && trace[p].Some? ==> trace[p].value.mode == mode
  }

  lemma {:induction false} StaysOneStep(text: string, trace: Trace, i: nat, j: nat, end: nat, mode: Mode)
    requires StopsNext(text, trace, i, j, mode) && trace[i].value.mode == mode && StaysIn(trace, j, end, mode)
    ensures StaysIn(trace, i, end, mode)
  {
  }

  /** From any stop inside a literal or block comment, the scanner stays in it up to the byte behind it, and is in plain SQL there. */
  lemma {:induction false} BodyLastsUntilItsEnd(directive: Directive, text: string, trace: Trace, i: nat, mode: Mode)
    requires IsTrace(text, SqlScanner(directive, text), trace) && i <= |text|
    requires trace[i].Some? && trace[i].value.mode == mode && mode.Ok() && !mode.Plain? && !mode.LineComment?
    ensures match BodyEnd(text, i, mode)
      case None => StaysIn(trace, i, |text| + 1, mode) && trace[|text|].Some?
      case Some(e) => StaysIn(trace, i, e, mode) && trace[e] == Some(Arrival(Plain, mode.IsLiteral()))
    decreases |text| - i
  {
    if i < |text| {
      TraceContinues(text, SqlScanner(directive, text), trace, i);
      var (j, m) := InsideStep(text, i, mode);
      if !m.Plain? {
        BodyLastsUntilItsEnd(directive, text, trace, j, mode);
        var end := match BodyEnd(text, j, mode) case None => |text| + 1 case Some(e) => e;
        StaysOneStep(text, trace, i, j, end, mode);
      }
    }
  }

  // ----- A line on which the entry is not the end of the literal it starts in -----

  const TWO_LITERALS := "'a\nb' 'c'"

  /** On quotes, letters, spaces and newlines the scanner only toggles between plain SQL and a quoted literal. */
  lemma {:induction false} QuoteSteps(directive: Directive, text: string, line: nat, i: nat)
    requires i < |text| && text[i] in "'abc \n" && (i + 1 < |text| && text[i] == '\'' ==> text[i + 1] != '\'')
    ensures SqlScanner(directive, text)(line, i, SingleQuote) == (i + 1, if text[i] == '\'' then Plain else SingleQuote)
    ensures SqlScanner(directive, text)(line, i, Plain) == (i + 1, if text[i] == '\'' then SingleQuote else Plain)
  {
  }

  predicate QuotedBefore(i: nat) {
    i !in {0, 5, 6, 9}
  }

  /** One step of the scanner over `TWO_LITERALS`. */
  lemma {:induction false} TwoLiteralsStep(directive: Directive, trace: Trace, i: nat)
    requires i < 9 && IsTrace(TWO_LITERALS, SqlScanner(directive, TWO_LITERALS), trace)
    requires trace[i].Some? && trace[i].value.mode == if QuotedBefore(i) then SingleQuote else Plain
    ensures trace[i + 1].Some? && trace[i + 1].value.mode == if QuotedBefore(i + 1) then SingleQuote else Plain
    ensures trace[i + 1].value.leftLiteral == (i + 1 in {5, 9})
  {
    QuoteSteps(directive, TWO_LITERALS, LineNumber(TWO_LITERALS, i), i);
    TraceContinues(TWO_LITERALS, SqlScanner(directive, TWO_LITERALS), trace, i);
  }

  lemma {:induction false} TwoLiteralsTrace(directive: Directive, trace: Trace)
    requires IsTrace(TWO_LITERALS, SqlScanner(directive, TWO_LITERALS), trace)
    ensures InLiteral(trace, 3) && LeavesLiteral(trace, 5) && LeavesLiteral(trace, 9)
  {
    TraceStarts(TWO_LITERALS, SqlScanner(directive, TWO_LITERALS), trace);
    for i := 0 to 9
      invariant trace[i].Some? && trace[i].value.mode == if QuotedBefore(i) then SingleQuote else Plain
      invariant i >= 3 ==> InLiteral(trace, 3)
      invariant i >= 5 ==> LeavesLiteral(trace, 5)
      invariant i >= 9 ==> LeavesLiteral(trace, 9)
    {
      TwoLiteralsStep(directive, trace, i);
    }
  }

  /**
    The second line of `'a\nb' 'c'` starts in a literal that ends after two bytes, but its
    entry is the whole line: the close of the second literal overwrites the first.
   */
  lemma {:induction false} SecondLiteralOverwrites(directive: Directive, entry: Option<nat>)
    requires EntryOk(TWO_LITERALS, SqlTrace(directive, TWO_LITERALS), 3, entry)
    ensures LeavesLiteral(SqlTrace(directive, TWO_LITERALS), 3 + 2)
    ensures entry == Some(6)
  {
    TwoLiteralsTrace(directive, SqlTrace(directive, TWO_LITERALS));
    TwoLiteralsLine();
    EntryAtLineEnd(TWO_LITERALS, SqlTrace(directive, TWO_LITERALS), 3, entry);
  }

  lemma {:induction false} TwoLiteralsLine()
    ensures LineEnd(TWO_LITERALS, 3) == 9
  {
    LineEndIs(TWO_LITERALS, 3, 9);
  }

  /** A literal left at the very end of a line makes the whole line its entry. */
  lemma {:induction false} EntryAtLineEnd(text: string, trace: Trace, s: nat, entry: Option<nat>)
    requires s <= |text| && InLiteral(trace, s) && LeavesLiteral(trace, LineEnd(text, s)) && EntryOk(text, trace, s, entry)
    ensures entry == Some(LineEnd(text, s) - s)
  {
  }
}
