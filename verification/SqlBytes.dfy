/**
  Byte classes and literal recognizers shared by the scanners of src/sql_text.rs.
  A text is a sequence of characters, one per byte, and `Byte` is `bytes.get(i)`.
 */
module SqlBytes {
  import opened Prelude

  // ----- Byte classes -----

  predicate IsAsciiWhitespace(c: char) {
    c == ' ' || c == '\t' || c == '\n' || c == '\r' || c == '\U{000C}'
  }

  /** The Unicode `White_Space` property, as `char::is_whitespace` reads it. */
  predicate IsWhitespace(c: char) {
    || '\t' <= c <= '\r' || c == ' '
    || c == '\U{0085}' || c == '\U{00A0}' || c == '\U{1680}'
    || '\U{2000}' <= c <= '\U{200A}'
    || c == '\U{2028}' || c == '\U{2029}' || c == '\U{202F}' || c == '\U{205F}' || c == '\U{3000}'
  }

  predicate IsAsciiAlphabetic(c: char) {
    'a' <= c <= 'z' || 'A' <= c <= 'Z'
  }

  predicate IsAsciiDigit(c: char) {
    '0' <= c <= '9'
  }

  predicate IsIdentifierByte(c: char) {
    IsAsciiAlphabetic(c) || IsAsciiDigit(c) || c == '_' || c == '$' || c == '#'
  }

  predicate IsIdentifierStartByte(c: char) {
    IsAsciiAlphabetic(c) || c == '_' || c == '$' || c == '#'
  }

  function Byte(b: string, i: nat): Option<char> {
    if i < |b| then Some(b[i]) else None
  }

  predicate HasAt(b: string, i: nat, part: string) {
    i + |part| <= |b| && b[i..i + |part|] == part
  }

  lemma {:induction false} HasAtInSlice(b: string, s: nat, e: nat, k: nat, part: string)
    requires s <= e <= |b| && s + k + |part| <= e
    ensures HasAt(b[s..e], k, part) <==> HasAt(b, s + k, part)
  {
    SliceOfSlice(b, s, e, k, k + |part|);
  }

  /** End of the run of identifier bytes that covers `i`, or `i` itself. */
  function RunEnd(b: string, i: nat): (r: nat)
    requires i <= |b|
    ensures i <= r <= |b|
    ensures forall j :: i <= j < r ==> IsIdentifierByte(b[j])
    ensures r < |b| ==> !IsIdentifierByte(b[r])
    decreases |b| - i
  {
    if i < |b| && IsIdentifierByte(b[i]) then RunEnd(b, i + 1) else i
  }

  // ----- Comments, q-quotes and dollar quotes -----

  function SqlLineCommentPrefixLen(b: string, i: nat): Option<nat> {
    if Byte(b, i) == Some('-') && Byte(b, i + 1) == Some('-') then Some(2)
    else if Byte(b, i) == Some('#') && (i == 0 || !IsIdentifierByte(b[i - 1])) then Some(1)
    else None
  }

  predicate StartsBlockComment(b: string, i: nat) {
    Byte(b, i) == Some('/') && Byte(b, i + 1) == Some('*')
  }

  predicate IsValidQQuoteDelimiter(c: char) {
    !IsWhitespace(c) && c != '\''
  }

  function QQuoteClosing(c: char): char {
    match c
    case '[' => ']'
    case '(' => ')'
    case '{' => '}'
    case '<' => '>'
    case _ => c
  }

  datatype QQuotePrefix = QQuotePrefix(prefixLen: nat, closing: char)

  /** The q-quote opener at `i`: `q'X`, `nq'X` or `uq'X`, not glued to an identifier. */
  function QQuotePrefixAt(b: string, i: nat): (r: Option<QQuotePrefix>)
    ensures r.Some? ==> i + r.value.prefixLen <= |b| && r.value.prefixLen >= 3
    ensures r.Some? ==> !IsWhitespace(r.value.closing) && r.value.closing != '\''
    ensures r.Some? ==> '\'' in b
    ensures r.Some? ==> forall j :: i <= j < i + r.value.prefixLen ==> !IsWhitespace(b[j])
  {
    if i >= |b| || (i > 0 && IsIdentifierByte(b[i - 1])) then None
    else if b[i] in "qQ" && Byte(b, i + 1) == Some('\'') then QQuoteDelimiterAt(b, i, 2)
    else if b[i] in "nNuU" && Byte(b, i + 1).Some? && b[i + 1] in "qQ" && Byte(b, i + 2) == Some('\'') then QQuoteDelimiterAt(b, i, 3)
    else None
  }

  function QQuoteDelimiterAt(b: string, i: nat, offset: nat): Option<QQuotePrefix> {
    if i + offset < |b| && IsValidQQuoteDelimiter(b[i + offset])
    then Some(QQuotePrefix(offset + 1, QQuoteClosing(b[i + offset])))
    else None
  }

  predicate IsDollarTagByte(c: char) {
    IsAsciiAlphabetic(c) || IsAsciiDigit(c) || c == '_'
  }

  /** The index of the `$` that ends a dollar-quote tag whose body is scanned from `i`. */
  function DollarTagEnd(b: string, i: nat): (r: Option<nat>)
    ensures r.Some? ==> i <= r.value < |b| && b[r.value] == '$' && forall j :: i <= j < r.value ==> IsDollarTagByte(b[j])
    decreases |b| - i
  {
    if i >= |b| then None
    else if b[i] == '$' then Some(i)
    else if !IsDollarTagByte(b[i]) then None
    else DollarTagEnd(b, i + 1)
  }

  predicate IsDollarTag(tag: string) {
    |tag| >= 2 && tag[0] == '$' && tag[|tag| - 1] == '$' && forall j :: 0 < j < |tag| - 1 ==> IsDollarTagByte(tag[j])
  }

  function ParseDollarQuoteTag(b: string, start: nat): (r: Option<string>)
    ensures r.Some? ==> IsDollarTag(r.value) && HasAt(b, start, r.value)
  {
    if Byte(b, start) != Some('$') then None
    else
      match DollarTagEnd(b, start + 1)
      case None => None
      case Some(end) => Some(b[start..end + 1])
  }

  lemma {:induction false} DollarTagEndIs(b: string, i: nat, e: nat)
    requires i <= e < |b| && b[e] == '$' && forall j :: i <= j < e ==> IsDollarTagByte(b[j])
    ensures DollarTagEnd(b, i) == Some(e)
    decreases e - i
  {
    if i < e {
      DollarTagEndIs(b, i + 1, e);
    }
  }

  /** A tag is read exactly where one stands. */
  lemma {:induction false} DollarTagIsRead(b: string, start: nat, tag: string)
    ensures ParseDollarQuoteTag(b, start) == Some(tag) <==> IsDollarTag(tag) && HasAt(b, start, tag)
  {
    if IsDollarTag(tag) && HasAt(b, start, tag) {
      var end := start + |tag| - 1;
      assert forall j :: start <= j <= end ==> b[j] == b[start..end + 1][j - start];
      DollarTagEndIs(b, start + 1, end);
    }
  }

  predicate LooksLikeConditionalCompilationFlag(b: string, i: nat) {
    HasAt(b, i, "$$") && i + 2 < |b| && IsIdentifierStartByte(b[i + 2])
  }

  // ----- Modes -----

  /** The scanners' mutually exclusive flags (`in_single_quote`, `q_quote_end`, ...) as one value. */
  datatype Mode =
    | Plain
    | LineComment
    | BlockComment
    | QQuote(closing: char)
    | SingleQuote
    | DoubleQuote
    | Backtick
    | DollarQuote(tag: string)
  {
    predicate IsLiteral() {
      QQuote? || SingleQuote? || DoubleQuote? || Backtick? || DollarQuote?
    }

    /** What every opener guarantees about the closer it remembers. */
    predicate Ok() {
      match this
      case QQuote(closing) => !IsWhitespace(closing)
      case DollarQuote(tag) => IsDollarTag(tag)
      case _ => true
    }
  }

  /** One step of a scanner inside a block comment or a literal. */
  function InsideStep(b: string, i: nat, mode: Mode): (r: (nat, Mode))
    requires i < |b| && mode.Ok() && !mode.Plain? && !mode.LineComment?
    ensures i < r.0 <= |b|
    ensures r.1 == mode || r.1 == Plain
    ensures forall j :: i < j < r.0 ==> b[j] != '\n'
    ensures r.1 != mode && mode.IsLiteral() ==> b[r.0 - 1] in "'\"`$" && b[i] != '\n'
  {
    match mode
    case BlockComment =>
      if HasAt(b, i, "*/") then
        PartAt(b, i, "*/");
        (i + 2, Plain)
      else (i + 1, mode)
    case QQuote(closing) => if b[i] == closing && Byte(b, i + 1) == Some('\'') then (i + 2, Plain) else (i + 1, mode)
    case SingleQuote => QuoteStep(b, i, mode, '\'')
    case DoubleQuote => QuoteStep(b, i, mode, '"')
    case Backtick => QuoteStep(b, i, mode, '`')
    case DollarQuote(tag) =>
      if HasAt(b, i, tag) then
        PartAt(b, i, tag);
        (i + |tag|, Plain)
      else (i + 1, mode)
  }

  lemma {:induction false} PartAt(b: string, i: nat, part: string)
    requires HasAt(b, i, part)
    ensures forall j :: i <= j < i + |part| ==> b[j] == part[j - i]
  {
    assert forall j :: i <= j < i + |part| ==> b[j] == b[i..i + |part|][j - i];
  }

  /** Inside a quote that is escaped by doubling it. */
  function QuoteStep(b: string, i: nat, mode: Mode, quote: char): (nat, Mode)
    requires i < |b|
  {
    if b[i] != quote then (i + 1, mode)
    else if Byte(b, i + 1) == Some(quote) then (i + 2, mode)
    else (i + 1, Plain)
  }

  /** The byte after the literal (or block comment) that the scanner is inside of at `i`. */
  function BodyEnd(b: string, i: nat, mode: Mode): (r: Option<nat>)
    requires i <= |b| && mode.Ok() && !mode.Plain? && !mode.LineComment?
    ensures r.Some? ==> i < r.value <= |b|
    decreases |b| - i
  {
    if i == |b| then None
    else
      var (j, m) := InsideStep(b, i, mode);
      if m.Plain? then Some(j) else BodyEnd(b, j, mode)
  }
}
