/**
  Quoted identifiers (src/sql_text.rs): recognizing a name wrapped in `"`, a
  backtick or brackets, and unwrapping it.  Recognition and unwrapping are
  inverse to wrapping a name with its closing delimiter doubled.
 */
module QuotedIdentifiers {
  import opened Prelude
  import opened Trimming

  // ----- Recognizing and unwrapping -----

  /** Every delimiter inside the wrapper is doubled. */
  predicate InnerIsWellFormed(inner: string, delimiter: char) {
    if inner == "" then true
    else if inner[0] != delimiter then InnerIsWellFormed(inner[1..], delimiter)
    else |inner| >= 2 && inner[1] == delimiter && InnerIsWellFormed(inner[2..], delimiter)
  }

  /** The loop of the source: a delimiter must be followed by its twin. */
  method CheckInner(inner: string, delimiter: char) returns (ok: bool)
    ensures ok == InnerIsWellFormed(inner, delimiter)
  {
    var i := 0;
    while i < |inner|
      invariant 0 <= i <= |inner|
      invariant InnerIsWellFormed(inner, delimiter) == InnerIsWellFormed(inner[i..], delimiter)
    {
      var ch := inner[i];
      i := i + 1;
      if ch != delimiter {
        continue;
      }
      if i < |inner| && inner[i] == delimiter {
        i := i + 1;
        continue;
      }
      return false;
    }
    ok := true;
  }

  function ClosingOf(opening: char): char {
    if opening == '[' then ']' else opening
  }

  predicate IsOpening(c: char) {
    c == '"' || c == '`' || c == '['
  }

  function QuotedIdentifierDelimiter(value: string): Option<char> {
    var trimmed := Trim(value);
    if |trimmed| < 2 || !IsOpening(trimmed[0]) || trimmed[|trimmed| - 1] != ClosingOf(trimmed[0]) then None
    else if InnerIsWellFormed(trimmed[1..|trimmed| - 1], ClosingOf(trimmed[0])) then Some(trimmed[0])
    else None
  }

  /** `str::replace` of the doubled delimiter by a single one, left to right. */
  function Undoubled(s: string, delimiter: char): string {
    if s == "" then ""
    else if |s| >= 2 && s[0] == delimiter && s[1] == delimiter then [delimiter] + Undoubled(s[2..], delimiter)
    else [s[0]] + Undoubled(s[1..], delimiter)
  }

  function StripIdentifierQuotes(value: string): string {
    var trimmed := Trim(value);
    match QuotedIdentifierDelimiter(trimmed)
    case None => trimmed
    case Some(opening) =>
      if |trimmed| < 2 then trimmed else Undoubled(trimmed[1..|trimmed| - 1], ClosingOf(opening))
  }

  // ----- Wrapping, and that it is the inverse -----

  function Doubled(name: string, delimiter: char): string {
    if name == "" then "" else (if name[0] == delimiter then [delimiter, delimiter] else [name[0]]) + Doubled(name[1..], delimiter)
  }

  function Quote(name: string, opening: char): string {
    [opening] + Doubled(name, ClosingOf(opening)) + [ClosingOf(opening)]
  }

  lemma {:induction false} DoubledIsWellFormed(name: string, delimiter: char)
    ensures InnerIsWellFormed(Doubled(name, delimiter), delimiter)
    ensures Undoubled(Doubled(name, delimiter), delimiter) == name
  {
    if name != "" {
      DoubledIsWellFormed(name[1..], delimiter);
      var rest := Doubled(name[1..], delimiter);
      var all := Doubled(name, delimiter);
      if name[0] == delimiter {
        assert all[2..] == rest;
      } else {
        assert all[1..] == rest;
      }
    }
  }

  lemma {:induction false} UndoubledIsInverse(inner: string, delimiter: char)
    requires InnerIsWellFormed(inner, delimiter)
    ensures Doubled(Undoubled(inner, delimiter), delimiter) == inner
    decreases |inner|
  {
    if inner == "" {
    } else if inner[0] == delimiter {
      UndoubledIsInverse(inner[2..], delimiter);
      var u := Undoubled(inner, delimiter);
      assert u[1..] == Undoubled(inner[2..], delimiter);
    } else {
      UndoubledIsInverse(inner[1..], delimiter);
      var u := Undoubled(inner, delimiter);
      assert u[1..] == Undoubled(inner[1..], delimiter);
    }
  }

  lemma {:induction false} TrimmedQuoteIsRead(name: string, opening: char, value: string)
    requires IsOpening(opening) && Trim(value) == Quote(name, opening)
    ensures QuotedIdentifierDelimiter(value) == Some(opening)
    ensures StripIdentifierQuotes(value) == name
  {
    var quoted := Quote(name, opening);
    assert quoted[1..|quoted| - 1] == Doubled(name, ClosingOf(opening));
    DoubledIsWellFormed(name, ClosingOf(opening));
  }

  /** Any name, wrapped and with any whitespace around it, is recognized and unwraps to itself. */
  lemma {:induction false} QuotedNameRoundTrips(name: string, opening: char, before: string, after: string)
    requires IsOpening(opening) && AllWhitespace(before) && AllWhitespace(after)
    ensures QuotedIdentifierDelimiter(before + Quote(name, opening) + after) == Some(opening)
    ensures StripIdentifierQuotes(before + Quote(name, opening) + after) == name
  {
    var quoted := Quote(name, opening);
    assert quoted[0] == opening && quoted[|quoted| - 1] == ClosingOf(opening);
    TrimSkips(before, quoted, after);
    TrimmedQuoteIsRead(name, opening, before + quoted + after);
  }

  /** Exactly the wrapped names are recognized, and re-wrapping recovers the trimmed text. */
  lemma {:induction false} RecognizedIffQuotedName(value: string, opening: char)
    ensures QuotedIdentifierDelimiter(value) == Some(opening) <==>
      IsOpening(opening) && Trim(value) == Quote(StripIdentifierQuotes(value), opening)
  {
    if IsOpening(opening) && Trim(value) == Quote(StripIdentifierQuotes(value), opening) {
      TrimmedQuoteIsRead(StripIdentifierQuotes(value), opening, value);
    }
    if QuotedIdentifierDelimiter(value) == Some(opening) {
      var trimmed := Trim(value);
      var inner := trimmed[1..|trimmed| - 1];
      UndoubledIsInverse(inner, ClosingOf(opening));
      assert trimmed == [opening] + inner + [ClosingOf(opening)];
    }
  }

  /** Unwrapping is injective for each delimiter, up to surrounding whitespace. */
  lemma {:induction false} UnquotingIsInjective(a: string, b: string, opening: char)
    requires QuotedIdentifierDelimiter(a) == Some(opening) && QuotedIdentifierDelimiter(b) == Some(opening)
    ensures StripIdentifierQuotes(a) == StripIdentifierQuotes(b) <==> Trim(a) == Trim(b)
  {
    RecognizedIffQuotedName(a, opening);
    RecognizedIffQuotedName(b, opening);
  }
}
