/**
  Where the scanners of src/sql_text.rs find the end of a literal, stated about
  the text and not about their steps, and that nothing inside one is significant.
 */
module LiteralBodies {
  import opened Prelude
  import opened SqlBytes
  import QuotedIdentifiers
  import TrailingIdentifiers
  import ParenProfile

  predicate IsQuoteMode(mode: Mode, quote: char) {
    || (mode == SingleQuote && quote == '\'')
    || (mode == DoubleQuote && quote == '"')
    || (mode == Backtick && quote == '`')
  }

  /** A quoted literal ends after its first undoubled quote: its body is a text with every quote doubled. */
  lemma {:induction false} QuotedBodyEnds(b: string, i: nat, e: nat, mode: Mode, quote: char)
    requires IsQuoteMode(mode, quote) && i <= |b|
    ensures BodyEnd(b, i, mode) == Some(e) <==>
      && i < e <= |b|
      && b[e - 1] == quote
      && QuotedIdentifiers.InnerIsWellFormed(b[i..e - 1], quote)
      && (e == |b| || b[e] != quote)
    decreases |b| - i
  {
    if i < |b| {
      var (j, m) := InsideStep(b, i, mode);
      if m.Plain? {
        if i < e - 1 < |b| {
          assert b[i..e - 1][0] == quote;
        }
      } else {
        QuotedBodyEnds(b, j, e, mode, quote);
        if i < e <= |b| {
          if j <= e - 1 {
            assert b[i..e - 1][j - i..] == b[j..e - 1];
          }
        }
      }
    }
  }

  /** Any content can be quoted: with its quotes doubled, the literal ends exactly where it was closed. */
  lemma {:induction false} QuotedContentRoundTrips(prefix: string, content: string, suffix: string, mode: Mode, quote: char)
    requires IsQuoteMode(mode, quote) && (suffix == "" || suffix[0] != quote)
    ensures var body := QuotedIdentifiers.Doubled(content, quote);
      BodyEnd(prefix + body + [quote] + suffix, |prefix|, mode) == Some(|prefix| + |body| + 1)
  {
    var body := QuotedIdentifiers.Doubled(content, quote);
    var b, i := prefix + body + [quote] + suffix, |prefix|;
    QuotedIdentifiers.DoubledIsWellFormed(content, quote);
    assert b[i..i + |body|] == body;
    QuotedBodyEnds(b, i, i + |body| + 1, mode, quote);
  }

  /** What closes a q-quote, a dollar quote or a block comment. */
  function Closer(mode: Mode): string
    requires mode.QQuote? || mode.DollarQuote? || mode.BlockComment?
  {
    match mode
    case QQuote(closing) => [closing, '\'']
    case DollarQuote(tag) => tag
    case BlockComment => "*/"
  }

  /** The first occurrence of `closer` from byte `i` on ends at `e`. */
  ghost predicate ClosesFirstAt(b: string, i: nat, e: nat, closer: string) {
    && i <= e - |closer|
    && HasAt(b, e - |closer|, closer)
    && forall k :: i <= k < e - |closer| ==> !HasAt(b, k, closer)
  }

  lemma {:induction false} ClosesFirstStep(b: string, i: nat, e: nat, closer: string)
    requires i < |b| && closer != ""
    ensures HasAt(b, i, closer) ==> (ClosesFirstAt(b, i, e, closer) <==> e == i + |closer|)
    ensures !HasAt(b, i, closer) ==> (ClosesFirstAt(b, i, e, closer) <==> ClosesFirstAt(b, i + 1, e, closer))
  {
  }

  /** These end after the first occurrence of their closer. */
  lemma {:induction false} DelimitedBodyEnds(b: string, i: nat, e: nat, mode: Mode)
    requires mode.Ok() && (mode.QQuote? || mode.DollarQuote? || mode.BlockComment?) && i <= |b|
    ensures BodyEnd(b, i, mode) == Some(e) <==> ClosesFirstAt(b, i, e, Closer(mode))
    decreases |b| - i
  {
    if i < |b| {
      ClosesIffHasCloser(b, i, mode);
      ClosesFirstStep(b, i, e, Closer(mode));
      if !HasAt(b, i, Closer(mode)) {
        DelimitedBodyEnds(b, i + 1, e, mode);
      }
    }
  }

  lemma {:induction false} ClosesIffHasCloser(b: string, i: nat, mode: Mode)
    requires mode.Ok() && (mode.QQuote? || mode.DollarQuote? || mode.BlockComment?) && i < |b|
    ensures InsideStep(b, i, mode) == if HasAt(b, i, Closer(mode)) then (i + |Closer(mode)|, Plain) else (i + 1, mode)
  {
    if mode.QQuote? && b[i] == mode.closing && Byte(b, i + 1) == Some('\'') {
      assert b[i..i + 2] == [mode.closing, '\''];
    }
    if mode.QQuote? && HasAt(b, i, Closer(mode)) {
      assert b[i] == b[i..i + 2][0] && b[i + 1] == b[i..i + 2][1];
    }
  }

  // ----- Bodies without an end -----

  /** A quoted literal is never closed exactly when every quote up to the end of the text is doubled. */
  lemma {:induction false} QuotedNeverEnds(b: string, i: nat, mode: Mode, quote: char)
    requires IsQuoteMode(mode, quote) && i <= |b|
    ensures BodyEnd(b, i, mode) == None <==> QuotedIdentifiers.InnerIsWellFormed(b[i..], quote)
    decreases |b| - i
  {
    if i < |b| {
      assert b[i..][0] == b[i];
      var (j, m) := InsideStep(b, i, mode);
      if !m.Plain? {
        QuotedNeverEnds(b, j, mode, quote);
        assert b[i..][j - i..] == b[j..];
      }
    }
  }

  lemma {:induction false} DelimitedNeverEnds(b: string, i: nat, mode: Mode)
    requires mode.Ok() && (mode.QQuote? || mode.DollarQuote? || mode.BlockComment?) && i <= |b|
    ensures BodyEnd(b, i, mode) == None <==> forall k :: i <= k < |b| ==> !HasAt(b, k, Closer(mode))
    decreases |b| - i
  {
    if i < |b| {
      ClosesIffHasCloser(b, i, mode);
      if !HasAt(b, i, Closer(mode)) {
        DelimitedNeverEnds(b, i + 1, mode);
      }
    }
  }

  // ----- Nothing inside counts -----

  lemma {:induction false} WordsSkipBodies(b: string, i: nat, mode: Mode)
    requires TrailingIdentifiers.ScanState(b, i, mode) && !mode.Plain?
    ensures TrailingIdentifiers.Items(b, i, mode)
      == match BodyEnd(b, i, mode) case None => [] case Some(e) => TrailingIdentifiers.Items(b, e, Plain)
    decreases |b| - i
  {
    if i < |b| {
      var (j, m) := InsideStep(b, i, mode);
      if !m.Plain? {
        WordsSkipBodies(b, j, mode);
      }
    }
  }

  lemma {:induction false} ParensSkipBodies(b: string, i: nat, mode: Mode, leading: bool)
    requires ParenProfile.ScanState(b, i, mode) && !mode.Plain?
    ensures ParenProfile.Tokens(b, i, mode, leading)
      == match BodyEnd(b, i, mode) case None => [] case Some(e) => ParenProfile.Tokens(b, e, Plain, leading)
    decreases |b| - i
  {
    if i < |b| {
      var (j, m) := InsideStep(b, i, mode);
      if !m.Plain? {
        ParensSkipBodies(b, j, mode, leading);
      }
    }
  }
}
