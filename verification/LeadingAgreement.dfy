/**
  The words a line starts with against the full tokenization (src/sql_text.rs): the reader
  of leading words knows comments but no literals, so it takes the `q` of a q-quote for a word.
 */
module LeadingAgreement {
  import opened Prelude
  import opened SqlBytes
  import opened LiteralBodies
  import LeadingWords
  import Trailing = TrailingIdentifiers

  type Range = (nat, nat)

  /** Where the leading words from byte `i` on stand. */
  function LeadingRanges(b: string, i: nat): (r: seq<Range>)
    requires i <= |b|
    ensures forall k :: 0 <= k < |r| ==> i <= r[k].0 < r[k].1 <= |b|
    decreases |b| - i
  {
    match LeadingWords.NextWord(b, i)
    case None => []
    case Some((start, end)) => [(start, end)] + LeadingRanges(b, end)
  }

  /** Where the words of the full tokenization stand. */
  function WordRanges(items: seq<Trailing.Item>): seq<Range> {
    if items == [] then []
    else (if items[0].WordAt? then [(items[0].start, items[0].end)] else []) + WordRanges(items[1..])
  }

  function RangesFrom(b: string, i: nat): seq<Range>
    requires i <= |b|
  {
    WordRanges(Trailing.Items(b, i, Plain))
  }

  predicate RangesIn(b: string, ranges: seq<Range>) {
    forall k :: 0 <= k < |ranges| ==> ranges[k].0 <= ranges[k].1 <= |b|
  }

  function TextsOf(b: string, ranges: seq<Range>): (r: seq<string>)
    requires RangesIn(b, ranges)
    ensures |r| == |ranges|
  {
    seq(|ranges|, k requires 0 <= k < |ranges| => b[ranges[k].0..ranges[k].1])
  }

  lemma {:induction false} OneMoreText(b: string, first: Range, rest: seq<Range>)
    requires first.0 <= first.1 <= |b| && RangesIn(b, rest)
    ensures RangesIn(b, [first] + rest) && TextsOf(b, [first] + rest) == [b[first.0..first.1]] + TextsOf(b, rest)
  {
  }

  lemma {:induction false} LeadingStep(b: string, i: nat, start: nat, end: nat)
    requires i <= |b| && LeadingWords.NextWord(b, i) == Some((start, end))
    ensures LeadingRanges(b, i) == [(start, end)] + LeadingRanges(b, end)
    ensures LeadingWords.WordsFrom(b, i) == [b[start..end]] + LeadingWords.WordsFrom(b, end)
  {
  }

  lemma {:induction false} LeadingTexts(b: string, i: nat)
    requires i <= |b|
    ensures LeadingWords.WordsFrom(b, i) == TextsOf(b, LeadingRanges(b, i))
    decreases |b| - i
  {
    match LeadingWords.NextWord(b, i) {
      case None =>
      case Some((start, end)) =>
        LeadingTexts(b, end);
        LeadingStep(b, i, start, end);
        OneMoreText(b, (start, end), LeadingRanges(b, end));
    }
  }

  lemma {:induction false} WordTexts(b: string, items: seq<Trailing.Item>)
    requires Trailing.ItemsIn(b, items)
    ensures RangesIn(b, WordRanges(items)) && Trailing.Words(b, items) == TextsOf(b, WordRanges(items))
    decreases |items|
  {
    if items != [] {
      WordTexts(b, items[1..]);
      var rest := WordRanges(items[1..]);
      if items[0].WordAt? {
        var first := (items[0].start, items[0].end);
        assert WordRanges(items) == [first] + rest;
        OneMoreText(b, first, rest);
      }
    }
  }

  // ----- One step of either reader -----

  lemma {:induction false} SpaceHoldsNoWord(b: string, i: nat)
    requires i < |b| && IsAsciiWhitespace(b[i])
    ensures RangesFrom(b, i) == RangesFrom(b, i + 1)
  {
    assert Trailing.ForwardMove(b, i, Plain) == Trailing.Skip(i + 1, Plain);
  }

  lemma {:induction false} CommentHoldsNoWord(b: string, i: nat)
    requires i < |b| && StartsBlockComment(b, i) && BodyEnd(b, i + 2, BlockComment).Some?
    ensures RangesFrom(b, i) == RangesFrom(b, BodyEnd(b, i + 2, BlockComment).value)
  {
    assert Trailing.ForwardMove(b, i, Plain) == Trailing.Skip(i + 2, BlockComment);
    WordsSkipBodies(b, i + 2, BlockComment);
  }

  /** Blanks and comments hold no words, and no line comment starts behind them. */
  lemma {:induction false} BlanksHoldNoWords(b: string, i: nat)
    requires i <= |b| && LeadingWords.SkipBlank(b, i).Some?
    ensures var start := LeadingWords.SkipBlank(b, i).value;
      RangesFrom(b, i) == RangesFrom(b, start) && (start < |b| ==> SqlLineCommentPrefixLen(b, start).None?)
    decreases |b| - i
  {
    if i < |b| {
      if IsAsciiWhitespace(b[i]) {
        SpaceHoldsNoWord(b, i);
        BlanksHoldNoWords(b, i + 1);
      } else if StartsBlockComment(b, i) {
        CommentHoldsNoWord(b, i);
        BlanksHoldNoWords(b, BodyEnd(b, i + 2, BlockComment).value);
      }
    }
  }

  lemma {:induction false} WordStandsThere(b: string, i: nat)
    requires i < |b| && IsIdentifierStartByte(b[i]) && QQuotePrefixAt(b, i).None? && SqlLineCommentPrefixLen(b, i).None?
    ensures i < RunEnd(b, i + 1) && RangesFrom(b, i) == [(i, RunEnd(b, i + 1))] + RangesFrom(b, RunEnd(b, i + 1))
  {
    var items := Trailing.Items(b, i, Plain);
    assert Trailing.ForwardMove(b, i, Plain) == Trailing.Emit(Trailing.WordAt(i, RunEnd(b, i + 1)));
    assert items[1..] == Trailing.Items(b, RunEnd(b, i + 1), Plain);
  }

  predicate AllFrom(ranges: seq<Range>, i: nat) {
    forall k :: 0 <= k < |ranges| ==> i <= ranges[k].0
  }

  lemma {:induction false} RangesStartLater(b: string, i: nat, mode: Mode)
    requires Trailing.ScanState(b, i, mode)
    ensures AllFrom(WordRanges(Trailing.Items(b, i, mode)), i)
    decreases |b| - i
  {
    if i < |b| {
      match Trailing.ForwardMove(b, i, mode) {
        case Stop =>
        case Skip(j, m) =>
          RangesStartLater(b, j, m);
        case Emit(item) =>
          RangesStartLater(b, item.End(), Plain);
          assert Trailing.Items(b, i, mode)[1..] == Trailing.Items(b, item.End(), Plain);
          assert item.WordAt? ==> item.start == i;
      }
    }
  }

  /** No word of the tokenization stands where a q-quote opens. */
  lemma {:induction false} QQuoteIsNoWord(b: string, i: nat)
    requires i < |b| && QQuotePrefixAt(b, i).Some?
    ensures AllFrom(RangesFrom(b, i), i + 1)
  {
    var q := QQuotePrefixAt(b, i).value;
    assert Trailing.ForwardMove(b, i, Plain) == Trailing.Skip(i + q.prefixLen, QQuote(q.closing));
    RangesStartLater(b, i + q.prefixLen, QQuote(q.closing));
  }

  // ----- Agreement -----

  ghost predicate NoneIsQQuote(b: string, ranges: seq<Range>) {
    forall k :: 0 <= k < |ranges| ==> QQuotePrefixAt(b, ranges[k].0).None?
  }

  lemma {:induction false} PrefixAfterFirst(first: Range, a: seq<Range>, b: seq<Range>)
    ensures IsPrefixOf([first] + a, [first] + b) <==> IsPrefixOf(a, b)
  {
    if |a| <= |b| {
      var longer := [first] + b;
      assert longer[..1 + |a|] == [first] + b[..|a|];
      assert longer[..1 + |a|][1..] == b[..|a|] && ([first] + a)[1..] == a;
    }
  }

  lemma {:induction false} NoneIsQQuoteStep(b: string, first: Range, rest: seq<Range>)
    ensures NoneIsQQuote(b, [first] + rest) <==> QQuotePrefixAt(b, first.0).None? && NoneIsQQuote(b, rest)
  {
    var all := [first] + rest;
    assert all[0] == first && forall k :: 0 <= k < |rest| ==> all[k + 1] == rest[k];
    assert forall k :: 1 <= k < |all| ==> all[k] == rest[k - 1];
  }

  lemma {:induction false} FirstDiffers(x: seq<Range>, y: seq<Range>, start: nat)
    requires x != [] && x[0].0 == start && AllFrom(y, start + 1)
    ensures !IsPrefixOf(x, y)
  {
    if |x| <= |y| {
      assert y[..|x|][0] == y[0];
    }
  }

  lemma {:induction false} AgreeFrom(b: string, i: nat)
    requires i <= |b|
    ensures IsPrefixOf(LeadingRanges(b, i), RangesFrom(b, i)) <==> NoneIsQQuote(b, LeadingRanges(b, i))
    decreases |b| - i
  {
    match LeadingWords.NextWord(b, i) {
      case None =>
      case Some((start, end)) =>
        var rest := LeadingRanges(b, end);
        LeadingStep(b, i, start, end);
        BlanksHoldNoWords(b, i);
        NoneIsQQuoteStep(b, (start, end), rest);
        if QQuotePrefixAt(b, start).Some? {
          QQuoteIsNoWord(b, start);
          FirstDiffers([(start, end)] + rest, RangesFrom(b, start), start);
        } else {
          WordStandsThere(b, start);
          AgreeFrom(b, end);
          PrefixAfterFirst((start, end), rest, RangesFrom(b, end));
        }
    }
  }

  /**
    The leading words of a line stand where the first words of its full tokenization stand, if
    and only if none of them is the start of a q-quote.
   */
  lemma {:induction false} LeadingWordsComeFirstIff(line: string)
    ensures IsPrefixOf(LeadingRanges(line, 0), RangesFrom(line, 0)) <==> NoneIsQQuote(line, LeadingRanges(line, 0))
  {
    AgreeFrom(line, 0);
  }

  /** Then they are also the same texts. */
  lemma {:induction false} LeadingWordsComeFirst(line: string)
    requires NoneIsQQuote(line, LeadingRanges(line, 0))
    ensures IsPrefixOf(LeadingWords.LeadingIdentifierWords(line), Trailing.AllWords(line))
  {
    AgreeFrom(line, 0);
    LeadingTexts(line, 0);
    WordTexts(line, Trailing.Items(line, 0, Plain));
    PrefixOfTexts(line, LeadingRanges(line, 0), RangesFrom(line, 0));
  }

  lemma {:induction false} PrefixOfTexts(b: string, x: seq<Range>, y: seq<Range>)
    requires RangesIn(b, x) && RangesIn(b, y) && IsPrefixOf(x, y)
    ensures IsPrefixOf(TextsOf(b, x), TextsOf(b, y))
  {
    assert forall k :: 0 <= k < |x| ==> x[k] == y[..|x|][k] == y[k];
  }

  const QQUOTED := "q'!a!'"

  lemma {:induction false} QQuotedIsOneLiteral()
    ensures Trailing.AllWords(QQUOTED) == []
  {
    assert QQuotePrefixAt(QQUOTED, 0) == Some(QQuotePrefix(3, '!'));
    assert Trailing.ForwardMove(QQUOTED, 0, Plain) == Trailing.Skip(3, QQuote('!'));
    WordsSkipBodies(QQUOTED, 3, QQuote('!'));
    assert InsideStep(QQUOTED, 3, QQuote('!')) == (4, QQuote('!')) && InsideStep(QQUOTED, 4, QQuote('!')) == (6, Plain);
    assert BodyEnd(QQUOTED, 3, QQuote('!')) == Some(6);
  }

  /** A line on which they differ: `q'!a!'` has no words, and `q` is read as its leading word. */
  lemma {:induction false} QQuoteReadAsWord()
    ensures LeadingWords.LeadingIdentifierWords(QQUOTED) == ["q"] && Trailing.AllWords(QQUOTED) == []
  {
    QQuotedIsOneLiteral();
    assert RunEnd(QQUOTED, 1) == 1 && QQUOTED[0..1] == "q";
    assert LeadingWords.NextWord(QQUOTED, 1) == None;
  }
}
