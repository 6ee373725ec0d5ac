/**
  A text as the pieces it is made of: code, literals and comments.  A reader says what opens
  where; everything else about the pieces is a fact about the text.  Every text has pieces.
 */
module Pieces {
  import opened Prelude
  import opened SqlBytes
  import opened LiteralBodies
  import QuotedIdentifiers

  /** What opens at a byte: where its body starts, and the mode of the body. */
  type Opens = (string, nat) -> Option<(nat, Mode)>

  /** The reader of a single line ignores everything behind a line comment; that of a whole text goes on at the next line. */
  datatype Reader = Reader(opens: Opens, singleLine: bool)

  datatype Piece =
    | Code(text: string)
    | Quoted(quote: char, content: string)
    | Delimited(opener: string, mode: Mode, content: string)
    | LineRemark(text: string)
    | Unclosed(opener: string, mode: Mode, rest: string)

  // ----- Pieces on their own -----

  predicate IsQuote(c: char) {
    c == '\'' || c == '"' || c == '`'
  }

  function QuoteMode(quote: char): Mode {
    if quote == '\'' then SingleQuote else if quote == '"' then DoubleQuote else Backtick
  }

  function QuoteOf(mode: Mode): char {
    match mode case SingleQuote => '\'' case DoubleQuote => '"' case _ => '`'
  }

  predicate IsQuoted(mode: Mode) {
    mode.SingleQuote? || mode.DoubleQuote? || mode.Backtick?
  }

  predicate IsDelimited(mode: Mode) {
    mode.QQuote? || mode.DollarQuote? || mode.BlockComment?
  }

  /** The quotes of a quoted literal are doubled inside it; a delimited one holds its closer only at its end. */
  predicate IsPiece(p: Piece) {
    match p
    case Code(text) => text != ""
    case Quoted(quote, _) => IsQuote(quote)
    case Delimited(opener, mode, content) =>
      opener != "" && mode.Ok() && IsDelimited(mode) && FirstAtEnd(content, Closer(mode))
    case LineRemark(text) => text != ""
    case Unclosed(opener, mode, rest) =>
      opener != "" && mode.Ok() && if IsQuoted(mode) then QuotedIdentifiers.InnerIsWellFormed(rest, QuoteOf(mode))
                                   else IsDelimited(mode) && NowhereIn(rest, Closer(mode))
  }

  predicate NowhereIn(s: string, part: string) {
    forall k :: 0 <= k < |s| ==> !HasAt(s, k, part)
  }

  predicate FirstAtEnd(content: string, closer: string) {
    forall k :: 0 <= k < |content| ==> !HasAt(content + closer, k, closer)
  }

  function SpellPiece(p: Piece): (r: string)
    requires IsPiece(p)
    ensures r != ""
  {
    match p
    case Code(text) => text
    case Quoted(quote, content) => [quote] + QuotedIdentifiers.Doubled(content, quote) + [quote]
    case Delimited(opener, mode, content) => opener + content + Closer(mode)
    case LineRemark(text) => text
    case Unclosed(opener, _, rest) => opener + rest
  }

  // ----- Pieces in their text -----

  function EndOf(i: nat, p: Piece): nat
    requires IsPiece(p)
  {
    i + |SpellPiece(p)|
  }

  /** `p` stands at byte `i` and is what its surroundings make of it: nothing opens inside code, and only what opens is a literal. */
  predicate StandsAt(r: Reader, b: string, i: nat, p: Piece) {
    && IsPiece(p)
    && EndOf(i, p) <= |b| && b[i..EndOf(i, p)] == SpellPiece(p)
    && match p
       case Code(_) => forall m :: i <= m < EndOf(i, p) ==> r.opens(b, m).None?
       case Quoted(quote, _) => r.opens(b, i) == Some((i + 1, QuoteMode(quote))) && Byte(b, EndOf(i, p)) != Some(quote)
       case Delimited(opener, mode, _) => r.opens(b, i) == Some((i + |opener|, mode))
       case LineRemark(_) => r.opens(b, i).Some? && r.opens(b, i).value.1.LineComment? && RemarkEnds(r, b, i, EndOf(i, p))
       case Unclosed(opener, mode, _) => r.opens(b, i) == Some((i + |opener|, mode)) && EndOf(i, p) == |b|
  }

  predicate RemarkEnds(r: Reader, b: string, i: nat, e: nat)
    requires i < e <= |b|
  {
    if r.singleLine then e == |b|
    else (forall m :: i <= m < e - 1 ==> b[m] != '\n') && (e == |b| || b[e - 1] == '\n')
  }

  /** From byte `i` on, the text consists of these pieces; two codes in a row would be one. */
  predicate Reads(r: Reader, b: string, i: nat, pieces: seq<Piece>)
    decreases |pieces|
  {
    if pieces == [] then i == |b|
    else
      && StandsAt(r, b, i, pieces[0])
      && (pieces[0].Code? && |pieces| > 1 ==> !pieces[1].Code?)
      && Reads(r, b, EndOf(i, pieces[0]), pieces[1..])
  }

  function Spell(pieces: seq<Piece>): string
    requires forall k :: 0 <= k < |pieces| ==> IsPiece(pieces[k])
  {
    if pieces == [] then "" else SpellPiece(pieces[0]) + Spell(pieces[1..])
  }

  /** The pieces spell the text. */
  lemma {:induction false} PiecesSpellText(r: Reader, b: string, i: nat, pieces: seq<Piece>)
    requires Reads(r, b, i, pieces)
    ensures i <= |b| && (forall k :: 0 <= k < |pieces| ==> IsPiece(pieces[k])) && b[i..] == Spell(pieces)
    decreases |pieces|
  {
    if pieces != [] {
      var e := EndOf(i, pieces[0]);
      PiecesSpellText(r, b, e, pieces[1..]);
      assert forall k :: 1 <= k < |pieces| ==> pieces[k] == pieces[1..][k - 1];
      assert b[i..] == b[i..e] + b[e..];
    }
  }

  lemma {:induction false} SecondStands(r: Reader, b: string, i: nat, pieces: seq<Piece>)
    requires Reads(r, b, i, pieces) && |pieces| > 1
    ensures StandsAt(r, b, EndOf(i, pieces[0]), pieces[1])
  {
    assert pieces[1..][0] == pieces[1];
  }

  lemma {:induction false} CodeStands(r: Reader, b: string, i: nat, p: Piece, e: nat)
    requires StandsAt(r, b, i, p) && p.Code? && e == EndOf(i, p)
    ensures i < e <= |b| && b[i..e] == p.text && forall m :: i <= m < e ==> r.opens(b, m).None?
  {
  }

  lemma {:induction false} LastOfCode(b: string, i: nat, e: nat, text: string)
    requires i < e <= |b| && b[i..e] == text
    ensures b[e - 1] == text[|text| - 1] && b[i..e - 1] == text[..|text| - 1]
  {
    SliceOfSlice(b, i, e, 0, e - 1 - i);
  }

  // ----- Where a body ends -----

  lemma {:induction false} QuotedTextEnds(b: string, i: nat, quote: char, content: string, e: nat)
    requires IsQuote(quote) && i < e <= |b| && b[i..e] == [quote] + QuotedIdentifiers.Doubled(content, quote) + [quote]
    requires Byte(b, e) != Some(quote)
    ensures BodyEnd(b, i + 1, QuoteMode(quote)) == Some(e)
  {
    var body := QuotedIdentifiers.Doubled(content, quote);
    QuotedIdentifiers.DoubledIsWellFormed(content, quote);
    InnerPart(b, i, [quote], body, [quote]);
    assert b[e - 1] == b[i..e][e - 1 - i];
    QuotedBodyEnds(b, i + 1, e, QuoteMode(quote), quote);
  }

  lemma {:induction false} QuotedEnds(r: Reader, b: string, i: nat, p: Piece)
    requires StandsAt(r, b, i, p) && p.Quoted?
    ensures BodyEnd(b, i + 1, QuoteMode(p.quote)) == Some(EndOf(i, p))
  {
    QuotedTextEnds(b, i, p.quote, p.content, EndOf(i, p));
  }

  lemma {:induction false} InnerPart(b: string, i: nat, x: string, y: string, z: string)
    requires i + |x + y + z| <= |b| && b[i..i + |x + y + z|] == x + y + z
    ensures b[i + |x|..i + |x| + |y|] == y
    ensures b[i + |x|..i + |x + y + z|] == y + z
    ensures b[i + |x| + |y|..i + |x + y + z|] == z
  {
    var all := x + y + z;
    assert forall k :: 0 <= k < |all| ==> b[i + k] == b[i..i + |all|][k] == all[k];
    assert forall k :: 0 <= k < |y| ==> b[i + |x| + k] == b[i + (|x| + k)] == y[k];
    assert forall k :: 0 <= k < |z| ==> b[i + |x| + |y| + k] == b[i + (|x| + |y| + k)] == z[k];
  }

  lemma {:induction false} DelimitedEnds(r: Reader, b: string, i: nat, p: Piece)
    requires StandsAt(r, b, i, p) && p.Delimited?
    ensures BodyEnd(b, i + |p.opener|, p.mode) == Some(EndOf(i, p))
  {
    DelimitedTextEnds(b, i, p.opener, p.mode, p.content, EndOf(i, p));
  }

  lemma {:induction false} DelimitedTextEnds(b: string, i: nat, opener: string, mode: Mode, content: string, e: nat)
    requires mode.Ok() && IsDelimited(mode) && FirstAtEnd(content, Closer(mode))
    requires i <= e <= |b| && b[i..e] == opener + content + Closer(mode)
    ensures BodyEnd(b, i + |opener|, mode) == Some(e)
  {
    CloserBehind(b, i, opener, content, Closer(mode), e);
    FirstCloserEnds(b, i + |opener|, e, mode);
  }

  lemma {:induction false} FirstCloserEnds(b: string, start: nat, e: nat, mode: Mode)
    requires mode.Ok() && IsDelimited(mode) && start <= |b| && ClosesFirstAt(b, start, e, Closer(mode))
    ensures BodyEnd(b, start, mode) == Some(e)
  {
    DelimitedBodyEnds(b, start, e, mode);
  }

  lemma {:induction false} CloserBehind(b: string, i: nat, opener: string, content: string, closer: string, e: nat)
    requires FirstAtEnd(content, closer) && i <= e <= |b| && b[i..e] == opener + content + closer
    ensures ClosesFirstAt(b, i + |opener|, e, closer)
  {
    var start := i + |opener|;
    InnerPart(b, i, opener, content, closer);
    forall k | start <= k < e - |closer|
      ensures !HasAt(b, k, closer)
    {
      NotEarlier(b, start, content, closer, k - start);
    }
  }

  lemma {:induction false} NotEarlier(b: string, start: nat, content: string, closer: string, k: nat)
    requires start + |content| + |closer| <= |b| && b[start..start + |content| + |closer|] == content + closer
    requires FirstAtEnd(content, closer) && k < |content|
    ensures !HasAt(b, start + k, closer)
  {
    assert !HasAt(content + closer, k, closer);
    HasAtInSlice(b, start, start + |content| + |closer|, k, closer);
  }

  lemma {:induction false} NowhereBehind(b: string, start: nat, closer: string)
    requires start <= |b|
    ensures NowhereIn(b[start..], closer) <==> forall k :: start <= k < |b| ==> !HasAt(b, k, closer)
  {
    assert b[start..] == b[start..|b|];
    forall k | start <= k < |b|
      ensures HasAt(b[start..], k - start, closer) <==> HasAt(b, k, closer)
    {
      if k + |closer| <= |b| {
        HasAtInSlice(b, start, |b|, k - start, closer);
      }
    }
    if NowhereIn(b[start..], closer) {
      forall k | start <= k < |b|
        ensures !HasAt(b, k, closer)
      {
        assert !HasAt(b[start..], k - start, closer);
      }
    } else {
      var k :| 0 <= k < |b[start..]| && HasAt(b[start..], k, closer);
      assert HasAt(b, start + k, closer);
    }
  }

  lemma {:induction false} UnclosedTextNeverEnds(b: string, start: nat, mode: Mode)
    requires start <= |b| && mode.Ok()
    requires if IsQuoted(mode) then QuotedIdentifiers.InnerIsWellFormed(b[start..], QuoteOf(mode))
             else IsDelimited(mode) && NowhereIn(b[start..], Closer(mode))
    ensures BodyEnd(b, start, mode) == None
  {
    if IsQuoted(mode) {
      QuotedNeverEnds(b, start, mode, QuoteOf(mode));
    } else {
      NowhereBehind(b, start, Closer(mode));
      DelimitedNeverEnds(b, start, mode);
    }
  }

  lemma {:induction false} RestOfUnclosed(b: string, i: nat, opener: string, rest: string)
    requires i <= |b| && b[i..|b|] == opener + rest
    ensures i + |opener| <= |b| && b[i + |opener|..] == rest
  {
    SliceOfSlice(b, i, |b|, |opener|, |b| - i);
    assert (opener + rest)[|opener|..] == rest;
  }

  lemma {:induction false} UnclosedNeverEnds(r: Reader, b: string, i: nat, p: Piece)
    requires StandsAt(r, b, i, p) && p.Unclosed?
    ensures BodyEnd(b, i + |p.opener|, p.mode) == None
  {
    RestOfUnclosed(b, i, p.opener, p.rest);
    UnclosedTextNeverEnds(b, i + |p.opener|, p.mode);
  }

  /** A literal or block comment, closed or not. */
  predicate IsBody(p: Piece) {
    p.Quoted? || p.Delimited? || p.Unclosed?
  }

  function BodyMode(p: Piece): Mode
    requires IsBody(p)
  {
    if p.Quoted? then QuoteMode(p.quote) else p.mode
  }

  function BodyStart(i: nat, p: Piece): nat
    requires IsBody(p)
  {
    if p.Quoted? then i + 1 else i + |p.opener|
  }

  /** A body ends with its piece, and never if that is unclosed. */
  lemma {:induction false} BodyEndsWithPiece(r: Reader, b: string, i: nat, p: Piece)
    requires StandsAt(r, b, i, p) && IsBody(p)
    ensures r.opens(b, i) == Some((BodyStart(i, p), BodyMode(p)))
    ensures i < BodyStart(i, p) <= |b| && BodyMode(p).Ok() && !BodyMode(p).Plain? && !BodyMode(p).LineComment?
    ensures BodyEnd(b, BodyStart(i, p), BodyMode(p)) == if p.Unclosed? then None else Some(EndOf(i, p))
  {
    match p {
      case Quoted(_, _) => QuotedEnds(r, b, i, p);
      case Delimited(_, _, _) => DelimitedEnds(r, b, i, p);
      case Unclosed(_, _, _) => UnclosedNeverEnds(r, b, i, p);
    }
  }

  // ----- Every text has pieces -----

  /** What a reader says must be possible: a body starts behind its opener, and a quoted one right behind its quote. */
  ghost predicate OpensOk(r: Reader, b: string) {
    forall i :: 0 <= i < |b| && r.opens(b, i).Some? ==>
      var (j, mode) := r.opens(b, i).value;
      && i < j <= |b| && mode.Ok() && !mode.Plain?
      && (IsQuoted(mode) ==> j == i + 1 && b[i] == QuoteOf(mode))
  }

  function CodeEnd(r: Reader, b: string, i: nat): (e: nat)
    requires i <= |b|
    ensures i <= e <= |b| && (forall m :: i <= m < e ==> r.opens(b, m).None?) && (e < |b| ==> r.opens(b, e).Some?)
    decreases |b| - i
  {
    if i < |b| && r.opens(b, i).None? then CodeEnd(r, b, i + 1) else i
  }

  function RemarkEnd(b: string, i: nat): (e: nat)
    requires i < |b|
    ensures i < e <= |b| && (forall m :: i <= m < e - 1 ==> b[m] != '\n') && (e == |b| || b[e - 1] == '\n')
    decreases |b| - i
  {
    if b[i] == '\n' || i + 1 == |b| then i + 1 else RemarkEnd(b, i + 1)
  }

  lemma {:induction false} ClosedQuoted(r: Reader, b: string, i: nat, mode: Mode, e: nat) returns (p: Piece)
    requires i < |b| && IsQuoted(mode) && b[i] == QuoteOf(mode)
    requires r.opens(b, i) == Some((i + 1, mode)) && BodyEnd(b, i + 1, mode) == Some(e)
    ensures StandsAt(r, b, i, p) && EndOf(i, p) == e && !p.Code?
  {
    var quote := QuoteOf(mode);
    QuotedBodyEnds(b, i + 1, e, mode, quote);
    var content := QuotedContent(b, i, quote, e);
    p := Quoted(quote, content);
  }

  lemma {:induction false} QuotedContent(b: string, i: nat, quote: char, e: nat) returns (content: string)
    requires i + 1 < e <= |b| && b[i] == quote && b[e - 1] == quote
    requires QuotedIdentifiers.InnerIsWellFormed(b[i + 1..e - 1], quote)
    ensures b[i..e] == [quote] + QuotedIdentifiers.Doubled(content, quote) + [quote]
  {
    var inner := b[i + 1..e - 1];
    content := QuotedIdentifiers.Undoubled(inner, quote);
    QuotedIdentifiers.UndoubledIsInverse(inner, quote);
    CutInThree(b, i, i + 1, e - 1, e);
    assert b[i..i + 1] == [quote] && b[e - 1..e] == [quote];
  }

  lemma {:induction false} ClosedDelimited(r: Reader, b: string, i: nat, j: nat, mode: Mode, e: nat) returns (p: Piece)
    requires i < j <= |b| && mode.Ok() && IsDelimited(mode)
    requires r.opens(b, i) == Some((j, mode)) && BodyEnd(b, j, mode) == Some(e)
    ensures StandsAt(r, b, i, p) && EndOf(i, p) == e && !p.Code?
  {
    DelimitedBodyEnds(b, j, e, mode);
    var content := ContentBefore(b, i, j, Closer(mode), e);
    p := Delimited(b[i..j], mode, content);
    DelimitedStands(r, b, i, j, mode, content, e);
  }

  lemma {:induction false} DelimitedStands(r: Reader, b: string, i: nat, j: nat, mode: Mode, content: string, e: nat)
    requires i < j <= e <= |b| && mode.Ok() && IsDelimited(mode) && FirstAtEnd(content, Closer(mode))
    requires r.opens(b, i) == Some((j, mode)) && b[i..e] == b[i..j] + content + Closer(mode)
    ensures var p := Delimited(b[i..j], mode, content); StandsAt(r, b, i, p) && EndOf(i, p) == e
  {
  }

  lemma {:induction false} ContentBefore(b: string, i: nat, j: nat, closer: string, e: nat) returns (content: string)
    requires i <= j && ClosesFirstAt(b, j, e, closer)
    ensures b[i..e] == b[i..j] + content + closer && FirstAtEnd(content, closer)
  {
    content := b[j..e - |closer|];
    CutInThree(b, i, j, e - |closer|, e);
    forall k | 0 <= k < |content|
      ensures !HasAt(content + closer, k, closer)
    {
      assert !HasAt(b, j + k, closer);
      HasAtInSlice(b, j, e, k, closer);
    }
  }

  lemma {:induction false} CutInThree(b: string, i: nat, j: nat, k: nat, e: nat)
    requires i <= j <= k <= e <= |b|
    ensures b[i..e] == b[i..j] + b[j..k] + b[k..e] && b[j..e] == b[j..k] + b[k..e]
  {
  }

  lemma {:induction false} OpenPiece(r: Reader, b: string, i: nat, j: nat, mode: Mode) returns (p: Piece)
    requires OpensOk(r, b) && i < |b| && r.opens(b, i) == Some((j, mode)) && !mode.LineComment? && BodyEnd(b, j, mode) == None
    ensures StandsAt(r, b, i, p) && EndOf(i, p) == |b| && !p.Code?
  {
    p := Unclosed(b[i..j], mode, b[j..]);
    assert b[i..|b|] == b[i..j] + b[j..];
    if IsQuoted(mode) {
      QuotedNeverEnds(b, j, mode, QuoteOf(mode));
    } else {
      NowhereBehind(b, j, Closer(mode));
      DelimitedNeverEnds(b, j, mode);
    }
  }

  lemma {:induction false} PieceThatOpens(r: Reader, b: string, i: nat) returns (p: Piece)
    requires OpensOk(r, b) && i < |b| && r.opens(b, i).Some?
    ensures StandsAt(r, b, i, p) && !p.Code?
  {
    var (j, mode) := r.opens(b, i).value;
    if mode.LineComment? {
      p := LineRemark(b[i..if r.singleLine then |b| else RemarkEnd(b, i)]);
    } else if BodyEnd(b, j, mode).None? {
      p := OpenPiece(r, b, i, j, mode);
    } else if IsQuoted(mode) {
      p := ClosedQuoted(r, b, i, mode, BodyEnd(b, j, mode).value);
    } else {
      p := ClosedDelimited(r, b, i, j, mode, BodyEnd(b, j, mode).value);
    }
  }

  /** Every text is made of pieces, whatever is in it. */
  lemma {:induction false} EveryTextHasPieces(r: Reader, b: string, i: nat) returns (pieces: seq<Piece>)
    requires OpensOk(r, b) && i <= |b|
    ensures Reads(r, b, i, pieces)
    ensures pieces != [] && pieces[0].Code? ==> r.opens(b, i).None?
    decreases |b| - i
  {
    if i == |b| {
      pieces := [];
    } else {
      var p: Piece;
      if r.opens(b, i).Some? {
        p := PieceThatOpens(r, b, i);
      } else {
        p := Code(b[i..CodeEnd(r, b, i)]);
      }
      var rest := EveryTextHasPieces(r, b, EndOf(i, p));
      pieces := [p] + rest;
      assert pieces[1..] == rest;
    }
  }

  // ----- And only one way to be made of them -----

  lemma {:induction false} CodeIffNothingOpens(r: Reader, b: string, i: nat, p: Piece)
    requires StandsAt(r, b, i, p)
    ensures p.Code? <==> r.opens(b, i).None?
  {
  }

  lemma {:induction false} SameRemarkEnd(r: Reader, b: string, i: nat, e: nat, f: nat)
    requires i < e <= |b| && i < f <= |b| && RemarkEnds(r, b, i, e) && RemarkEnds(r, b, i, f)
    ensures e == f
  {
  }

  lemma {:induction false} RemarkStands(r: Reader, b: string, i: nat, p: Piece) returns (e: nat)
    requires StandsAt(r, b, i, p) && p.LineRemark?
    ensures r.opens(b, i).Some? && r.opens(b, i).value.1.LineComment?
    ensures i < e <= |b| && RemarkEnds(r, b, i, e) && p == LineRemark(b[i..e])
  {
    e := EndOf(i, p);
  }

  predicate IsCut(text: string, p: Piece)
    requires IsBody(p)
  {
    match p
    case Quoted(quote, content) => IsQuote(quote) && text == [quote] + QuotedIdentifiers.Doubled(content, quote) + [quote]
    case Delimited(opener, mode, content) => IsDelimited(mode) && text == opener + content + Closer(mode)
    case Unclosed(opener, _, rest) => text == opener + rest
  }

  /** A body piece as the cut of the text that it is. */
  lemma {:induction false} BodyIsCut(r: Reader, b: string, i: nat, p: Piece) returns (e: nat)
    requires StandsAt(r, b, i, p) && IsBody(p)
    ensures i <= e <= |b| && e == EndOf(i, p) && IsCut(b[i..e], p) && (p.Unclosed? ==> e == |b|)
  {
    e := EndOf(i, p);
  }

  lemma {:induction false} SameQuotedContent(quote: char, c: string, d: string)
    requires [quote] + QuotedIdentifiers.Doubled(c, quote) + [quote] == [quote] + QuotedIdentifiers.Doubled(d, quote) + [quote]
    ensures c == d
  {
    var x, y := QuotedIdentifiers.Doubled(c, quote), QuotedIdentifiers.Doubled(d, quote);
    assert ([quote] + x + [quote])[1..1 + |x|] == x && ([quote] + y + [quote])[1..1 + |y|] == y;
    QuotedIdentifiers.DoubledIsWellFormed(c, quote);
    QuotedIdentifiers.DoubledIsWellFormed(d, quote);
  }

  lemma {:induction false} SameParts(a: string, x: string, z: string, c: string, y: string)
    requires a + x + z == c + y + z && |a| == |c|
    ensures a == c && x == y
  {
    assert (a + x + z)[..|a|] == a && (c + y + z)[..|c|] == c;
    assert (a + x + z)[|a|..|a| + |x|] == x && (c + y + z)[|c|..|c| + |y|] == y;
  }

  lemma {:induction false} SameCut(text: string, i: nat, p: Piece, q: Piece)
    requires IsBody(p) && IsBody(q) && BodyMode(p) == BodyMode(q) && (p.Unclosed? <==> q.Unclosed?)
    requires BodyStart(i, p) == BodyStart(i, q) && IsCut(text, p) && IsCut(text, q)
    ensures p == q
  {
    match p {
      case Quoted(quote, content) =>
        SameQuotedContent(quote, content, q.content);
      case Delimited(opener, mode, content) =>
        SameParts(opener, content, Closer(mode), q.opener, q.content);
      case Unclosed(opener, mode, rest) =>
        assert (opener + rest)[..|opener|] == opener && (q.opener + q.rest)[..|opener|] == q.opener;
        assert (opener + rest)[|opener|..] == rest && (q.opener + q.rest)[|opener|..] == q.rest;
    }
  }

  lemma {:induction false} SameBody(r: Reader, b: string, i: nat, p: Piece, q: Piece)
    requires StandsAt(r, b, i, p) && StandsAt(r, b, i, q) && IsBody(p) && IsBody(q)
    ensures p == q
  {
    BodyEndsWithPiece(r, b, i, p);
    BodyEndsWithPiece(r, b, i, q);
    var e := BodyIsCut(r, b, i, p);
    var f := BodyIsCut(r, b, i, q);
    assert e == f;
    SameCut(b[i..e], i, p, q);
  }

  lemma {:induction false} SamePiece(r: Reader, b: string, i: nat, p: Piece, q: Piece)
    requires StandsAt(r, b, i, p) && StandsAt(r, b, i, q) && !p.Code? && !q.Code?
    ensures p == q
  {
    if p.LineRemark? {
      var e := RemarkStands(r, b, i, p);
      if IsBody(q) {
        BodyEndsWithPiece(r, b, i, q);
      }
      var f := RemarkStands(r, b, i, q);
      SameRemarkEnd(r, b, i, e, f);
    } else {
      BodyEndsWithPiece(r, b, i, p);
      SameBody(r, b, i, p, q);
    }
  }

  /** Code ends where the text ends or something opens. */
  lemma {:induction false} CodeEnds(r: Reader, b: string, i: nat, pieces: seq<Piece>) returns (e: nat)
    requires Reads(r, b, i, pieces) && pieces != [] && pieces[0].Code?
    ensures i < e <= |b| && e == EndOf(i, pieces[0]) && pieces[0] == Code(b[i..e])
    ensures (forall m :: i <= m < e ==> r.opens(b, m).None?) && (e < |b| ==> r.opens(b, e).Some?)
  {
    e := EndOf(i, pieces[0]);
    CodeStands(r, b, i, pieces[0], e);
    if e < |b| {
      SecondStands(r, b, i, pieces);
      CodeIffNothingOpens(r, b, e, pieces[1]);
    }
  }

  lemma {:induction false} FirstPieceIsFixed(r: Reader, b: string, i: nat, pieces: seq<Piece>, others: seq<Piece>)
    requires Reads(r, b, i, pieces) && Reads(r, b, i, others) && pieces != [] && others != []
    ensures pieces[0] == others[0]
  {
    CodeIffNothingOpens(r, b, i, pieces[0]);
    CodeIffNothingOpens(r, b, i, others[0]);
    if pieces[0].Code? {
      var e := CodeEnds(r, b, i, pieces);
      var f := CodeEnds(r, b, i, others);
      assert e == f;
    } else {
      SamePiece(r, b, i, pieces[0], others[0]);
    }
  }

  /** The pieces of a text are determined by it. */
  lemma {:induction false} PiecesAreFixed(r: Reader, b: string, i: nat, pieces: seq<Piece>, others: seq<Piece>)
    requires Reads(r, b, i, pieces) && Reads(r, b, i, others)
    ensures pieces == others
    decreases |pieces|
  {
    if pieces != [] && others != [] {
      FirstPieceIsFixed(r, b, i, pieces, others);
      PiecesAreFixed(r, b, EndOf(i, pieces[0]), pieces[1..], others[1..]);
      assert pieces == [pieces[0]] + pieces[1..] && others == [others[0]] + others[1..];
    }
  }
}
