/**
  Which bytes of a whole text the multi-line scanner of src/sql_text.rs takes for the inside
  of a literal: exactly those inside the literals among the pieces the text is made of.
 */
module TextMeaning {
  import opened Prelude
  import opened SqlBytes
  import opened LineScanner
  import opened MultilineStrings
  import opened Pieces

  /** What opens in a text; which dollar tags do depends on the `DELIMITER` lines before. */
  function TextOpens(directive: Directive, text: string, i: nat): Option<(nat, Mode)> {
    if i >= |text| || text[i] == '\n' then None
    else if SqlLineCommentPrefixLen(text, i).Some? then Some((i + SqlLineCommentPrefixLen(text, i).value, LineComment))
    else if StartsBlockComment(text, i) then Some((i + 2, BlockComment))
    else if QQuotePrefixAt(text, i).Some? then
      Some((i + QQuotePrefixAt(text, i).value.prefixLen, QQuote(QQuotePrefixAt(text, i).value.closing)))
    else
      match OpeningDollarTag(directive, text, LineNumber(text, i), i)
      case Some(tag) => Some((i + |tag|, DollarQuote(tag)))
      case None => if IsQuote(text[i]) then Some((i + 1, QuoteMode(text[i]))) else None
  }

  function TextReader(directive: Directive): Reader {
    Reader((text: string, i: nat) => TextOpens(directive, text, i), false)
  }

  /** Every text has pieces. */
  lemma {:induction false} TextHasPieces(directive: Directive, text: string) returns (pieces: seq<Piece>)
    ensures Reads(TextReader(directive), text, 0, pieces)
  {
    pieces := EveryTextHasPieces(TextReader(directive), text, 0);
  }

  lemma {:induction false} PlainStepOpens(directive: Directive, text: string, i: nat)
    requires i < |text|
    ensures SqlScanner(directive, text)(LineNumber(text, i), i, Plain)
      == match TextOpens(directive, text, i) case None => (i + 1, Plain) case Some(body) => body
  {
  }

  // ----- Inside and behind the literals of a text -----

  predicate ArePieces(pieces: seq<Piece>) {
    forall k :: 0 <= k < |pieces| ==> IsPiece(pieces[k])
  }

  predicate IsLiteralPiece(p: Piece) {
    IsBody(p) && BodyMode(p).IsLiteral()
  }

  /** Byte `p` lies behind the opener of a literal piece and in front of its end. */
  predicate InsidePiece(i: nat, piece: Piece, p: nat)
    requires IsPiece(piece)
  {
    IsLiteralPiece(piece) && BodyStart(i, piece) <= p && (p < EndOf(i, piece) || piece.Unclosed?)
  }

  predicate InsideLiteral(i: nat, pieces: seq<Piece>, p: nat)
    requires ArePieces(pieces)
    decreases |pieces|
  {
    pieces != [] && (InsidePiece(i, pieces[0], p) || InsideLiteral(EndOf(i, pieces[0]), pieces[1..], p))
  }

  /** A literal piece is closed right before byte `p`. */
  predicate BehindLiteral(i: nat, pieces: seq<Piece>, p: nat)
    requires ArePieces(pieces)
    decreases |pieces|
  {
    && pieces != []
    && ((IsLiteralPiece(pieces[0]) && !pieces[0].Unclosed? && p == EndOf(i, pieces[0]))
        || BehindLiteral(EndOf(i, pieces[0]), pieces[1..], p))
  }

  lemma {:induction false} LiteralsLieAhead(i: nat, pieces: seq<Piece>, p: nat)
    requires ArePieces(pieces)
    ensures InsideLiteral(i, pieces, p) || BehindLiteral(i, pieces, p) ==> p > i
    decreases |pieces|
  {
    if pieces != [] {
      LiteralsLieAhead(EndOf(i, pieces[0]), pieces[1..], p);
    }
  }

  // ----- One piece -----

  /** What the scanner does on one piece that ends at `e`. */
  ghost predicate PieceRead(trace: Trace, i: nat, piece: Piece)
    requires IsPiece(piece)
  {
    var e := EndOf(i, piece);
    && e < |trace|
    && (forall p :: i <= p < e && trace[p].Some? ==> (trace[p].value.mode.IsLiteral() <==> InsidePiece(i, piece, p)))
    && (forall p :: i < p < e ==> !LeavesLiteral(trace, p))
    && trace[e].Some?
    && (LeavesLiteral(trace, e) <==> IsLiteralPiece(piece) && !piece.Unclosed?)
    && (InLiteral(trace, e) <==> IsLiteralPiece(piece) && piece.Unclosed?)
    && (e < |trace| - 1 ==> trace[e].value.mode == Plain)
  }

  ghost predicate IsSqlTrace(directive: Directive, text: string, trace: Trace) {
    IsTrace(text, SqlScanner(directive, text), trace)
  }

  /** The scanner walks through code byte by byte. */
  lemma {:induction false} CodeIsWalked(directive: Directive, text: string, trace: Trace, i: nat, e: nat)
    requires IsSqlTrace(directive, text, trace) && i <= e <= |text| && trace[i].Some? && trace[i].value.mode == Plain
    requires forall m :: i <= m < e ==> TextOpens(directive, text, m).None?
    ensures forall p :: i < p <= e ==> trace[p] == Some(Arrival(Plain, false))
    decreases e - i
  {
    if i < e {
      PlainStepOpens(directive, text, i);
      TraceContinues(text, SqlScanner(directive, text), trace, i);
      CodeIsWalked(directive, text, trace, i + 1, e);
    }
  }

  lemma {:induction false} CodeRead(directive: Directive, text: string, trace: Trace, i: nat, piece: Piece)
    requires IsSqlTrace(directive, text, trace) && trace != [] && i < |trace| && trace[i].Some? && trace[i].value.mode == Plain
    requires StandsAt(TextReader(directive), text, i, piece) && piece.Code?
    ensures PieceRead(trace, i, piece)
  {
    var e := EndOf(i, piece);
    CodeStands(TextReader(directive), text, i, piece, e);
    forall m | i <= m < e
      ensures TextOpens(directive, text, m).None?
    {
      assert TextReader(directive).opens(text, m).None?;
    }
    CodeIsWalked(directive, text, trace, i, e);
  }

  /** Inside a line comment the scanner walks to the end of the line. */
  lemma {:induction false} RemarkIsWalked(directive: Directive, text: string, trace: Trace, i: nat, e: nat)
    requires IsSqlTrace(directive, text, trace) && i <= e <= |text| && trace[i].Some? && trace[i].value.mode == LineComment
    requires (forall m :: i <= m < e - 1 ==> text[m] != '\n') && (e == |text| || (i < e && text[e - 1] == '\n'))
    ensures forall p :: i < p < e ==> trace[p] == Some(Arrival(LineComment, false))
    ensures i < e ==> trace[e] == Some(Arrival(if text[e - 1] == '\n' then Plain else LineComment, false))
    decreases e - i
  {
    if i < e {
      TraceContinues(text, SqlScanner(directive, text), trace, i);
      if i + 1 < e {
        RemarkIsWalked(directive, text, trace, i + 1, e);
      }
    }
  }

  lemma {:induction false} RemarkRead(directive: Directive, text: string, trace: Trace, i: nat, piece: Piece)
    requires IsSqlTrace(directive, text, trace) && i < |trace| && trace[i].Some? && trace[i].value.mode == Plain
    requires StandsAt(TextReader(directive), text, i, piece) && piece.LineRemark?
    ensures PieceRead(trace, i, piece)
  {
    var e := EndOf(i, piece);
    assert TextReader(directive).opens(text, i) == TextOpens(directive, text, i);
    var j := TextOpens(directive, text, i).value.0;
    PlainStepOpens(directive, text, i);
    TraceContinues(text, SqlScanner(directive, text), trace, i);
    RemarkIsWalked(directive, text, trace, j, e);
  }

  /** The scanner enters the body that opens at `i` and stays in it up to its end. */
  lemma {:induction false} BodyIsWalked(directive: Directive, text: string, trace: Trace, i: nat, j: nat, mode: Mode)
    requires IsSqlTrace(directive, text, trace) && i < j <= |text| && trace[i].Some? && trace[i].value.mode == Plain
    requires TextOpens(directive, text, i) == Some((j, mode)) && mode.Ok() && !mode.Plain? && !mode.LineComment?
    ensures forall p :: i < p < j ==> trace[p].None?
    ensures match BodyEnd(text, j, mode)
      case None => StaysIn(trace, j, |text| + 1, mode) && trace[|text|].Some?
      case Some(e) => StaysIn(trace, j, e, mode) && trace[e] == Some(Arrival(Plain, mode.IsLiteral()))
  {
    PlainStepOpens(directive, text, i);
    TraceContinues(text, SqlScanner(directive, text), trace, i);
    BodyLastsUntilItsEnd(directive, text, trace, j, mode);
  }

  lemma {:induction false} BodyRead(directive: Directive, text: string, trace: Trace, i: nat, piece: Piece)
    requires IsSqlTrace(directive, text, trace) && i < |trace| && trace[i].Some? && trace[i].value.mode == Plain
    requires StandsAt(TextReader(directive), text, i, piece) && IsBody(piece)
    ensures PieceRead(trace, i, piece)
  {
    BodyEndsWithPiece(TextReader(directive), text, i, piece);
    assert TextReader(directive).opens(text, i) == TextOpens(directive, text, i);
    BodyIsWalked(directive, text, trace, i, BodyStart(i, piece), BodyMode(piece));
  }

  // ----- The whole text -----

  lemma {:induction false} TextRead(directive: Directive, text: string, trace: Trace, i: nat, pieces: seq<Piece>, p: nat)
    requires IsSqlTrace(directive, text, trace) && i <= p <= |text| && Reads(TextReader(directive), text, i, pieces)
    requires trace[i].Some? && (i < |text| ==> trace[i].value.mode == Plain) && trace[p].Some?
    requires p == i ==> !InLiteral(trace, p) && !LeavesLiteral(trace, p)
    ensures ArePieces(pieces)
    ensures InLiteral(trace, p) <==> InsideLiteral(i, pieces, p)
    ensures LeavesLiteral(trace, p) <==> BehindLiteral(i, pieces, p)
    decreases |pieces|
  {
    PiecesSpellText(TextReader(directive), text, i, pieces);
    if pieces != [] {
      var e, rest := EndOf(i, pieces[0]), pieces[1..];
      FirstPieceRead(directive, text, trace, i, pieces[0]);
      LiteralsLieAhead(e, rest, p);
      if p > e {
        TextRead(directive, text, trace, e, rest, p);
      }
    }
  }

  lemma {:induction false} FirstPieceRead(directive: Directive, text: string, trace: Trace, i: nat, piece: Piece)
    requires IsSqlTrace(directive, text, trace) && i < |trace| && trace[i].Some? && trace[i].value.mode == Plain
    requires StandsAt(TextReader(directive), text, i, piece)
    ensures PieceRead(trace, i, piece)
  {
    match piece {
      case Code(_) => CodeRead(directive, text, trace, i, piece);
      case LineRemark(_) => RemarkRead(directive, text, trace, i, piece);
      case _ => BodyRead(directive, text, trace, i, piece);
    }
  }

  /** Wherever the scanner stops, it is inside a literal exactly when the byte lies inside a literal of the text. */
  lemma {:induction false} ScannerSeesLiterals(directive: Directive, text: string, pieces: seq<Piece>, p: nat)
    requires Reads(TextReader(directive), text, 0, pieces) && p <= |text| && SqlTrace(directive, text)[p].Some?
    ensures ArePieces(pieces)
    ensures InLiteral(SqlTrace(directive, text), p) <==> InsideLiteral(0, pieces, p)
    ensures LeavesLiteral(SqlTrace(directive, text), p) <==> BehindLiteral(0, pieces, p)
  {
    var trace := SqlTrace(directive, text);
    TraceStarts(text, SqlScanner(directive, text), trace);
    TextRead(directive, text, trace, 0, pieces, p);
  }

  // ----- Entries, read off the text -----

  /** A literal piece is closed right before byte `a`, and none behind that up to `e`. */
  ghost predicate ClosesLast(pieces: seq<Piece>, a: nat, e: nat)
    requires ArePieces(pieces)
  {
    BehindLiteral(0, pieces, a) && forall q :: a < q <= e ==> !BehindLiteral(0, pieces, q)
  }

  /**
    The entry of the line that starts at `s`, by the pieces of the text: present exactly when the
    line starts inside a literal; the whole line if a literal goes on behind it, and otherwise the
    end of the last literal that is closed on it.
   */
  ghost predicate EntryReadsText(text: string, pieces: seq<Piece>, s: nat, entry: Option<nat>)
    requires ArePieces(pieces) && s <= |text|
  {
    var e := LineEnd(text, s);
    && (entry.Some? <==> InsideLiteral(0, pieces, s))
    && (entry.Some? ==>
      && entry.value <= LineLength(text, s)
      && if InsideLiteral(0, pieces, e) then entry.value == LineLength(text, s)
         else ClosesLast(pieces, s + entry.value, e))
  }

  lemma {:induction false} LeavingIsAStop(directive: Directive, text: string, pieces: seq<Piece>, q: nat)
    requires Reads(TextReader(directive), text, 0, pieces) && ArePieces(pieces) && BehindLiteral(0, pieces, q)
    ensures q <= |text| && LeavesLiteral(SqlTrace(directive, text), q)
  {
    var trace := SqlTrace(directive, text);
    TraceStarts(text, SqlScanner(directive, text), trace);
    EndsAreStops(directive, text, trace, 0, pieces, q);
    ScannerSeesLiterals(directive, text, pieces, q);
  }

  lemma {:induction false} EndsAreStops(directive: Directive, text: string, trace: Trace, i: nat, pieces: seq<Piece>, q: nat)
    requires IsSqlTrace(directive, text, trace) && i <= |text| && Reads(TextReader(directive), text, i, pieces) && ArePieces(pieces)
    requires trace[i].Some? && (i < |text| ==> trace[i].value.mode == Plain) && BehindLiteral(i, pieces, q)
    ensures q <= |text| && trace[q].Some?
    decreases |pieces|
  {
    var e := EndOf(i, pieces[0]);
    FirstPieceRead(directive, text, trace, i, pieces[0]);
    if q != e {
      EndsAreStops(directive, text, trace, e, pieces[1..], q);
    }
  }

  lemma {:induction false} NoneIsClosedLater(directive: Directive, text: string, pieces: seq<Piece>, a: nat, e: nat)
    requires Reads(TextReader(directive), text, 0, pieces) && ArePieces(pieces)
    requires forall q :: a < q <= e ==> !LeavesLiteral(SqlTrace(directive, text), q)
    ensures forall q :: a < q <= e ==> !BehindLiteral(0, pieces, q)
  {
    forall q | a < q <= e && BehindLiteral(0, pieces, q)
      ensures LeavesLiteral(SqlTrace(directive, text), q)
    {
      LeavingIsAStop(directive, text, pieces, q);
    }
  }

  /** The scanner stops at both ends of every line. */
  lemma {:induction false} LineEndsAreStops(directive: Directive, text: string, line: nat)
    ensures var trace, s := SqlTrace(directive, text), LineStart(text, line); trace[s].Some? && trace[LineEnd(text, s)].Some?
  {
    var trace, step, s := SqlTrace(directive, text), SqlScanner(directive, text), LineStart(text, line);
    ScannerStopsAtLineStarts(text, step, trace, line);
    LiteralLeftOrOpen(text, step, trace, s, LineEnd(text, s));
  }

  lemma {:induction false} EntryCarriesOver(text: string, trace: Trace, pieces: seq<Piece>, s: nat, entry: Option<nat>)
    requires ArePieces(pieces) && s <= |text| && EntryOk(text, trace, s, entry)
    requires InLiteral(trace, s) <==> InsideLiteral(0, pieces, s)
    requires var e := LineEnd(text, s); InLiteral(trace, e) <==> InsideLiteral(0, pieces, e)
    requires entry.Some? && !InLiteral(trace, LineEnd(text, s)) ==>
      ClosesLast(pieces, s + entry.value, LineEnd(text, s))
    ensures EntryReadsText(text, pieces, s, entry)
  {
  }

  lemma {:induction false} LastCloseOfLine(directive: Directive, text: string, pieces: seq<Piece>, a: nat, e: nat)
    requires Reads(TextReader(directive), text, 0, pieces) && ArePieces(pieces) && LeavesLast(SqlTrace(directive, text), a, e)
    ensures ClosesLast(pieces, a, e)
  {
    ScannerSeesLiterals(directive, text, pieces, a);
    NoneIsClosedLater(directive, text, pieces, a, e);
  }

  lemma {:induction false} EntryReadsPieces(directive: Directive, text: string, pieces: seq<Piece>, s: nat, entry: Option<nat>)
    requires Reads(TextReader(directive), text, 0, pieces) && s <= |text| && EntryOk(text, SqlTrace(directive, text), s, entry)
    requires var trace := SqlTrace(directive, text); trace[s].Some? && trace[LineEnd(text, s)].Some?
    ensures ArePieces(pieces) && EntryReadsText(text, pieces, s, entry)
  {
    var trace, e := SqlTrace(directive, text), LineEnd(text, s);
    ScannerSeesLiterals(directive, text, pieces, s);
    ScannerSeesLiterals(directive, text, pieces, e);
    if entry.Some? && !InLiteral(trace, e) {
      LastCloseOfLine(directive, text, pieces, s + entry.value, e);
    }
    EntryCarriesOver(text, trace, pieces, s, entry);
  }

  /** What the source computes for a line can be read off the literals of the text. */
  lemma {:induction false} EntriesReadTheText(
    directive: Directive, text: string, pieces: seq<Piece>, line: nat, entry: Option<nat>)
    requires Reads(TextReader(directive), text, 0, pieces)
    requires EntryOk(text, SqlTrace(directive, text), LineStart(text, line), entry)
    ensures ArePieces(pieces) && EntryReadsText(text, pieces, LineStart(text, line), entry)
  {
    LineEndsAreStops(directive, text, line);
    EntryReadsPieces(directive, text, pieces, LineStart(text, line), entry);
  }
}
