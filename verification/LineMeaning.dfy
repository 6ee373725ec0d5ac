/**
  What the line scanners of src/sql_text.rs see of a line, by the pieces it is made of:
  the parentheses and the words of its code, and nothing of its literals and comments.
 */
module LineMeaning {
  import opened Prelude
  import opened SqlBytes
  import opened LiteralBodies
  import opened Pieces
  import Trailing = TrailingIdentifiers
  import TrailingAgreement
  import opened ParenProfile

  // ----- What opens for the two scanners -----

  /** For the word scan: comments, q-quotes, single and double quotes. */
  function WordOpens(b: string, i: nat): Option<(nat, Mode)> {
    if i >= |b| then None
    else if SqlLineCommentPrefixLen(b, i).Some? then Some((i + SqlLineCommentPrefixLen(b, i).value, LineComment))
    else if StartsBlockComment(b, i) then Some((i + 2, BlockComment))
    else if QQuotePrefixAt(b, i).Some? then
      Some((i + QQuotePrefixAt(b, i).value.prefixLen, QQuote(QQuotePrefixAt(b, i).value.closing)))
    else if b[i] == '\'' || b[i] == '"' then Some((i + 1, QuoteMode(b[i])))
    else None
  }

  /** For the paren scan also backticks, and dollar tags that are no conditional-compilation flag. */
  function ParenOpens(b: string, i: nat): Option<(nat, Mode)> {
    if WordOpens(b, i).Some? then WordOpens(b, i)
    else if ParseDollarQuoteTag(b, i).Some? && !LooksLikeConditionalCompilationFlag(b, i) then
      Some((i + |ParseDollarQuoteTag(b, i).value|, DollarQuote(ParseDollarQuoteTag(b, i).value)))
    else if Byte(b, i) == Some('`') then Some((i + 1, Backtick))
    else None
  }

  const WORDS := Reader(WordOpens, true)

  const PARENS := Reader(ParenOpens, true)

  /** Every line has pieces for the word scan and for the paren scan. */
  lemma {:induction false} EveryLineHasPieces(line: string) returns (words: seq<Piece>, parens: seq<Piece>)
    ensures Reads(WORDS, line, 0, words) && Reads(PARENS, line, 0, parens)
  {
    WordsOpenOk(line);
    words := EveryTextHasPieces(WORDS, line, 0);
    ParensOpenOk(line);
    parens := EveryTextHasPieces(PARENS, line, 0);
  }

  lemma {:induction false} WordsOpenOk(line: string)
    ensures OpensOk(WORDS, line)
  {
  }

  lemma {:induction false} ParensOpenOk(line: string)
    ensures OpensOk(PARENS, line)
  {
  }

  // ----- Parentheses -----

  function TokenOf(c: char): Token {
    if c == '(' then Open else if c == ')' then Close else Other
  }

  function ParenOf(c: char): seq<Token> {
    if c == '(' then [Open] else if c == ')' then [Close] else []
  }

  /** The parentheses of a text, in order. */
  function ParensOf(text: string): seq<Token> {
    if text == "" then [] else ParenOf(text[0]) + ParensOf(text[1..])
  }

  function CodeParens(pieces: seq<Piece>): seq<Token> {
    if pieces == [] then [] else (if pieces[0].Code? then ParensOf(pieces[0].text) else []) + CodeParens(pieces[1..])
  }

  predicate IsComment(p: Piece) {
    (p.Delimited? || p.Unclosed?) && p.mode.BlockComment?
  }

  /** Only whitespace, closes and ends of comments: the paren scan is still in its leading run behind such code. */
  predicate IsLeading(text: string) {
    || text == ""
    || ((IsAsciiWhitespace(text[0]) || text[0] == ')') && IsLeading(text[1..]))
    || (|text| >= 2 && text[0] == '*' && text[1] == '/' && IsLeading(text[2..]))
  }

  /** Code that ends in `*`, met in the leading run, with a block comment right behind: the three bytes read as `*` `/` `*`. */
  predicate StarMeetsComment(pieces: seq<Piece>) {
    && |pieces| > 1 && pieces[0].Code? && IsComment(pieces[1])
    && var text := pieces[0].text; text != "" && text[|text| - 1] == '*' && IsLeading(text[..|text| - 1])
  }

  predicate Tangled(pieces: seq<Piece>) {
    && pieces != []
    && (StarMeetsComment(pieces) || (((pieces[0].Code? && IsLeading(pieces[0].text)) || IsComment(pieces[0])) && Tangled(pieces[1..])))
  }

  lemma {:induction false} CloserIsStarSlash(b: string, i: nat)
    requires i < |b|
    ensures HasAt(b, i, "*/") <==> b[i] == '*' && Byte(b, i + 1) == Some('/')
  {
    if i + 2 <= |b| {
      var two := b[i..i + 2];
      assert b[i] == two[0] && b[i + 1] == two[1] && two == [two[0], two[1]];
    }
  }

  lemma {:induction false} NoOpenerIsAStar(b: string, i: nat)
    requires i < |b| && ParenOpens(b, i).Some?
    ensures b[i] != '*'
  {
  }

  lemma {:induction false} CodeMove(b: string, i: nat, leading: bool)
    requires i < |b| && ParenOpens(b, i).None?
    ensures ProfileMove(b, i, Plain, leading)
      == if leading && HasAt(b, i, "*/") then Skip(i + 2, Plain)
         else if IsAsciiWhitespace(b[i]) then Skip(i + 1, Plain)
         else Emit(TokenOf(b[i]), i + 1, Plain)
  {
  }

  /** A literal is noted as something other than a parenthesis, a comment is passed over. */
  lemma {:induction false} OpenerMove(b: string, i: nat, leading: bool)
    requires i < |b| && ParenOpens(b, i).Some?
    ensures var (j, mode) := ParenOpens(b, i).value;
      ProfileMove(b, i, Plain, leading)
        == if mode.LineComment? then Stop else if mode.BlockComment? then Skip(j, mode) else Emit(Other, j, mode)
  {
    NoOpenerIsAStar(b, i);
    CloserIsStarSlash(b, i);
  }

  lemma {:induction false} EventsAfterOther(b: string, i: nat, leading: bool, token: Token, j: nat, mode: Mode)
    requires i < |b| && ProfileMove(b, i, Plain, leading) == Emit(token, j, mode)
    ensures Events(Tokens(b, i, Plain, leading))
      == (if token.Other? then [] else [token]) + Events(Tokens(b, j, mode, leading && token.Close?))
  {
    var rest := Tokens(b, j, mode, leading && token.Close?);
    assert Tokens(b, i, Plain, leading) == [token] + rest && ([token] + rest)[1..] == rest;
  }

  /** One move through code: over one byte, or over the two bytes that end a comment of an earlier line. */
  lemma {:induction false} EventsStep(b: string, i: nat, leading: bool) returns (j: nat, next: bool)
    requires i < |b| && ParenOpens(b, i).None?
    ensures if leading && HasAt(b, i, "*/") then j == i + 2 && next
            else j == i + 1 && next == (leading && (IsAsciiWhitespace(b[i]) || b[i] == ')'))
    ensures j == i + 1 ==> Events(Tokens(b, i, Plain, leading)) == ParenOf(b[i]) + Events(Tokens(b, j, Plain, next))
    ensures j == i + 2 ==> Events(Tokens(b, i, Plain, leading)) == Events(Tokens(b, j, Plain, next))
  {
    CodeMove(b, i, leading);
    if leading && HasAt(b, i, "*/") {
      j, next := i + 2, leading;
      SkipsTokens(b, i, leading, j);
    } else if IsAsciiWhitespace(b[i]) {
      j, next := i + 1, leading;
      SkipsTokens(b, i, leading, j);
    } else {
      j, next := i + 1, leading && b[i] == ')';
      EventsAfterOther(b, i, leading, TokenOf(b[i]), i + 1, Plain);
    }
  }

  lemma {:induction false} SkipsTokens(b: string, i: nat, leading: bool, j: nat)
    requires i < |b| && ProfileMove(b, i, Plain, leading) == Skip(j, Plain)
    ensures Tokens(b, i, Plain, leading) == Tokens(b, j, Plain, leading)
  {
  }

  lemma {:induction false} ParensOfTwo(b: string, i: nat, end: nat)
    requires i + 2 <= end <= |b| && HasAt(b, i, "*/")
    ensures ParensOf(b[i..end]) == ParensOf(b[i + 2..end])
  {
    CloserIsStarSlash(b, i);
    assert b[i..end][1..] == b[i + 1..end] && b[i + 1..end][1..] == b[i + 2..end];
  }

  /** The last of these bytes and the next one do not read as the end of a comment in the leading run. */
  predicate EndsClean(b: string, i: nat, end: nat, leading: bool)
    requires i <= end <= |b|
  {
    i < end && leading && HasAt(b, end - 1, "*/") ==> !IsLeading(b[i..end - 1])
  }

  /** How the leading run goes on from byte `i` of code. */
  lemma {:induction false} LeadingStep(b: string, i: nat, j: nat, end: nat)
    requires i < j <= end <= |b| && j == if HasAt(b, i, "*/") then i + 2 else i + 1
    ensures IsLeading(b[i..end]) <==>
      (HasAt(b, i, "*/") || IsAsciiWhitespace(b[i]) || b[i] == ')') && IsLeading(b[j..end])
  {
    CloserIsStarSlash(b, i);
    var text := b[i..end];
    assert text[0] == b[i] && text[1..] == b[i + 1..end];
    if i + 2 <= end {
      assert text[1] == b[i + 1] && text[2..] == b[i + 2..end];
    }
  }

  lemma {:induction false} StaysClean(b: string, i: nat, j: nat, end: nat, leading: bool, next: bool)
    requires i < j <= end <= |b| && EndsClean(b, i, end, leading)
    requires if leading && HasAt(b, i, "*/") then j == i + 2 && next
             else j == i + 1 && next == (leading && (IsAsciiWhitespace(b[i]) || b[i] == ')'))
    ensures EndsClean(b, j, end, next)
  {
    if next && j < end {
      CloserIsStarSlash(b, i);
      LeadingStep(b, i, j, end - 1);
    }
  }

  lemma {:induction false} ParensOfCode(b: string, i: nat, end: nat, leading: bool) returns (after: bool)
    requires i <= end <= |b| && (forall m :: i <= m < end ==> ParenOpens(b, m).None?) && EndsClean(b, i, end, leading)
    ensures after == (leading && IsLeading(b[i..end]))
    ensures Events(Tokens(b, i, Plain, leading)) == ParensOf(b[i..end]) + Events(Tokens(b, end, Plain, after))
    decreases end - i
  {
    if i == end {
      after := leading;
    } else {
      var j, next := EventsStep(b, i, leading);
      assert b[i..i] == "" && j <= end;
      StaysClean(b, i, j, end, leading, next);
      after := ParensOfCode(b, j, end, next);
      if leading {
        LeadingStep(b, i, j, end);
      }
      ParensJoin(b, i, j, end, Events(Tokens(b, end, Plain, after)));
    }
  }

  lemma {:induction false} ParensJoin(b: string, i: nat, j: nat, end: nat, rest: seq<Token>)
    requires i < j <= end <= |b| && (j == i + 1 || (j == i + 2 && HasAt(b, i, "*/")))
    ensures j == i + 1 ==> ParensOf(b[i..end]) + rest == ParenOf(b[i]) + (ParensOf(b[j..end]) + rest)
    ensures j == i + 2 ==> ParensOf(b[i..end]) + rest == ParensOf(b[j..end]) + rest
  {
    if j == i + 2 {
      ParensOfTwo(b, i, end);
    } else {
      assert b[i..end][1..] == b[i + 1..end];
    }
  }

  /** Behind code stands something that opens, so only a comment can make its last byte look like the end of one. */
  lemma {:induction false} CodeEndsClean(b: string, i: nat, pieces: seq<Piece>, leading: bool)
    requires Reads(PARENS, b, i, pieces) && pieces != [] && pieces[0].Code? && (leading ==> !StarMeetsComment(pieces))
    ensures EndsClean(b, i, EndOf(i, pieces[0]), leading)
  {
    var e, text := EndOf(i, pieces[0]), pieces[0].text;
    LastOfCode(b, i, e, text);
    CloserIsStarSlash(b, e - 1);
    if Byte(b, e) == Some('/') {
      SecondStands(PARENS, b, i, pieces);
      SlashOpensComment(b, e, pieces[1]);
    }
  }

  lemma {:induction false} SlashOpensComment(line: string, i: nat, p: Piece)
    requires StandsAt(PARENS, line, i, p) && !p.Code? && i < |line| && line[i] == '/'
    ensures IsComment(p)
  {
    assert ParenOpens(line, i) == Some((i + 2, BlockComment));
  }

  /** What stands behind the body that opens at `i`. */
  lemma {:induction false} EventsBehindBody(b: string, i: nat, leading: bool, j: nat, mode: Mode) returns (after: bool)
    requires i < |b| && ParenOpens(b, i) == Some((j, mode)) && !mode.LineComment?
    ensures j <= |b| && mode.Ok() && !mode.Plain? && after == (leading && mode.BlockComment?)
    ensures Events(Tokens(b, i, Plain, leading))
      == match BodyEnd(b, j, mode) case None => [] case Some(e) => Events(Tokens(b, e, Plain, after))
  {
    OpenerMove(b, i, leading);
    if mode.BlockComment? {
      after := leading;
    } else {
      after := false;
      EventsAfterOther(b, i, leading, Other, j, mode);
    }
    ParensSkipBodies(b, j, mode, after);
  }

  lemma {:induction false} EventsBehindPiece(b: string, i: nat, p: Piece, leading: bool) returns (after: bool)
    requires StandsAt(PARENS, b, i, p) && !p.Code?
    ensures after ==> leading && (IsComment(p) || p.LineRemark?)
    ensures leading && p.Delimited? && IsComment(p) ==> after
    ensures Events(Tokens(b, i, Plain, leading))
      == if p.LineRemark? || p.Unclosed? then [] else Events(Tokens(b, EndOf(i, p), Plain, after))
  {
    if p.LineRemark? {
      after := leading;
      OpenerMove(b, i, leading);
    } else {
      BodyEndsWithPiece(PARENS, b, i, p);
      after := EventsBehindBody(b, i, leading, BodyStart(i, p), BodyMode(p));
    }
  }

  lemma {:induction false} NothingBehindTheEnd(r: Reader, b: string, pieces: seq<Piece>)
    requires Reads(r, b, |b|, pieces)
    ensures pieces == []
  {
  }

  lemma {:induction false} ParensFrom(b: string, i: nat, pieces: seq<Piece>, leading: bool)
    requires Reads(PARENS, b, i, pieces) && (leading ==> !Tangled(pieces))
    ensures i <= |b| && Events(Tokens(b, i, Plain, leading)) == CodeParens(pieces)
    decreases |pieces|
  {
    if pieces != [] {
      var e, rest, after := EndOf(i, pieces[0]), pieces[1..], leading;
      if pieces[0].Code? {
        CodeEndsClean(b, i, pieces, leading);
        after := ParensOfCode(b, i, e, leading);
      } else {
        after := EventsBehindPiece(b, i, pieces[0], leading);
        assert CodeParens(pieces) == CodeParens(rest);
      }
      if e == |b| {
        NothingBehindTheEnd(PARENS, b, rest);
      }
      ParensFrom(b, e, rest, after);
    }
  }

  // ----- Tangled lines -----

  /** The byte behind the `*` `/` of the tangle. */
  function TangleEnd(i: nat, pieces: seq<Piece>): nat
    requires Tangled(pieces) && forall k :: 0 <= k < |pieces| ==> IsPiece(pieces[k])
    decreases |pieces|
  {
    if StarMeetsComment(pieces) then EndOf(i, pieces[0]) + 1 else TangleEnd(EndOf(i, pieces[0]), pieces[1..])
  }

  /** The parentheses of the code in front of the tangle. */
  function ParensBeforeTangle(pieces: seq<Piece>): seq<Token>
    requires Tangled(pieces)
  {
    if StarMeetsComment(pieces) then ParensOf(pieces[0].text[..|pieces[0].text| - 1])
    else (if pieces[0].Code? then ParensOf(pieces[0].text) else []) + ParensBeforeTangle(pieces[1..])
  }

  /** The pieces from the comment of the tangle on. */
  function FromTangle(pieces: seq<Piece>): seq<Piece>
    requires Tangled(pieces)
  {
    if StarMeetsComment(pieces) then pieces[1..] else FromTangle(pieces[1..])
  }

  lemma {:induction false} ParensOfOneMore(text: string, c: char)
    ensures ParensOf(text + [c]) == ParensOf(text) + ParenOf(c)
  {
    if text == "" {
      assert text + [c] == [c] && [c][1..] == "";
    } else {
      assert (text + [c])[1..] == text[1..] + [c];
      ParensOfOneMore(text[1..], c);
    }
  }

  /** The parentheses of the code are those in front of the tangle and those from its comment on. */
  lemma {:induction false} CodeParensAtTangle(pieces: seq<Piece>)
    requires Tangled(pieces)
    ensures CodeParens(pieces) == ParensBeforeTangle(pieces) + CodeParens(FromTangle(pieces))
    decreases |pieces|
  {
    if StarMeetsComment(pieces) {
      var text := pieces[0].text;
      assert text == text[..|text| - 1] + ['*'];
      ParensOfOneMore(text[..|text| - 1], '*');
    } else {
      var own, rest := if pieces[0].Code? then ParensOf(pieces[0].text) else [], pieces[1..];
      CodeParensAtTangle(rest);
      Regroup(own, ParensBeforeTangle(rest), CodeParens(FromTangle(rest)));
    }
  }

  lemma {:induction false} CleanBeforeStar(b: string, i: nat, end: nat)
    requires i <= end < |b| && b[end] == '*'
    ensures EndsClean(b, i, end, true)
  {
    if i < end {
      CloserIsStarSlash(b, end - 1);
    }
  }

  lemma {:induction false} StarStep(b: string, i: nat, next: nat)
    requires next == i + 2 <= |b| && b[i] == '*' && b[i + 1] == '/' && ParenOpens(b, i).None?
    ensures Tokens(b, i, Plain, true) == Tokens(b, next, Plain, true)
  {
    CloserIsStarSlash(b, i);
    CodeMove(b, i, true);
    SkipsTokens(b, i, true, next);
  }

  lemma {:induction false} StarSkipsTwo(b: string, i: nat, star: nat, next: nat, lead: string, events: seq<Token>)
    requires i <= star && next == star + 2 <= |b| && (forall m :: i <= m <= star ==> ParenOpens(b, m).None?)
    requires b[i..star] == lead && IsLeading(lead) && b[star] == '*' && b[star + 1] == '/' && events == ParensOf(lead)
    ensures Events(Tokens(b, i, Plain, true)) == events + Events(Tokens(b, next, Plain, true))
  {
    CleanBeforeStar(b, i, star);
    var after := ParensOfCode(b, i, star, true);
    StarStep(b, star, next);
  }

  lemma {:induction false} TangleShape(b: string, i: nat, pieces: seq<Piece>) returns (star: nat)
    requires Reads(PARENS, b, i, pieces) && StarMeetsComment(pieces)
    ensures star == EndOf(i, pieces[0]) - 1
    ensures i <= star && star + 2 <= |b| && (forall m :: i <= m <= star ==> ParenOpens(b, m).None?)
    ensures b[i..star] == pieces[0].text[..|pieces[0].text| - 1] && b[star] == '*' && b[star + 1] == '/'
  {
    var e := EndOf(i, pieces[0]);
    star := e - 1;
    CodeStands(PARENS, b, i, pieces[0], e);
    LastOfCode(b, i, e, pieces[0].text);
    SecondStands(PARENS, b, i, pieces);
    CommentStartsWithSlash(b, e, pieces[1]);
  }

  lemma {:induction false} CommentStartsWithSlash(b: string, i: nat, p: Piece)
    requires StandsAt(PARENS, b, i, p) && IsComment(p)
    ensures i < |b| && b[i] == '/'
  {
    assert ParenOpens(b, i).value.1.BlockComment?;
  }

  /** Leading code or a comment in front of a tangle: its closes count and the leading run goes on. */
  lemma {:induction false} LeadGoesOn(b: string, i: nat, pieces: seq<Piece>)
    requires Reads(PARENS, b, i, pieces) && Tangled(pieces) && !StarMeetsComment(pieces)
    ensures EndOf(i, pieces[0]) < |b|
    ensures Events(Tokens(b, i, Plain, true))
      == (if pieces[0].Code? then ParensOf(pieces[0].text) else []) + Events(Tokens(b, EndOf(i, pieces[0]), Plain, true))
  {
    var e := EndOf(i, pieces[0]);
    SecondStands(PARENS, b, i, pieces);
    if pieces[0].Code? {
      CodeEndsClean(b, i, pieces, true);
      var after := ParensOfCode(b, i, e, true);
    } else {
      var after := EventsBehindPiece(b, i, pieces[0], true);
    }
  }

  lemma {:induction false} TangleStands(b: string, i: nat, pieces: seq<Piece>)
    requires Reads(PARENS, b, i, pieces) && Tangled(pieces)
    ensures (forall k :: 0 <= k < |pieces| ==> IsPiece(pieces[k])) && i < TangleEnd(i, pieces) <= |b|
    decreases |pieces|
  {
    PiecesSpellText(PARENS, b, i, pieces);
    if StarMeetsComment(pieces) {
      var star := TangleShape(b, i, pieces);
    } else {
      TangleStands(b, EndOf(i, pieces[0]), pieces[1..]);
    }
  }

  lemma {:induction false} TangledHere(b: string, i: nat, pieces: seq<Piece>, before: seq<Token>, next: nat)
    requires Reads(PARENS, b, i, pieces) && StarMeetsComment(pieces)
    requires before == ParensOf(pieces[0].text[..|pieces[0].text| - 1]) && next == EndOf(i, pieces[0]) + 1 <= |b|
    ensures i <= |b| && Events(Tokens(b, i, Plain, true)) == before + Events(Tokens(b, next, Plain, true))
  {
    var star := TangleShape(b, i, pieces);
    StarSkipsTwo(b, i, star, next, pieces[0].text[..|pieces[0].text| - 1], before);
  }

  lemma {:induction false} TangledLater(i: nat, pieces: seq<Piece>, own: seq<Token>)
    requires Tangled(pieces) && !StarMeetsComment(pieces) && forall k :: 0 <= k < |pieces| ==> IsPiece(pieces[k])
    requires own == if pieces[0].Code? then ParensOf(pieces[0].text) else []
    ensures Tangled(pieces[1..]) && ParensBeforeTangle(pieces) == own + ParensBeforeTangle(pieces[1..])
    ensures TangleEnd(i, pieces) == TangleEnd(EndOf(i, pieces[0]), pieces[1..])
  {
  }

  lemma {:induction false} TangledFrom(b: string, i: nat, pieces: seq<Piece>, before: seq<Token>, next: nat)
    requires Reads(PARENS, b, i, pieces) && Tangled(pieces) && forall k :: 0 <= k < |pieces| ==> IsPiece(pieces[k])
    requires before == ParensBeforeTangle(pieces) && next == TangleEnd(i, pieces) <= |b|
    ensures i <= |b| && Events(Tokens(b, i, Plain, true)) == before + Events(Tokens(b, next, Plain, true))
    decreases |pieces|
  {
    if StarMeetsComment(pieces) {
      TangledHere(b, i, pieces, before, next);
    } else {
      var own, rest := if pieces[0].Code? then ParensOf(pieces[0].text) else [], pieces[1..];
      TangledLater(i, pieces, own);
      LeadGoesOn(b, i, pieces);
      TangledFrom(b, EndOf(i, pieces[0]), rest, ParensBeforeTangle(rest), next);
      Regroup(own, ParensBeforeTangle(rest), Events(Tokens(b, next, Plain, true)));
    }
  }

  // ----- Every line -----

  lemma {:induction false} PiecesExist(line: string, i: nat)
    requires i <= |line|
    ensures exists pieces :: Reads(PARENS, line, i, pieces)
  {
    ParensOpenOk(line);
    var pieces := EveryTextHasPieces(PARENS, line, i);
  }

  /** The pieces of the line from byte `i` on; there is one such list (`PiecesAreFixed`). */
  ghost function PiecesFrom(line: string, i: nat): (pieces: seq<Piece>)
    requires i <= |line|
    ensures Reads(PARENS, line, i, pieces)
  {
    PiecesExist(line, i);
    var pieces :| Reads(PARENS, line, i, pieces);
    pieces
  }

  /**
    The parentheses of the code of `line[i..]`, in which a tangle starts the line anew behind its
    `*` `/`, in the middle of the comment.
   */
  ghost function ParensRead(line: string, i: nat): seq<Token>
    requires i <= |line|
    decreases |line| - i
  {
    var pieces := PiecesFrom(line, i);
    if Tangled(pieces) then
      TangleStands(line, i, pieces);
      ParensBeforeTangle(pieces) + ParensRead(line, TangleEnd(i, pieces))
    else CodeParens(pieces)
  }

  /** The paren events of every line are the parentheses so read. */
  lemma {:induction false} EventsAreParensRead(line: string, i: nat)
    requires i <= |line|
    ensures Events(Tokens(line, i, Plain, true)) == ParensRead(line, i)
    decreases |line| - i
  {
    var pieces := PiecesFrom(line, i);
    if Tangled(pieces) {
      TangleStands(line, i, pieces);
      TangledFrom(line, i, pieces, ParensBeforeTangle(pieces), TangleEnd(i, pieces));
      EventsAreParensRead(line, TangleEnd(i, pieces));
    } else {
      ParensFrom(line, i, pieces, true);
    }
  }

  lemma {:induction false} SameBehind(a: seq<Token>, b: seq<Token>, c: seq<Token>)
    ensures a + b == a + c <==> b == c
  {
    assert (a + b)[|a|..] == b && (a + c)[|a|..] == c;
  }

  /**
    The paren events of a line are exactly the parentheses of its code, in order, if and only if the
    line is not tangled or reading on behind its tangle finds the parentheses of the code from the
    tangled comment on.
   */
  lemma {:induction false} EventsAreCodeParensIff(line: string, pieces: seq<Piece>)
    requires Reads(PARENS, line, 0, pieces)
    ensures Tangled(pieces) ==> (forall k :: 0 <= k < |pieces| ==> IsPiece(pieces[k])) && TangleEnd(0, pieces) <= |line|
    ensures Events(LineTokens(line)) == CodeParens(pieces) <==>
      (Tangled(pieces) ==> ParensRead(line, TangleEnd(0, pieces)) == CodeParens(FromTangle(pieces)))
  {
    if Tangled(pieces) {
      var before := ParensBeforeTangle(pieces);
      TangleStands(line, 0, pieces);
      TangledFrom(line, 0, pieces, before, TangleEnd(0, pieces));
      EventsAreParensRead(line, TangleEnd(0, pieces));
      CodeParensAtTangle(pieces);
      SameBehind(before, ParensRead(line, TangleEnd(0, pieces)), CodeParens(FromTangle(pieces)));
    } else {
      ParensFrom(line, 0, pieces, true);
    }
  }

  const TANGLED := "*/*(*/"

  /** Such a line exists: its only parenthesis stands in a comment and counts all the same. */
  lemma {:induction false} CommentedParenCounts(pieces: seq<Piece>)
    requires pieces == [Code("*"), Delimited("/*", BlockComment, "(")]
    ensures Reads(PARENS, TANGLED, 0, pieces) && Tangled(pieces) && CodeParens(pieces) == [] && Events(LineTokens(TANGLED)) == [Open]
  {
    TangledPieces(pieces[0], pieces[1]);
    assert pieces[1..] == [pieces[1]] && pieces[1..][1..] == [];
    NoCodeParens(pieces[0], pieces[1]);
    TangledTokens();
  }

  lemma {:induction false} TangledTokens()
    ensures Events(LineTokens(TANGLED)) == [Open]
  {
    TangledOpens();
    StarSkipsTwo(TANGLED, 0, 0, 2, "", []);
    TangledRest();
  }

  lemma {:induction false} NoCodeParens(star: Piece, other: Piece)
    requires star == Code("*") && !other.Code?
    ensures CodeParens([star, other]) == []
  {
    assert [star, other][1..] == [other] && [other][1..] == [];
    assert "*"[1..] == "" && ParensOf("*") == ParenOf('*') + ParensOf("");
    assert CodeParens([other]) == [] + CodeParens([]);
  }

  lemma {:induction false} TangledRest()
    requires (forall m :: 2 <= m < 6 ==> ParenOpens(TANGLED, m).None?) && !HasAt(TANGLED, 5, "*/")
    ensures Events(Tokens(TANGLED, 2, Plain, true)) == [Open]
  {
    assert TANGLED[2..6] == "*(*/" && "*(*/"[1..] == "(*/" && "(*/"[1..] == "*/" && "*/"[1..] == "/" && "/"[1..] == "";
    var after := ParensOfCode(TANGLED, 2, 6, true);
  }

  lemma {:induction false} TangledOpens()
    ensures ParenOpens(TANGLED, 0).None? && ParenOpens(TANGLED, 1) == Some((3, BlockComment))
    ensures forall m :: 2 <= m < 6 ==> ParenOpens(TANGLED, m).None?
    ensures !HasAt(TANGLED, 5, "*/")
  {
  }

  lemma {:induction false} TangledPieces(star: Piece, comment: Piece)
    requires star == Code("*") && comment == Delimited("/*", BlockComment, "(")
    ensures StandsAt(PARENS, TANGLED, 0, star) && StandsAt(PARENS, TANGLED, 1, comment) && EndOf(1, comment) == 6
  {
    TangledOpens();
    assert TANGLED[0..1] == "*" && TANGLED[1..6] == "/*" + "(" + "*/";
    CloserIsStarSlash("(" + "*/", 0);
  }

  // ----- Words -----

  /** The words of a text: every run of identifier bytes from its first byte that can start a word. */
  function WordsOf(text: string, i: nat): seq<string>
    requires i <= |text|
    decreases |text| - i
  {
    if i == |text| then []
    else if IsIdentifierStartByte(text[i]) then [text[i..RunEnd(text, i)]] + WordsOf(text, RunEnd(text, i))
    else WordsOf(text, i + 1)
  }

  function CodeWords(pieces: seq<Piece>): seq<string> {
    if pieces == [] then [] else (if pieces[0].Code? then WordsOf(pieces[0].text, 0) else []) + CodeWords(pieces[1..])
  }

  function WordsFrom(b: string, i: nat): seq<string>
    requires i <= |b|
  {
    Trailing.Words(b, Trailing.Items(b, i, Plain))
  }

  /** The words that start at byte `i`, and where the scan goes on. */
  predicate IsWordStep(b: string, i: nat, word: seq<string>, next: nat)
    requires i < |b|
  {
    if IsIdentifierStartByte(b[i]) then next == RunEnd(b, i) && word == [b[i..next]] else next == i + 1 && word == []
  }

  lemma {:induction false} WordStep(b: string, i: nat, word: seq<string>, next: nat)
    requires i < |b| && WordOpens(b, i).None? && IsWordStep(b, i, word, next)
    ensures i < next <= |b| && WordsFrom(b, i) == word + WordsFrom(b, next)
  {
    var move := Trailing.ForwardMove(b, i, Plain);
    assert move == if IsAsciiWhitespace(b[i]) then Trailing.Skip(i + 1, Plain)
                   else if IsIdentifierStartByte(b[i]) then Trailing.Emit(Trailing.WordAt(i, RunEnd(b, i + 1)))
                   else Trailing.Emit(Trailing.ByteAt(i));
    if move.Emit? {
      var items := Trailing.Items(b, i, Plain);
      assert items[1..] == Trailing.Items(b, move.item.End(), Plain);
    }
  }

  /** Code and what follows it never share a word: whatever opens on an identifier byte stands apart from identifiers. */
  lemma {:induction false} OpenersStandApart(b: string, i: nat)
    requires 0 < i < |b| && WordOpens(b, i).Some?
    ensures !(IsIdentifierByte(b[i - 1]) && IsIdentifierByte(b[i]))
  {
  }

  /** `end` does not cut a word. */
  predicate IsSeam(b: string, end: nat) {
    end <= |b| && (0 < end < |b| ==> !(IsIdentifierByte(b[end - 1]) && IsIdentifierByte(b[end])))
  }

  lemma {:induction false} RunInCode(b: string, i: nat, end: nat, k: nat)
    requires i <= k < end && IsSeam(b, end) && IsIdentifierByte(b[k])
    ensures RunEnd(b, k) <= end && RunEnd(b[i..end], k - i) == RunEnd(b, k) - i
    decreases end - k
  {
    assert b[i..end][k - i] == b[k];
    if k + 1 < end {
      assert b[i..end][k + 1 - i] == b[k + 1];
      if IsIdentifierByte(b[k + 1]) {
        RunInCode(b, i, end, k + 1);
      }
    }
  }

  lemma {:induction false} FindWordStep(b: string, i: nat, end: nat, k: nat, text: string) returns (word: seq<string>, next: nat)
    requires i <= k < end && IsSeam(b, end) && text == b[i..end]
    ensures k < next <= end && IsWordStep(b, k, word, next) && IsWordStep(text, k - i, word, next - i)
  {
    assert text[k - i] == b[k];
    if IsIdentifierStartByte(b[k]) {
      RunInCode(b, i, end, k);
      next := RunEnd(b, k);
      word := [b[k..next]];
      SliceOfSlice(b, i, end, k - i, next - i);
    } else {
      next, word := k + 1, [];
    }
  }

  lemma {:induction false} WordsOfStep(text: string, i: nat, word: seq<string>, next: nat)
    requires i < |text| && IsWordStep(text, i, word, next)
    ensures i < next <= |text| && WordsOf(text, i) == word + WordsOf(text, next)
  {
  }

  lemma {:induction false} WordStepInCode(
    b: string, i: nat, end: nat, k: nat, text: string)
    returns (word: seq<string>, next: nat)
    requires i <= k < end && IsSeam(b, end) && text == b[i..end] && WordOpens(b, k).None?
    ensures k < next <= end
    ensures WordsFrom(b, k) == word + WordsFrom(b, next)
    ensures WordsOf(text, k - i) == word + WordsOf(text, next - i)
  {
    word, next := FindWordStep(b, i, end, k, text);
    WordStep(b, k, word, next);
    WordsOfStep(text, k - i, word, next - i);
  }

  lemma {:induction false} WordsOfCode(b: string, i: nat, end: nat, k: nat, text: string)
    requires i <= k <= end && IsSeam(b, end) && text == b[i..end] && forall m :: i <= m < end ==> WordOpens(b, m).None?
    ensures WordsFrom(b, k) == WordsOf(text, k - i) + WordsFrom(b, end)
    decreases end - k
  {
    if k < end {
      var word, next := WordStepInCode(b, i, end, k, text);
      WordsOfCode(b, i, end, next, text);
      Regroup(word, WordsOf(text, next - i), WordsFrom(b, end));
    }
  }

  lemma {:induction false} WordsBehindBody(b: string, i: nat, j: nat, mode: Mode)
    requires i < |b| && WordOpens(b, i) == Some((j, mode)) && !mode.LineComment?
    ensures j <= |b| && mode.Ok() && !mode.Plain?
    ensures WordsFrom(b, i) == match BodyEnd(b, j, mode) case None => [] case Some(e) => WordsFrom(b, e)
  {
    assert Trailing.ForwardMove(b, i, Plain) == Trailing.Skip(j, mode);
    WordsSkipBodies(b, j, mode);
  }

  lemma {:induction false} WordsBehindPiece(b: string, i: nat, p: Piece)
    requires StandsAt(WORDS, b, i, p) && !p.Code?
    ensures WordsFrom(b, i) == if p.LineRemark? || p.Unclosed? then [] else WordsFrom(b, EndOf(i, p))
  {
    if p.LineRemark? {
      assert Trailing.ForwardMove(b, i, Plain) == Trailing.Stop;
    } else {
      BodyEndsWithPiece(WORDS, b, i, p);
      WordsBehindBody(b, i, BodyStart(i, p), BodyMode(p));
    }
  }

  lemma {:induction false} CodeEndsAtSeam(b: string, i: nat, pieces: seq<Piece>)
    requires Reads(WORDS, b, i, pieces) && pieces != [] && pieces[0].Code?
    ensures IsSeam(b, EndOf(i, pieces[0]))
  {
    var e := EndOf(i, pieces[0]);
    if e < |b| {
      SecondStands(WORDS, b, i, pieces);
      OpenersStandApart(b, e);
    }
  }

  lemma {:induction false} WordsFromPieces(b: string, i: nat, pieces: seq<Piece>)
    requires Reads(WORDS, b, i, pieces)
    ensures i <= |b| && WordsFrom(b, i) == CodeWords(pieces)
    decreases |pieces|
  {
    if pieces != [] {
      var e, rest := EndOf(i, pieces[0]), pieces[1..];
      WordsFromPieces(b, e, rest);
      if pieces[0].Code? {
        CodeEndsAtSeam(b, i, pieces);
        WordsOfCode(b, i, e, i, pieces[0].text);
      } else {
        WordsBehindPiece(b, i, pieces[0]);
        if e == |b| {
          NothingBehindTheEnd(WORDS, b, rest);
        }
        assert CodeWords(pieces) == CodeWords(rest);
      }
    }
  }

  /** The words of a line are exactly the words of its code, in order. */
  lemma {:induction false} WordsAreCodeWords(line: string, pieces: seq<Piece>)
    requires Reads(WORDS, line, 0, pieces)
    ensures Trailing.AllWords(line) == CodeWords(pieces)
  {
    WordsFromPieces(line, 0, pieces);
  }

  /** The trailing scan returns the last words of the code, on every line but those on which its fast path drops a word. */
  lemma {:induction false} TrailingWordsAreCodeWordsIff(line: string, pieces: seq<Piece>)
    requires Reads(WORDS, line, 0, pieces)
    ensures (forall k: nat :: Trailing.TrailingWords(line, k) == LastN(CodeWords(pieces), k)) <==>
      (!Trailing.FastPathSafe(line) || TrailingAgreement.NoDigitLedWordFrom(line, 0))
  {
    WordsAreCodeWords(line, pieces);
    TrailingAgreement.TrailingWordsAgreeIff(line);
  }
}
