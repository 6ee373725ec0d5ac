/**
  Overload signatures (scripts/generate_builtin_signatures.py): the splitter at
  top-level bars keeps one saturating counter per bracket kind, the balance check
  keeps a stack.  A signature is balanced exactly when all its parts are.
 */
module SignatureSplit {
  import opened Prelude
  import SqlBytes

  // ----- Quotes -----

  /** `quote` and `escaped` of both loops. */
  datatype Lex = Lex(quote: Option<char>, escaped: bool)

  const OUTSIDE := Lex(None, false)

  predicate IsQuote(c: char) {
    c == '\'' || c == '"'
  }

  function NextLex(l: Lex, c: char): Lex {
    if l.quote.None? then (if IsQuote(c) then l.(quote := Some(c)) else l)
    else if l.escaped then l.(escaped := false)
    else if c == '\\' then l.(escaped := true)
    else if l.quote == Some(c) then l.(quote := None)
    else l
  }

  // ----- The balance check -----

  function OpenerOf(close: char): Option<char> {
    match close
    case ')' => Some('(')
    case ']' => Some('[')
    case '}' => Some('{')
    case _ => None
  }

  predicate IsOpener(c: char) {
    c == '(' || c == '[' || c == '{'
  }

  datatype Check = Failed | Scanning(lex: Lex, stack: seq<char>)

  const START := Scanning(OUTSIDE, [])

  function CheckStep(s: Check, c: char): Check {
    if s.Failed? then s
    else if s.lex.quote.Some? || IsQuote(c) then s.(lex := NextLex(s.lex, c))
    else if IsOpener(c) then s.(stack := s.stack + [c])
    else if OpenerOf(c).None? then s
    else if s.stack == [] || s.stack[|s.stack| - 1] != OpenerOf(c).value then Failed
    else s.(stack := s.stack[..|s.stack| - 1])
  }

  function CheckRun(s: Check, text: string): Check {
    if text == "" then s else CheckStep(CheckRun(s, text[..|text| - 1]), text[|text| - 1])
  }

  predicate Accepts(s: Check) {
    s.Scanning? && s.stack == [] && s.lex.quote.None?
  }

  predicate Balanced(value: string) {
    Accepts(CheckRun(START, value))
  }

  method BalancedSignature(value: string) returns (ok: bool)
    ensures ok == Balanced(value)
  {
    var stack: seq<char> := [];
    var quote: Option<char>, escaped := None, false;
    for i := 0 to |value|
      invariant CheckRun(START, value[..i]) == Scanning(Lex(quote, escaped), stack)
    {
      var c := value[i];
      assert value[..i + 1][..i] == value[..i];
      if quote.Some? {
        if escaped {
          escaped := false;
        } else if c == '\\' {
          escaped := true;
        } else if Some(c) == quote {
          quote := None;
        }
        continue;
      }
      if IsQuote(c) {
        quote := Some(c);
      } else if IsOpener(c) {
        stack := stack + [c];
      } else if OpenerOf(c).Some? {
        if stack == [] || stack[|stack| - 1] != OpenerOf(c).value {
          FailureIsFinal(value, i + 1);
          return false;
        }
        stack := stack[..|stack| - 1];
      }
    }
    assert value[..|value|] == value;
    ok := stack == [] && quote.None?;
  }

  lemma {:induction false} FailureIsFinal(value: string, n: nat)
    requires n <= |value| && CheckRun(START, value[..n]).Failed?
    ensures CheckRun(START, value).Failed?
    decreases |value| - n
  {
    if n < |value| {
      assert value[..n + 1][..n] == value[..n];
      FailureIsFinal(value, n + 1);
    } else {
      assert value[..n] == value;
    }
  }

  lemma {:induction false} CheckRunConcat(s: Check, a: string, b: string)
    ensures CheckRun(s, a + b) == CheckRun(CheckRun(s, a), b)
    decreases |b|
  {
    if b == "" {
      assert a + b == a;
    } else {
      assert (a + b)[..|a + b| - 1] == a + b[..|b| - 1];
      CheckRunConcat(s, a, b[..|b| - 1]);
    }
  }

  // ----- The splitter -----

  datatype Depths = Depths(paren: nat, bracket: nat, brace: nat)

  function Opened(d: Depths, c: char): Depths {
    match c
    case '(' => d.(paren := d.paren + 1)
    case '[' => d.(bracket := d.bracket + 1)
    case '{' => d.(brace := d.brace + 1)
    case _ => d
  }

  function Less(n: nat): nat {
    if n == 0 then 0 else n - 1
  }

  function Closed(d: Depths, c: char): Depths {
    match c
    case ')' => d.(paren := Less(d.paren))
    case ']' => d.(bracket := Less(d.bracket))
    case '}' => d.(brace := Less(d.brace))
    case _ => d
  }

  /** The splitter after a prefix: finished raw pieces and the piece it is in. */
  datatype Split = Split(lex: Lex, depths: Depths, pieces: seq<string>, current: string)

  const NO_DEPTH := Depths(0, 0, 0)

  function SplitStep(s: Split, c: char): Split {
    if s.lex.quote.Some? || IsQuote(c) then s.(lex := NextLex(s.lex, c), current := s.current + [c])
    else if c == '|' && s.depths == NO_DEPTH then s.(pieces := s.pieces + [s.current], current := "")
    else s.(depths := Closed(Opened(s.depths, c), c), current := s.current + [c])
  }

  function SplitRun(text: string): Split {
    if text == "" then Split(OUTSIDE, NO_DEPTH, [], "") else SplitStep(SplitRun(text[..|text| - 1]), text[|text| - 1])
  }

  predicate IsSpace(c: char) {
    SqlBytes.IsWhitespace(c) || '\U{001C}' <= c <= '\U{001F}'
  }

  function StripStart(s: string): string {
    if s != "" && IsSpace(s[0]) then StripStart(s[1..]) else s
  }

  function StripEnd(s: string): string {
    if s != "" && IsSpace(s[|s| - 1]) then StripEnd(s[..|s| - 1]) else s
  }

  function Strip(s: string): string {
    StripEnd(StripStart(s))
  }

  /** Pieces are kept stripped, and dropped when nothing is left. */
  function Kept(pieces: seq<string>): seq<string> {
    if pieces == [] then []
    else
      var part := Strip(pieces[|pieces| - 1]);
      Kept(pieces[..|pieces| - 1]) + if part == "" then [] else [part]
  }

  /** All raw pieces between top-level bars. */
  function Pieces(value: string): seq<string> {
    SplitRun(value).pieces + [SplitRun(value).current]
  }

  function WithBars(pieces: seq<string>): string {
    if pieces == [] then "" else WithBars(pieces[..|pieces| - 1]) + pieces[|pieces| - 1] + "|"
  }

  lemma {:induction false} StepSpellsOneMore(split: Split, c: char)
    ensures var after := SplitStep(split, c);
      WithBars(after.pieces) + after.current == WithBars(split.pieces) + split.current + [c]
  {
    Regroup(WithBars(split.pieces), split.current, [c]);
    assert (split.pieces + [split.current])[..|split.pieces|] == split.pieces;
  }

  /** Splitting only takes bars out: the raw pieces, each bar put back, spell the signature. */
  lemma {:induction false} PiecesSpellValue(text: string)
    ensures WithBars(SplitRun(text).pieces) + SplitRun(text).current == text
  {
    if text != "" {
      var before, last := text[..|text| - 1], text[|text| - 1];
      assert text == before + [last];
      PiecesSpellValue(before);
      StepSpellsOneMore(SplitRun(before), last);
    }
  }

  lemma {:induction false} KeptSnoc(pieces: seq<string>, piece: string)
    ensures Kept(pieces + [piece]) == Kept(pieces) + if Strip(piece) == "" then [] else [Strip(piece)]
  {
    assert (pieces + [piece])[..|pieces|] == pieces;
  }

  lemma {:induction false} SplitOneMore(value: string, start: nat, i: nat, before: Split)
    requires start <= i < |value| && before == SplitRun(value[..i])
    ensures SplitRun(value[..i + 1]) == SplitStep(before, value[i])
    ensures value[start..i + 1] == value[start..i] + [value[i]] && value[i + 1..i + 1] == ""
  {
    assert value[..i + 1][..i] == value[..i];
  }

  method SplitTopLevelOverloads(value: string) returns (parts: seq<string>)
    ensures parts == Kept(Pieces(value))
  {
    parts := [];
    var start := 0;
    var depths, lex := NO_DEPTH, OUTSIDE;
    ghost var run := SplitRun("");
    for i := 0 to |value|
      invariant start <= i && run == SplitRun(value[..i])
      invariant lex == run.lex && depths == run.depths && parts == Kept(run.pieces) && value[start..i] == run.current
    {
      var c := value[i];
      SplitOneMore(value, start, i, run);
      if lex.quote.Some? || IsQuote(c) {
        lex := NextLex(lex, c);
      } else if c == '|' && depths == NO_DEPTH {
        parts := KeepPart(parts, value[start..i], run.pieces);
        start := i + 1;
      } else {
        depths := Closed(Opened(depths, c), c);
      }
      run := SplitStep(run, c);
    }
    assert value[..|value|] == value && value[start..] == value[start..|value|];
    parts := KeepPart(parts, value[start..], run.pieces);
  }

  method KeepPart(parts: seq<string>, piece: string, ghost pieces: seq<string>) returns (r: seq<string>)
    requires parts == Kept(pieces)
    ensures r == Kept(pieces + [piece])
  {
    KeptSnoc(pieces, piece);
    var part := Strip(piece);
    r := if part != "" then parts + [part] else parts;
  }

  // ----- Stripping does not change balance -----

  lemma {:induction false} SpaceStep(s: Check, c: char)
    requires IsSpace(c)
    ensures s.Scanning? && s.lex.quote.None? ==> CheckStep(s, c) == s
    ensures s.Scanning? && s.lex.quote.Some? ==> IsQuote(s.lex.quote.value) ==> CheckStep(s, c).lex.quote == s.lex.quote
  {
  }

  lemma {:induction false} OpenQuoteIsQuote(text: string)
    ensures var s := CheckRun(START, text); s.Scanning? && s.lex.quote.Some? ==> IsQuote(s.lex.quote.value)
  {
    if text != "" {
      OpenQuoteIsQuote(text[..|text| - 1]);
    }
  }

  lemma {:induction false} StripEndKeepsBalance(text: string)
    ensures Balanced(StripEnd(text)) <==> Balanced(text)
  {
    if text != "" && IsSpace(text[|text| - 1]) {
      StripEndKeepsBalance(text[..|text| - 1]);
      OpenQuoteIsQuote(text[..|text| - 1]);
      SpaceStep(CheckRun(START, text[..|text| - 1]), text[|text| - 1]);
    }
  }

  lemma {:induction false} StripStartKeepsBalance(text: string)
    ensures Balanced(StripStart(text)) <==> Balanced(text)
  {
    if text != "" && IsSpace(text[0]) {
      StripStartKeepsBalance(text[1..]);
      assert text == [text[0]] + text[1..];
      CheckRunConcat(START, [text[0]], text[1..]);
      SpaceStep(START, text[0]);
      assert [text[0]][..0] == "";
    }
  }

  lemma {:induction false} StripKeepsBalance(text: string)
    ensures Balanced(Strip(text)) <==> Balanced(text)
  {
    StripStartKeepsBalance(text);
    StripEndKeepsBalance(StripStart(text));
  }

  predicate AllBalanced(texts: seq<string>) {
    forall i :: 0 <= i < |texts| ==> Balanced(texts[i])
  }

  lemma {:induction false} KeptBalancedIffPiecesBalanced(pieces: seq<string>)
    ensures AllBalanced(Kept(pieces)) <==> AllBalanced(pieces)
  {
    if pieces != [] {
      var n := |pieces| - 1;
      var part := Strip(pieces[n]);
      KeptBalancedIffPiecesBalanced(pieces[..n]);
      StripKeepsBalance(pieces[n]);
      AllBalancedSnoc(pieces[..n], pieces[n]);
      assert pieces[..n] + [pieces[n]] == pieces;
      if part == "" {
        assert Kept(pieces) == Kept(pieces[..n]);
      } else {
        AllBalancedSnoc(Kept(pieces[..n]), part);
      }
    }
  }

  lemma {:induction false} AllBalancedSnoc(texts: seq<string>, text: string)
    ensures AllBalanced(texts + [text]) <==> AllBalanced(texts) && Balanced(text)
  {
    assert (texts + [text])[|texts|] == text;
    if AllBalanced(texts + [text]) {
      assert forall i :: 0 <= i < |texts| ==> texts[i] == (texts + [text])[i];
    }
  }

  // ----- Counters against stack -----

  function Count(stack: seq<char>, opener: char): nat {
    if stack == [] then 0 else Count(stack[..|stack| - 1], opener) + if stack[|stack| - 1] == opener then 1 else 0
  }

  function StackDepths(stack: seq<char>): Depths {
    Depths(Count(stack, '('), Count(stack, '['), Count(stack, '{'))
  }

  predicate OnlyOpeners(stack: seq<char>) {
    forall i :: 0 <= i < |stack| ==> IsOpener(stack[i])
  }

  lemma {:induction false} NoDepthIffEmpty(stack: seq<char>)
    requires OnlyOpeners(stack)
    ensures StackDepths(stack) == NO_DEPTH <==> stack == []
  {
    if stack != [] {
      assert IsOpener(stack[|stack| - 1]);
    }
  }

  lemma {:induction false} CountSnoc(stack: seq<char>, c: char, opener: char)
    ensures Count(stack + [c], opener) == Count(stack, opener) + if c == opener then 1 else 0
  {
    assert (stack + [c])[..|stack|] == stack;
  }

  /** One bracket moves the counters and the stack alike. */
  lemma {:induction false} DepthsFollowStack(stack: seq<char>, c: char)
    requires OnlyOpeners(stack)
    ensures IsOpener(c) ==> Closed(Opened(StackDepths(stack), c), c) == StackDepths(stack + [c]) && OnlyOpeners(stack + [c])
    ensures !IsOpener(c) && OpenerOf(c).None? ==> Closed(Opened(StackDepths(stack), c), c) == StackDepths(stack)
    ensures stack != [] && OpenerOf(c) == Some(stack[|stack| - 1]) ==>
      Closed(Opened(StackDepths(stack), c), c) == StackDepths(stack[..|stack| - 1])
  {
    if IsOpener(c) {
      CountSnoc(stack, c, '(');
      CountSnoc(stack, c, '[');
      CountSnoc(stack, c, '{');
    }
  }

  /** While the check has not failed, the saturating counters are the per-kind counts of its stack. */
  lemma {:induction false} CountersAreStackCounts(text: string)
    requires CheckRun(START, text).Scanning?
    ensures var check, split := CheckRun(START, text), SplitRun(text);
      && split.lex == check.lex && (check.lex.quote.None? ==> !check.lex.escaped)
      && OnlyOpeners(check.stack) && split.depths == StackDepths(check.stack)
  {
    if text != "" {
      var n := |text| - 1;
      var c := text[n];
      var before := CheckRun(START, text[..n]);
      CountersAreStackCounts(text[..n]);
      DepthsFollowStack(before.stack, c);
    }
  }

  /** What the splitter has passed is balanced, and the check is where it would be on the current piece alone. */
  lemma {:induction false} BalancedRunSplits(text: string)
    requires CheckRun(START, text).Scanning?
    ensures AllBalanced(SplitRun(text).pieces)
    ensures CheckRun(START, SplitRun(text).current) == CheckRun(START, text)
  {
    if text != "" {
      var n := |text| - 1;
      var before, split := CheckRun(START, text[..n]), SplitRun(text[..n]);
      BalancedRunSplits(text[..n]);
      CountersAreStackCounts(text[..n]);
      NoDepthIffEmpty(before.stack);
      AllBalancedSnoc(split.pieces, split.current);
      assert (split.current + [text[n]])[..|split.current|] == split.current;
    }
  }

  /** If everything the splitter has passed is balanced, it passed through the start state at each bar. */
  lemma {:induction false} BalancedPiecesRun(text: string)
    requires AllBalanced(SplitRun(text).pieces)
    ensures CheckRun(START, SplitRun(text).current) == CheckRun(START, text)
  {
    if text != "" {
      var n := |text| - 1;
      var split := SplitRun(text[..n]);
      AllBalancedSnoc(split.pieces, split.current);
      BalancedPiecesRun(text[..n]);
      assert (split.current + [text[n]])[..|split.current|] == split.current;
      if CheckRun(START, text[..n]).Scanning? {
        CountersAreStackCounts(text[..n]);
      }
    }
  }

  /** A signature passes the balance check if and only if every part of its split does. */
  lemma {:induction false} BalancedIffPartsBalanced(value: string)
    ensures Balanced(value) <==> AllBalanced(Kept(Pieces(value)))
  {
    KeptBalancedIffPiecesBalanced(Pieces(value));
    AllBalancedSnoc(SplitRun(value).pieces, SplitRun(value).current);
    if Balanced(value) {
      BalancedRunSplits(value);
    }
    if AllBalanced(SplitRun(value).pieces) {
      BalancedPiecesRun(value);
    }
  }
}
