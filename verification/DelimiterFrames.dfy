/**
  Delimiter frames (src/sql_delimiter.rs): a stack of open brackets with one
  close counter per resulting depth, boundaries that ask "has the frame I was
  in been closed since?", and line-start snapshots that pad missing outer
  frames with wildcard frames.
 */
module DelimiterFrames {
  import opened Prelude

  // ----- Frames and symbols -----

  datatype FrameKind = Unknown | Paren | Bracket | Brace {
    predicate CanBeClosedBy(closeKind: FrameKind) {
      Unknown? || this == closeKind
    }
  }

  function FromOpenChar(symbol: char): Option<FrameKind> {
    match symbol
    case '(' => Some(Paren)
    case '[' => Some(Bracket)
    case '{' => Some(Brace)
    case _ => None
  }

  function FromCloseChar(symbol: char): Option<FrameKind> {
    match symbol
    case ')' => Some(Paren)
    case ']' => Some(Bracket)
    case '}' => Some(Brace)
    case _ => None
  }

  datatype SqlToken = Word(text: string) | StringLiteral(text: string) | Comment(text: string) | Symbol(text: string)

  /** The characters of the symbol tokens, in order: all that the frame state reads. */
  function SymbolText(tokens: seq<SqlToken>): string {
    if tokens == [] then "" else TokenText(tokens[0]) + SymbolText(tokens[1..])
  }

  function TokenText(token: SqlToken): string {
    if token.Symbol? then token.text else ""
  }

  // ----- The close counters -----

  const U64_MODULUS: nat := 0x1_0000_0000_0000_0000

  type u64 = n: nat | n < U64_MODULUS

  /** `Option<Vec<u64>>`: absent for states that do not track boundaries. */
  type Generations = Option<seq<u64>>

  function GenerationAt(generations: Generations, depth: nat): u64 {
    if generations.Some? && depth < |generations.value| then generations.value[depth] else 0
  }

  /** `record_successful_close`: grow the counters to `depth` and bump that one, wrapping. */
  function RecordClose(generations: Generations, depth: nat): (r: Generations)
    ensures r.Some? <==> generations.Some?
    ensures generations.Some? ==>
      forall d: nat :: GenerationAt(r, d)
        == if d == depth then (GenerationAt(generations, d) + 1) % U64_MODULUS else GenerationAt(generations, d)
  {
    match generations
    case None => None
    case Some(counts) =>
      var grown := if |counts| <= depth then counts + seq(depth + 1 - |counts|, _ => 0) else counts;
      Some(grown[depth := (grown[depth] + 1) % U64_MODULUS])
  }

  // ----- One character at a time -----

  datatype Frames = Frames(stack: seq<FrameKind>, generations: Generations)

  predicate ClosesStrict(stack: seq<FrameKind>, c: char) {
    && FromCloseChar(c).Some?
    && stack != []
    && stack[|stack| - 1] == FromCloseChar(c).value
  }

  predicate ClosesLenient(stack: seq<FrameKind>, c: char) {
    && FromCloseChar(c).Some?
    && stack != []
    && stack[|stack| - 1].CanBeClosedBy(FromCloseChar(c).value)
  }

  function Opened(f: Frames, kind: FrameKind): Frames {
    f.(stack := f.stack + [kind])
  }

  function Closed(f: Frames): Frames
    requires f.stack != []
  {
    var stack := f.stack[..|f.stack| - 1];
    Frames(stack, RecordClose(f.generations, |stack|))
  }

  function StepStrict(f: Frames, c: char): Frames {
    if FromOpenChar(c).Some? then Opened(f, FromOpenChar(c).value)
    else if ClosesStrict(f.stack, c) then Closed(f)
    else f
  }

  /** The state after a whole text: what every later theorem is about. */
  function RunStrict(f: Frames, text: string): Frames {
    if text == "" then f else StepStrict(RunStrict(f, text[..|text| - 1]), text[|text| - 1])
  }

  /** Replay with wildcards, stopping at the first close that lands below `baseline`. */
  function DetectRun(f: Frames, text: string, baseline: nat): (Frames, bool)
    decreases |text|
  {
    if text == "" then (f, false)
    else if FromOpenChar(text[0]).Some? then DetectRun(Opened(f, FromOpenChar(text[0]).value), text[1..], baseline)
    else if ClosesLenient(f.stack, text[0]) then
      if |Closed(f).stack| < baseline then (Closed(f), true) else DetectRun(Closed(f), text[1..], baseline)
    else DetectRun(f, text[1..], baseline)
  }

  lemma {:induction false} RunStrictConcat(f: Frames, a: string, b: string)
    ensures RunStrict(f, a + b) == RunStrict(RunStrict(f, a), b)
  {
    if b == "" {
      assert a + b == a;
    } else {
      var n := |a + b| - 1;
      assert (a + b)[..n] == a + b[..|b| - 1];
      RunStrictConcat(f, a, b[..|b| - 1]);
    }
  }

  lemma {:induction false} DetectRunConcat(f: Frames, a: string, b: string, baseline: nat)
    ensures var (g, found) := DetectRun(f, a, baseline);
            DetectRun(f, a + b, baseline) == if found then (g, true) else DetectRun(g, b, baseline)
    decreases |a|
  {
    if a == "" {
      assert a + b == b;
    } else {
      assert (a + b)[1..] == a[1..] + b;
      if FromOpenChar(a[0]).Some? {
        DetectRunConcat(Opened(f, FromOpenChar(a[0]).value), a[1..], b, baseline);
      } else if ClosesLenient(f.stack, a[0]) {
        if |Closed(f).stack| >= baseline {
          DetectRunConcat(Closed(f), a[1..], b, baseline);
        }
      } else {
        DetectRunConcat(f, a[1..], b, baseline);
      }
    }
  }

  lemma {:induction false} SymbolTextConcat(a: seq<SqlToken>, b: seq<SqlToken>)
    ensures SymbolText(a + b) == SymbolText(a) + SymbolText(b)
    decreases |a|
  {
    if a == [] {
      assert a + b == b;
    } else {
      assert (a + b)[1..] == a[1..] + b;
      SymbolTextConcat(a[1..], b);
    }
  }

  // ----- The mutable frame state -----

  datatype Boundary = Boundary(depth: nat, closeGenerationBelow: u64)

  datatype LineStartSnapshot = LineStartSnapshot(visibleFrames: seq<FrameKind>, baselineDepth: nat)

  function BoundaryOf(f: Frames): Boundary {
    Boundary(|f.stack|, if |f.stack| == 0 then 0 else GenerationAt(f.generations, |f.stack| - 1))
  }

  predicate HasClosedBelow(f: Frames, b: Boundary) {
    b.depth > 0 && GenerationAt(f.generations, b.depth - 1) != b.closeGenerationBelow
  }

  function Padded(stack: seq<FrameKind>, baseline: nat): seq<FrameKind> {
    seq(Max(baseline - |stack|, 0), _ => Unknown) + stack
  }

  class DelimiterFrameState {
    var stack: seq<FrameKind>
    var generations: Generations

    function Value(): Frames
      reads this
    {
      Frames(stack, generations)
    }

    constructor Default()
      ensures Value() == Frames([], None)
    {
      stack, generations := [], None;
    }

    constructor WithBoundaryTracking()
      ensures Value() == Frames([], Some([]))
    {
      stack, generations := [], Some([]);
    }

    constructor FromSnapshot(snapshot: LineStartSnapshot)
      ensures Value() == Frames(snapshot.visibleFrames, None)
    {
      stack, generations := snapshot.visibleFrames, None;
    }

    method RecordSuccessfulClose()
      modifies this
      ensures Value() == old(Value()).(generations := RecordClose(old(generations), |stack|))
    {
      if generations.None? {
        return;
      }
      var counts := generations.value;
      var resultingDepth := |stack|;
      if |counts| <= resultingDepth {
        counts := counts + seq(resultingDepth + 1 - |counts|, _ => 0);
      }
      generations := Some(counts[resultingDepth := (counts[resultingDepth] + 1) % U64_MODULUS]);
    }

    method ApplySymbolStrict(symbol: string)
      modifies this
      ensures Value() == RunStrict(old(Value()), symbol)
    {
      for i := 0 to |symbol|
        invariant Value() == RunStrict(old(Value()), symbol[..i])
      {
        assert symbol[..i + 1][..i] == symbol[..i];
        var openKind := FromOpenChar(symbol[i]);
        if openKind.Some? {
          stack := stack + [openKind.value];
          continue;
        }
        var closeKind := FromCloseChar(symbol[i]);
        if closeKind.None? {
          continue;
        }
        if |stack| > 0 && stack[|stack| - 1] == closeKind.value {
          stack := stack[..|stack| - 1];
          RecordSuccessfulClose();
        }
      }
      assert symbol[..|symbol|] == symbol;
    }

    method ApplyToken(token: SqlToken)
      modifies this
      ensures Value() == RunStrict(old(Value()), TokenText(token))
    {
      if token.Symbol? {
        ApplySymbolStrict(token.text);
      }
    }

    method ApplySymbolWithCloseDetection(symbol: string, baselineDepth: nat) returns (below: bool)
      modifies this
      ensures (Value(), below) == DetectRun(old(Value()), symbol, baselineDepth)
    {
      for i := 0 to |symbol|
        invariant DetectRun(old(Value()), symbol, baselineDepth) == DetectRun(Value(), symbol[i..], baselineDepth)
      {
        var openKind := FromOpenChar(symbol[i]);
        if openKind.Some? {
          stack := stack + [openKind.value];
          continue;
        }
        var closeKind := FromCloseChar(symbol[i]);
        if closeKind.None? {
          continue;
        }
        if |stack| > 0 && stack[|stack| - 1].CanBeClosedBy(closeKind.value) {
          stack := stack[..|stack| - 1];
          RecordSuccessfulClose();
          if |stack| < baselineDepth {
            return true;
          }
        }
      }
      below := false;
    }

    method ApplyTokenWithCloseDetection(token: SqlToken, baselineDepth: nat) returns (below: bool)
      modifies this
      ensures (Value(), below) == DetectRun(old(Value()), TokenText(token), baselineDepth)
    {
      if token.Symbol? {
        below := ApplySymbolWithCloseDetection(token.text, baselineDepth);
      } else {
        below := false;
      }
    }
  }

  method LineStartSnapshotBeforeToken(tokens: seq<SqlToken>, lineStartIdx: nat, baselineDepth: nat)
    returns (snapshot: LineStartSnapshot)
    ensures snapshot == SnapshotBefore(tokens, lineStartIdx, baselineDepth)
  {
    var state := new DelimiterFrameState.Default();
    var prefix := FirstN(tokens, lineStartIdx);
    for i := 0 to |prefix|
      invariant state.Value() == RunStrict(Frames([], None), SymbolText(prefix[..i]))
    {
      state.ApplyToken(prefix[i]);
      assert prefix[..i + 1] == prefix[..i] + [prefix[i]];
      SymbolTextConcat(prefix[..i], [prefix[i]]);
      assert SymbolText([prefix[i]]) == TokenText(prefix[i]);
      RunStrictConcat(Frames([], None), SymbolText(prefix[..i]), TokenText(prefix[i]));
    }
    assert prefix[..|prefix|] == prefix;
    var missing := if baselineDepth > |state.stack| then baselineDepth - |state.stack| else 0;
    snapshot := LineStartSnapshot(seq(missing, _ => Unknown) + state.stack, baselineDepth);
  }

  method LineClosesFrameBelowSnapshot(tokens: seq<SqlToken>, lineStartIdx: nat, tokenIdx: nat, snapshot: LineStartSnapshot)
    returns (below: bool)
    ensures below == ClosesBelowSnapshot(tokens, lineStartIdx, tokenIdx, snapshot)
  {
    if lineStartIdx >= tokenIdx || snapshot.baselineDepth == 0 {
      return false;
    }
    var state := new DelimiterFrameState.FromSnapshot(snapshot);
    var line := LineSegment(tokens, lineStartIdx, tokenIdx);
    for i := 0 to |line|
      invariant DetectRun(Frames(snapshot.visibleFrames, None), SymbolText(line), snapshot.baselineDepth).1
        == DetectRun(state.Value(), SymbolText(line[i..]), snapshot.baselineDepth).1
    {
      DetectRunConcat(state.Value(), TokenText(line[i]), SymbolText(line[i + 1..]), snapshot.baselineDepth);
      assert line[i..][1..] == line[i + 1..];
      var found := state.ApplyTokenWithCloseDetection(line[i], snapshot.baselineDepth);
      if found {
        return true;
      }
    }
    below := false;
  }

  // ----- What the two entry points compute, on values -----

  function FramesBefore(tokens: seq<SqlToken>, idx: nat): Frames {
    RunStrict(Frames([], None), SymbolText(FirstN(tokens, idx)))
  }

  function SnapshotBefore(tokens: seq<SqlToken>, lineStartIdx: nat, baseline: nat): LineStartSnapshot {
    LineStartSnapshot(Padded(FramesBefore(tokens, lineStartIdx).stack, baseline), baseline)
  }

  /** `tokens.iter().skip(a).take(b - a)`. */
  function LineSegment(tokens: seq<SqlToken>, a: nat, b: nat): seq<SqlToken> {
    if a >= b || a >= |tokens| then [] else FirstN(tokens[a..], b - a)
  }

  predicate ClosesBelowSnapshot(tokens: seq<SqlToken>, lineStartIdx: nat, tokenIdx: nat, snapshot: LineStartSnapshot) {
    && lineStartIdx < tokenIdx
    && snapshot.baselineDepth > 0
    && DetectRun(Frames(snapshot.visibleFrames, None), SymbolText(LineSegment(tokens, lineStartIdx, tokenIdx)), snapshot.baselineDepth).1
  }
}
