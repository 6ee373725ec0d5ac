/**
  Line bookkeeping over an arbitrary literal scanner: from where the scanner is
  inside a literal, which leading part of each line belongs to a literal that
  was already open when the line began (src/sql_text.rs).
 */
module LineScanner {
  import opened Prelude
  import opened SqlBytes

  // ----- Lines, as `str::lines` cuts them -----

  function LineEnd(text: string, i: nat): (r: nat)
    requires i <= |text|
    ensures i <= r <= |text|
    ensures forall j :: i <= j < r ==> text[j] != '\n'
    ensures r < |text| ==> text[r] == '\n'
    decreases |text| - i
  {
    if i < |text| && text[i] != '\n' then LineEnd(text, i + 1) else i
  }

  /** Length of the line that starts at `s`, without the carriage return before a newline. */
  function LineLength(text: string, s: nat): nat
    requires s <= |text|
  {
    var e := LineEnd(text, s);
    if s < e < |text| && text[e - 1] == '\r' then e - s - 1 else e - s
  }

  function NextLineStart(text: string, s: nat): (r: nat)
    requires s <= |text|
    ensures s < |text| ==> s < r <= |text|
    ensures r <= |text|
  {
    var e := LineEnd(text, s);
    if e < |text| then e + 1 else |text|
  }

  function LinesFrom(text: string, s: nat): seq<string>
    requires s <= |text|
    decreases |text| - s
  {
    if s == |text| then [] else [text[s..s + LineLength(text, s)]] + LinesFrom(text, NextLineStart(text, s))
  }

  function Lines(text: string): seq<string> {
    LinesFrom(text, 0)
  }

  /** Where line `line` starts; `|text|` once there is no such line. */
  function LineStart(text: string, line: nat): (r: nat)
    ensures r <= |text|
  {
    if line == 0 then 0 else NextLineStart(text, LineStart(text, line - 1))
  }

  function LineNumber(text: string, i: nat): nat
    requires i <= |text|
  {
    if i == 0 then 0 else LineNumber(text, i - 1) + if text[i - 1] == '\n' then 1 else 0
  }

  lemma {:induction false} LinesFromLineStart(text: string, line: nat)
    ensures LinesFrom(text, LineStart(text, line)) == if line <= |Lines(text)| then Lines(text)[line..] else []
  {
    if line > 0 {
      LinesFromLineStart(text, line - 1);
    }
  }

  /** Line numbers, line starts and the cut lines agree. */
  lemma {:induction false} LineAt(text: string, line: nat)
    ensures line < |Lines(text)| <==> LineStart(text, line) < |text|
    ensures line < |Lines(text)| ==> |Lines(text)[line]| == LineLength(text, LineStart(text, line))
  {
    LinesFromLineStart(text, line);
    if line < |Lines(text)| {
      assert Lines(text)[line] == Lines(text)[line..][0];
    }
  }

  lemma {:induction false} LineNumberWithin(text: string, i: nat, j: nat)
    requires i <= j <= |text|
    requires forall k :: i <= k < j ==> text[k] != '\n'
    ensures LineNumber(text, j) == LineNumber(text, i)
  {
    if i < j {
      LineNumberWithin(text, i, j - 1);
    }
  }

  // ----- An arbitrary scanner -----

  /** One step from byte `i` of line `line`: the next byte to look at, and the mode there. */
  type Scanner = (nat, nat, Mode) -> (nat, Mode)

  /** A step stays on its line, a newline never changes a literal, a literal ends in
      one of four bytes, and none starts at whitespace. */
  predicate StepOk(text: string, i: nat, mode: Mode, r: (nat, Mode))
    requires i < |text|
  {
    && i < r.0 <= |text| && r.1.Ok()
    && (forall j :: i < j < r.0 ==> text[j] != '\n')
    && (text[i] == '\n' ==> r == (i + 1, if mode.LineComment? then Plain else mode))
    && (mode.IsLiteral() ==> r.1 == mode || (r.1 == Plain && text[r.0 - 1] in "'\"`$"))
    && (!mode.IsLiteral() && r.1.IsLiteral() ==> !IsWhitespace(text[i]))
  }

  ghost predicate ScannerOk(text: string, step: Scanner) {
    forall line: nat, i: nat, mode: Mode {:trigger step(line, i, mode)} ::
      i < |text| && mode.Ok() ==> StepOk(text, i, mode, step(line, i, mode))
  }

  /** How the scanner arrives at a byte: in which mode, and whether its last step left a literal. */
  datatype Arrival = Arrival(mode: Mode, leftLiteral: bool)

  const START := Arrival(Plain, false)

  function Arrive(at: Arrival, mode: Mode): Arrival {
    Arrival(mode, at.mode.IsLiteral() && !mode.IsLiteral())
  }

  ghost function Visit(text: string, step: Scanner, i: nat, at: Arrival, p: nat): (r: Option<Arrival>)
    requires ScannerOk(text, step) && i <= |text| && at.mode.Ok()
    ensures r.Some? ==> r.value.mode.Ok()
    decreases |text| - i
  {
    if i == p then Some(at)
    else if i > p || i == |text| then None
    else
      var (j, m) := step(LineNumber(text, i), i, at.mode);
      Visit(text, step, j, Arrive(at, m), p)
  }

  lemma {:induction false} VisitNext(text: string, step: Scanner, i: nat, at: Arrival, p: nat)
    requires ScannerOk(text, step) && at.mode.Ok() && i <= p < |text|
    requires Visit(text, step, i, at, p).Some?
    ensures var here := Visit(text, step, i, at, p).value;
      var (j, m) := step(LineNumber(text, p), p, here.mode);
      && Visit(text, step, i, at, j) == Some(Arrive(here, m))
      && forall q :: p < q < j ==> Visit(text, step, i, at, q).None?
    decreases |text| - i
  {
    if i < p {
      var (j, m) := step(LineNumber(text, i), i, at.mode);
      VisitNext(text, step, j, Arrive(at, m), p);
    }
  }

  /** The scanner's arrival at every byte of the text, where it stops at all. */
  type Trace = seq<Option<Arrival>>

  ghost function TraceOf(text: string, step: Scanner): Trace
    requires ScannerOk(text, step)
  {
    seq(|text| + 1, p requires 0 <= p => Visit(text, step, 0, START, p))
  }

  /** `trace` is the scanner's trace; a predicate, so that proofs see only the entries they ask for. */
  ghost predicate IsTrace(text: string, step: Scanner, trace: Trace) {
    && ScannerOk(text, step)
    && |trace| == |text| + 1
    && forall p {:trigger Visit(text, step, 0, START, p)} :: 0 <= p <= |text| ==> trace[p] == Visit(text, step, 0, START, p)
  }

  predicate InLiteral(trace: Trace, p: nat) {
    p < |trace| && trace[p].Some? && trace[p].value.mode.IsLiteral()
  }

  predicate LeavesLiteral(trace: Trace, p: nat) {
    p < |trace| && trace[p] == Some(Arrival(Plain, true))
  }

  /** The scanner leaves a literal at `a`, and none behind that up to `e`. */
  ghost predicate LeavesLast(trace: Trace, a: nat, e: nat) {
    LeavesLiteral(trace, a) && forall q :: a < q <= e ==> !LeavesLiteral(trace, q)
  }

  /** The scanner is at `i` and its next stop is `j`. */
  ghost predicate StopsNext(text: string, trace: Trace, i: nat, j: nat, m: Mode) {
    && i < j <= |text| && |trace| == |text| + 1
    && trace[i].Some?
    && StepOk(text, i, trace[i].value.mode, (j, m))
    && trace[j] == Some(Arrive(trace[i].value, m))
    && forall q :: i < q < j ==> trace[q].None?
  }

  lemma {:induction false} TraceStarts(text: string, step: Scanner, trace: Trace)
    requires IsTrace(text, step, trace)
    ensures trace[0] == Some(START)
  {
    assert Visit(text, step, 0, START, 0) == Some(START);
  }

  lemma {:induction false} TraceContinues(text: string, step: Scanner, trace: Trace, i: nat)
    requires IsTrace(text, step, trace) && i < |text| && trace[i].Some?
    ensures trace[i].value.mode.Ok()
    ensures var (j, m) := step(LineNumber(text, i), i, trace[i].value.mode);
      StopsNext(text, trace, i, j, m)
  {
    assert trace[i] == Visit(text, step, 0, START, i);
    VisitNext(text, step, 0, START, i);
    var (j, m) := step(LineNumber(text, i), i, trace[i].value.mode);
    assert trace[j] == Visit(text, step, 0, START, j);
    forall q | i < q < j
      ensures trace[q].None?
    {
      assert trace[q] == Visit(text, step, 0, START, q);
    }
  }

  // ----- What an entry means -----

  /**
    The entry of the line that starts at `s`: present exactly when the line begins inside a
    literal; the whole line when a literal is open at its end, and otherwise the offset at
    which the scanner left a literal for the last time on the line.
   */
  ghost predicate EntryOk(text: string, trace: Trace, s: nat, entry: Option<nat>)
    requires s <= |text|
  {
    var e := LineEnd(text, s);
    && (entry.Some? <==> InLiteral(trace, s))
    && (entry.Some? ==>
      && entry.value <= LineLength(text, s)
      && if InLiteral(trace, e) then entry.value == LineLength(text, s)
         else LeavesLast(trace, s + entry.value, e))
  }

  /** The scan has read `text[s..i]` of a line; `close` is where it last left a literal on it. */
  ghost predicate LineProgress(text: string, trace: Trace, s: nat, i: nat, close: Option<nat>) {
    && s <= i <= |text| && |trace| == |text| + 1
    && (forall j :: s <= j < i ==> text[j] != '\n')
    && trace[i].Some?
    && (forall q :: s < q <= i && LeavesLiteral(trace, q) ==> close.Some? && q <= close.value)
    && (close.Some? ==> s < close.value <= i && LeavesLiteral(trace, close.value) && text[close.value - 1] in "'\"`$")
    && (InLiteral(trace, s) && !InLiteral(trace, i) ==> close.Some?)
  }

  lemma {:induction false} LineProgressStep(text: string, trace: Trace, s: nat, i: nat, close: Option<nat>, j: nat, m: Mode)
    requires LineProgress(text, trace, s, i, close) && i < |text| && text[i] != '\n'
    requires StopsNext(text, trace, i, j, m)
    ensures LineProgress(text, trace, s, j, if LeavesLiteral(trace, j) then Some(j) else close)
  {
    assert forall q :: i < q < j ==> !LeavesLiteral(trace, q);
  }

  lemma {:induction false} LineEndIs(text: string, s: nat, e: nat)
    requires s <= e <= |text| && (forall j :: s <= j < e ==> text[j] != '\n') && (e < |text| ==> text[e] == '\n')
    ensures LineEnd(text, s) == e
    decreases e - s
  {
    if s < e {
      LineEndIs(text, s + 1, e);
    }
  }

  /** At the end of a line, the recorded offset is the right entry. */
  lemma {:induction false} LineProgressEnds(text: string, trace: Trace, s: nat, e: nat, close: Option<nat>)
    requires LineProgress(text, trace, s, e, close) && (e < |text| ==> text[e] == '\n')
    ensures EntryOk(text, trace, s,
      if !InLiteral(trace, s) then None
      else if InLiteral(trace, e) then Some(LineLength(text, s))
      else Some(close.value - s))
    ensures LineEnd(text, s) == e
  {
    LineEndIs(text, s, e);
  }

  // ----- The loop -----

  /** The loop's variables. */
  datatype Cursor = Cursor(i: nat, mode: Mode, line: nat, lineStart: nat, startsInLiteral: bool)

  type Entries = seq<Option<nat>>

  /** Where the loop is. */
  ghost predicate PlaceOk(text: string, trace: Trace, c: Cursor, close: Option<nat>) {
    && LineProgress(text, trace, c.lineStart, c.i, close)
    && trace[c.i].value.mode == c.mode
    && c.line == LineNumber(text, c.i)
    && c.lineStart == LineStart(text, c.line)
    && (c.lineStart > 0 ==> text[c.lineStart - 1] == '\n')
    && c.startsInLiteral == InLiteral(trace, c.lineStart)
  }

  /** Everything the loop keeps: finished entries are right, the current one records the last close so far. */
  ghost predicate CursorOk(text: string, trace: Trace, c: Cursor, close: Option<nat>, entries: Entries) {
    && PlaceOk(text, trace, c, close)
    && EntriesOk(text, trace, c.line, entries)
    && (c.line < |entries| ==>
      entries[c.line] == if c.startsInLiteral && close.Some? then Some(close.value - c.lineStart) else None)
  }

  /** Entries before `line` are final, entries after it are untouched. */
  ghost predicate EntriesOk(text: string, trace: Trace, line: nat, entries: Entries) {
    && line <= |Lines(text)| <= |entries|
    && (forall n {:trigger entries[n]} :: 0 <= n < line && n < |Lines(text)| ==> EntryOk(text, trace, LineStart(text, n), entries[n]))
    && (forall n :: line < n < |entries| ==> entries[n].None?)
  }

  function WithEntry(entries: Entries, line: nat, when: bool, value: nat): Entries {
    if when && line < |entries| then entries[line := Some(value)] else entries
  }

  lemma {:induction false} PlaceAfterNewline(text: string, trace: Trace, c: Cursor, close: Option<nat>, m: Mode)
    requires PlaceOk(text, trace, c, close)
    requires c.i < |text| && text[c.i] == '\n' && StopsNext(text, trace, c.i, c.i + 1, m)
    ensures PlaceOk(text, trace, Cursor(c.i + 1, m, c.line + 1, c.i + 1, c.mode.IsLiteral()), None)
  {
    LineEndIs(text, c.lineStart, c.i);
  }

  lemma {:induction false} NewlineKeepsCursorOk(
    text: string, trace: Trace, c: Cursor, close: Option<nat>, entries: Entries, m: Mode)
    requires CursorOk(text, trace, c, close, entries)
    requires c.i < |text| && text[c.i] == '\n' && StopsNext(text, trace, c.i, c.i + 1, m)
    ensures CursorOk(text, trace, Cursor(c.i + 1, m, c.line + 1, c.i + 1, c.mode.IsLiteral()), None,
                     WithEntry(entries, c.line, c.mode.IsLiteral() && c.startsInLiteral, LineLength(text, c.lineStart)))
  {
    PlaceAfterNewline(text, trace, c, close, m);
    LineAt(text, c.line);
    var entries' := WithEntry(entries, c.line, c.mode.IsLiteral() && c.startsInLiteral, LineLength(text, c.lineStart));
    EntryAtNewline(text, trace, c, close, entries);
    EntriesGrow(text, trace, c.line, entries, entries');
  }

  lemma {:induction false} EntryAtNewline(text: string, trace: Trace, c: Cursor, close: Option<nat>, entries: Entries)
    requires CursorOk(text, trace, c, close, entries) && c.i < |text| && text[c.i] == '\n' && c.line < |entries|
    ensures EntryOk(text, trace, c.lineStart,
      WithEntry(entries, c.line, c.mode.IsLiteral() && c.startsInLiteral, LineLength(text, c.lineStart))[c.line])
  {
    LineProgressEnds(text, trace, c.lineStart, c.i, close);
  }

  /** The entry of one more line is final. */
  lemma {:induction false} EntriesGrow(text: string, trace: Trace, line: nat, entries: Entries, entries': Entries)
    requires EntriesOk(text, trace, line, entries) && line < |Lines(text)| && |entries'| == |entries|
    requires forall n :: 0 <= n < |entries| && n != line ==> entries'[n] == entries[n]
    requires EntryOk(text, trace, LineStart(text, line), entries'[line])
    ensures EntriesOk(text, trace, line + 1, entries') && (line + 1 < |entries'| ==> entries'[line + 1].None?)
  {
  }

  lemma {:induction false} InnerStepKeepsCursorOk(
    text: string, trace: Trace, c: Cursor, close: Option<nat>, entries: Entries, j: nat, m: Mode)
    requires CursorOk(text, trace, c, close, entries)
    requires c.i < |text| && text[c.i] != '\n' && StopsNext(text, trace, c.i, j, m)
    ensures var left := c.mode.IsLiteral() && !m.IsLiteral();
      CursorOk(text, trace, c.(i := j, mode := m), if left then Some(j) else close,
               WithEntry(entries, c.line, left && c.startsInLiteral, j - c.lineStart))
  {
    var left := c.mode.IsLiteral() && !m.IsLiteral();
    PlaceAfterStep(text, trace, c, close, j, m);
    EntriesKept(text, trace, c.line, entries, WithEntry(entries, c.line, left && c.startsInLiteral, j - c.lineStart));
  }

  /** Only finished entries matter. */
  lemma {:induction false} EntriesKept(text: string, trace: Trace, line: nat, entries: Entries, entries': Entries)
    requires EntriesOk(text, trace, line, entries) && |entries'| == |entries|
    requires forall n :: 0 <= n < |entries| && n != line ==> entries'[n] == entries[n]
    ensures EntriesOk(text, trace, line, entries')
  {
    forall n | 0 <= n < line && n < |Lines(text)|
      ensures EntryOk(text, trace, LineStart(text, n), entries'[n])
    {
      assert entries'[n] == entries[n];
    }
  }

  lemma {:induction false} PlaceAfterStep(text: string, trace: Trace, c: Cursor, close: Option<nat>, j: nat, m: Mode)
    requires PlaceOk(text, trace, c, close)
    requires c.i < |text| && text[c.i] != '\n' && StopsNext(text, trace, c.i, j, m)
    ensures PlaceOk(text, trace, c.(i := j, mode := m), if c.mode.IsLiteral() && !m.IsLiteral() then Some(j) else close)
  {
    LineProgressStep(text, trace, c.lineStart, c.i, close, j, m);
    LineNumberWithin(text, c.i, j);
  }

  /** The entry of every line is right, and there is none beyond the last line. */
  ghost predicate AllEntriesOk(text: string, trace: Trace, entries: Entries) {
    forall n :: 0 <= n < |entries| ==>
      if n < |Lines(text)| then EntryOk(text, trace, LineStart(text, n), entries[n]) else entries[n].None?
  }

  /** At the end of the text the current line is the last one, or past it when that ended in a newline. */
  lemma {:induction false} LastLine(text: string, trace: Trace, c: Cursor, close: Option<nat>)
    requires c.i == |text| && PlaceOk(text, trace, c, close)
    ensures |Lines(text)| <= c.line + 1
    ensures c.line >= |Lines(text)| <==> c.lineStart == |text|
    ensures c.lineStart == |text| <==> text == "" || text[|text| - 1] == '\n'
  {
    LineEndIs(text, c.lineStart, |text|);
    LineAt(text, c.line);
    LineAt(text, c.line + 1);
  }

  /** The last entry is out of range exactly when the count is not safe. */
  lemma {:induction false} SafeAtTheEnd(text: string, trace: Trace, c: Cursor, close: Option<nat>, entries: Entries)
    requires c.i == |text| && CursorOk(text, trace, c, close, entries) && entries != [] && trace[0] == Some(START)
    ensures CountIsSafe(text, trace, |entries|) <==>
      (c.mode.IsLiteral() && c.startsInLiteral && c.line < |entries| ==> c.line < |Lines(text)|)
  {
    LastLine(text, trace, c, close);
  }

  lemma {:induction false} EndOfTextIsOk(text: string, trace: Trace, c: Cursor, close: Option<nat>, entries: Entries)
    requires c.i == |text| && CursorOk(text, trace, c, close, entries)
    requires c.mode.IsLiteral() && c.startsInLiteral && c.line < |entries| ==> c.line < |Lines(text)|
    ensures AllEntriesOk(text, trace, WithEntry(entries, c.line, c.mode.IsLiteral() && c.startsInLiteral, LineLength(text, c.lineStart)))
  {
    LastLine(text, trace, c, close);
    LineProgressEnds(text, trace, c.lineStart, |text|, close);
  }

  /** One turn of the loop at a newline. */
  method NewlineTurn(
    text: string, lines: seq<string>, c: Cursor, m: Mode, entries: Entries, ghost trace: Trace, ghost close: Option<nat>)
    returns (c': Cursor, entries': Entries)
    requires lines == Lines(text) && CursorOk(text, trace, c, close, entries)
    requires c.i < |text| && text[c.i] == '\n' && StopsNext(text, trace, c.i, c.i + 1, m)
    ensures c' == Cursor(c.i + 1, m, c.line + 1, c.i + 1, c.mode.IsLiteral()) && |entries'| == |entries|
    ensures CursorOk(text, trace, c', None, entries')
  {
    LineAt(text, c.line);
    NewlineKeepsCursorOk(text, trace, c, close, entries, m);
    entries' := entries;
    if c.mode.IsLiteral() && c.startsInLiteral && c.line < |entries| {
      entries' := entries[c.line := Some(|lines[c.line]|)];
    }
    c' := Cursor(c.i + 1, m, c.line + 1, c.i + 1, c.mode.IsLiteral());
  }

  /** One turn of the loop anywhere else. */
  method InnerTurn(text: string, c: Cursor, next: nat, m: Mode, entries: Entries, ghost trace: Trace, ghost close: Option<nat>)
    returns (c': Cursor, entries': Entries, ghost close': Option<nat>)
    requires CursorOk(text, trace, c, close, entries)
    requires c.i < |text| && text[c.i] != '\n' && StopsNext(text, trace, c.i, next, m)
    ensures c' == c.(i := next, mode := m) && |entries'| == |entries|
    ensures CursorOk(text, trace, c', close', entries')
  {
    InnerStepKeepsCursorOk(text, trace, c, close, entries, next, m);
    entries', close' := entries, close;
    if c.mode.IsLiteral() && !m.IsLiteral() {
      close' := Some(next);
      if c.startsInLiteral && c.line < |entries| {
        entries' := entries[c.line := Some(next - c.lineStart)];
      }
    }
    c' := c.(i := next, mode := m);
  }

  /** The line counts with which no index goes out of range. */
  ghost predicate CountIsSafe(text: string, trace: Trace, lineCount: nat) {
    || lineCount == 0
    || lineCount == |Lines(text)|
    || (lineCount > |Lines(text)| && !(text != "" && text[|text| - 1] == '\n' && InLiteral(trace, |text|)))
  }

  /** The loop over the whole text, from entries that are all empty. */
  method ScanText(text: string, step: Scanner, lines: seq<string>, entries: Entries, ghost trace: Trace)
    returns (c: Cursor, prefixLengths: Entries, ghost close: Option<nat>)
    requires IsTrace(text, step, trace) && lines == Lines(text) && |lines| <= |entries|
    requires forall n :: 0 <= n < |entries| ==> entries[n].None?
    ensures c.i == |text| && |prefixLengths| == |entries| && CursorOk(text, trace, c, close, prefixLengths)
  {
    c, prefixLengths, close := Cursor(0, Plain, 0, 0, false), entries, None;
    TraceStarts(text, step, trace);
    while c.i < |text|
      invariant c.i <= |text| && |prefixLengths| == |entries| && CursorOk(text, trace, c, close, prefixLengths)
      decreases |text| - c.i
    {
      TraceContinues(text, step, trace, c.i);
      var (next, m) := step(c.line, c.i, c.mode);
      if text[c.i] == '\n' {
        c, prefixLengths := NewlineTurn(text, lines, c, m, prefixLengths, trace, close);
        close := None;
      } else {
        c, prefixLengths, close := InnerTurn(text, c, next, m, prefixLengths, trace, close);
      }
    }
  }

  /** Nothing stands for an index out of range, which ends the program. */
  method ScanLines(text: string, step: Scanner, lineCount: nat, ghost trace: Trace) returns (r: Option<Entries>)
    requires IsTrace(text, step, trace)
    ensures r.Some? <==> CountIsSafe(text, trace, lineCount)
    ensures r.Some? ==> |r.value| == lineCount && AllEntriesOk(text, trace, r.value)
  {
    var prefixLengths: Entries := seq(lineCount, _ => None);
    if lineCount == 0 {
      return Some(prefixLengths);
    }
    var lines := Lines(text);
    // The table of active delimiters has one slot per counted line and is filled for every line.
    if lineCount < |lines| {
      return None;
    }
    TraceStarts(text, step, trace);
    var c: Cursor;
    ghost var close;
    c, prefixLengths, close := ScanText(text, step, lines, prefixLengths, trace);
    SafeAtTheEnd(text, trace, c, close, prefixLengths);
    LineAt(text, c.line);
    if c.mode.IsLiteral() && c.startsInLiteral && c.line < lineCount {
      if c.line >= |lines| {
        return None;
      }
      EndOfTextIsOk(text, trace, c, close, prefixLengths);
      return Some(prefixLengths[c.line := Some(|lines[c.line]|)]);
    }
    EndOfTextIsOk(text, trace, c, close, prefixLengths);
    r := Some(prefixLengths);
  }

  // ----- When the documented reading of an entry holds -----

  /** The scanner stops at the end of the line, and a literal seen before it is open there or was left on the way. */
  lemma {:induction false} LiteralLeftOrOpen(text: string, step: Scanner, trace: Trace, i: nat, e: nat)
    requires IsTrace(text, step, trace) && i <= e <= |text| && trace[i].Some?
    requires (forall j :: i <= j < e ==> text[j] != '\n') && (e < |text| ==> text[e] == '\n')
    ensures trace[e].Some?
    ensures InLiteral(trace, i) && !InLiteral(trace, e) ==> exists r :: i < r <= e && LeavesLiteral(trace, r)
    decreases e - i
  {
    if i < e {
      TraceContinues(text, step, trace, i);
      var (j, m) := step(LineNumber(text, i), i, trace[i].value.mode);
      LiteralLeftOrOpen(text, step, trace, j, e);
      if InLiteral(trace, i) && !InLiteral(trace, j) {
        assert LeavesLiteral(trace, j);
      }
    }
  }

  /** Every line start is a byte at which the scanner stops, so its mode there is always known. */
  lemma {:induction false} ScannerStopsAtLineStarts(text: string, step: Scanner, trace: Trace, line: nat)
    requires IsTrace(text, step, trace)
    ensures trace[LineStart(text, line)].Some?
  {
    if line == 0 {
      TraceStarts(text, step, trace);
    } else {
      ScannerStopsAtLineStarts(text, step, trace, line - 1);
      var s := LineStart(text, line - 1);
      var e := LineEnd(text, s);
      LiteralLeftOrOpen(text, step, trace, s, e);
      if e < |text| {
        TraceContinues(text, step, trace, e);
      }
    }
  }

  /** Whoever leaves a literal at `r` was inside it at a stop since `q`. */
  lemma {:induction false} LeavingStartsInside(text: string, step: Scanner, trace: Trace, q: nat, r: nat)
    requires IsTrace(text, step, trace) && q < r <= |text| && trace[q].Some? && LeavesLiteral(trace, r)
    ensures exists p :: q <= p < r && InLiteral(trace, p)
    decreases r - q
  {
    TraceContinues(text, step, trace, q);
    var (j, m) := step(LineNumber(text, q), q, trace[q].value.mode);
    if j < r {
      LeavingStartsInside(text, step, trace, j, r);
    } else {
      assert InLiteral(trace, q);
    }
  }

  /**
    The comment on the source function reads the entry as the end of the literal that the
    line starts in.  With `q` that end, this is so if and only if no literal is entered on
    the rest of the line; otherwise a later literal overwrites the entry.
   */
  lemma {:induction false} EntryIsFirstCloseIff(text: string, step: Scanner, trace: Trace, s: nat, q: nat, entry: Option<nat>)
    requires IsTrace(text, step, trace) && s <= |text| && s < q <= LineEnd(text, s)
    requires InLiteral(trace, s) && LeavesLiteral(trace, q)
    requires EntryOk(text, trace, s, entry)
    ensures entry == Some(q - s) <==> forall p :: q <= p <= LineEnd(text, s) ==> !InLiteral(trace, p)
  {
    var e := LineEnd(text, s);
    LiteralLeftOrOpen(text, step, trace, q, e);
    if forall p :: q <= p <= e ==> !InLiteral(trace, p) {
      var k := s + entry.value;
      if k > q {
        LeavingStartsInside(text, step, trace, q, k);
      }
    } else {
      var p :| q <= p <= e && InLiteral(trace, p);
      LiteralLeftOrOpen(text, step, trace, p, e);
      if q < e {
        TraceContinues(text, step, trace, q);
      }
    }
  }
}
