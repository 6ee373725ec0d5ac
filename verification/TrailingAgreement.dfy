/**
  The backward fast path against the forward tokenizer (src/sql_text.rs): which
  lines make them return the same trailing words, and what they always agree on.
 */
module TrailingAgreement {
  import opened Prelude
  import opened SqlBytes
  import opened TrailingIdentifiers

  /** A run of identifier bytes such as `1e5`: it starts with a digit and holds a byte that could start a word. */
  predicate DigitLedWord(b: string, s: nat) {
    && s < |b|
    && IsAsciiDigit(b[s])
    && (s == 0 || !IsIdentifierByte(b[s - 1]))
    && exists j :: s <= j < RunEnd(b, s) && IsIdentifierStartByte(b[j])
  }

  ghost predicate NoDigitLedWordFrom(b: string, i: nat) {
    forall s :: s >= i ==> !DigitLedWord(b, s)
  }

  /** `i` does not split a run of identifier bytes. */
  predicate RunBoundary(b: string, i: nat) {
    i <= |b| && (i == 0 || i == |b| || !IsIdentifierByte(b[i - 1]) || !IsIdentifierByte(b[i]))
  }

  /** The whole runs from `i` on that start like an identifier, read forward. */
  function RunWords(b: string, i: nat): seq<string>
    requires i <= |b|
    decreases |b| - i
  {
    if i == |b| then []
    else if IsIdentifierByte(b[i]) then WordBefore(b, i, RunEnd(b, i)) + RunWords(b, RunEnd(b, i))
    else RunWords(b, i + 1)
  }

  lemma {:induction false} RunStartIs(b: string, start: nat, end: nat)
    requires start <= end <= |b| && (start == 0 || !IsIdentifierByte(b[start - 1]))
    requires forall j :: start <= j < end ==> IsIdentifierByte(b[j])
    ensures RunStart(b, end) == start
  {
    if start < end {
      RunStartIs(b, start, end - 1);
    }
  }

  lemma {:induction false} BackwardOverRun(b: string, i: nat, end: nat)
    requires RunBoundary(b, i) && i < |b| && IsIdentifierByte(b[i]) && end == RunEnd(b, i)
    ensures RunBoundary(b, end) && BackwardWords(b, end) == BackwardWords(b, i) + WordBefore(b, i, end)
  {
    RunStartIs(b, i, end);
  }

  /** Scanning backward from the end meets the same runs as scanning forward from any boundary. */
  lemma {:induction false} BackwardMeetsForward(b: string, i: nat)
    requires RunBoundary(b, i)
    ensures BackwardWords(b, |b|) == BackwardWords(b, i) + RunWords(b, i)
    decreases |b| - i
  {
    if i < |b| {
      if IsIdentifierByte(b[i]) {
        var end := RunEnd(b, i);
        BackwardOverRun(b, i, end);
        BackwardMeetsForward(b, end);
        Regroup(BackwardWords(b, i), WordBefore(b, i, end), RunWords(b, end));
      } else {
        BackwardMeetsForward(b, i + 1);
      }
    }
  }

  function ForwardWords(b: string, i: nat): seq<string>
    requires i <= |b|
  {
    Words(b, Items(b, i, Plain))
  }

  /** On a safe line the forward scan only skips whitespace, emits words and emits single bytes. */
  lemma {:induction false} SafeMove(b: string, i: nat)
    requires FastPathSafe(b) && i < |b|
    ensures ForwardMove(b, i, Plain)
      == if IsAsciiWhitespace(b[i]) then Skip(i + 1, Plain)
         else if IsIdentifierStartByte(b[i]) then Emit(WordAt(i, RunEnd(b, i + 1)))
         else Emit(ByteAt(i))
  {
  }

  lemma {:induction false} SafeStep(b: string, i: nat)
    requires FastPathSafe(b) && i < |b|
    ensures ForwardWords(b, i)
      == if IsIdentifierStartByte(b[i]) then [b[i..RunEnd(b, i)]] + ForwardWords(b, RunEnd(b, i)) else ForwardWords(b, i + 1)
  {
    SafeMove(b, i);
    if !IsAsciiWhitespace(b[i]) {
      var items := Items(b, i, Plain);
      assert items[1..] == Items(b, items[0].End(), Plain);
    }
  }

  /** Inside a run, the forward scan yields one word if some byte left can start one, and nothing otherwise. */
  lemma {:induction false} ForwardThroughRun(b: string, i: nat, end: nat)
    requires FastPathSafe(b) && i <= end <= |b| && RunEnd(b, i) == end
    ensures if exists j :: i <= j < end && IsIdentifierStartByte(b[j])
      then |ForwardWords(b, i)| == 1 + |ForwardWords(b, end)|
      else ForwardWords(b, i) == ForwardWords(b, end)
    decreases end - i
  {
    if i < end {
      SafeStep(b, i);
      if !IsIdentifierStartByte(b[i]) {
        ForwardThroughRun(b, i + 1, end);
      }
    }
  }

  /** The forward scan finds the same words plus one more per digit-led word. */
  lemma {:induction false} ForwardAgainstRuns(b: string, i: nat)
    requires FastPathSafe(b) && RunBoundary(b, i)
    ensures NoDigitLedWordFrom(b, i) ==> ForwardWords(b, i) == RunWords(b, i)
    ensures !NoDigitLedWordFrom(b, i) ==> |ForwardWords(b, i)| > |RunWords(b, i)|
    decreases |b| - i
  {
    if i == |b| {
    } else if !IsIdentifierByte(b[i]) {
      SafeStep(b, i);
      ForwardAgainstRuns(b, i + 1);
      assert NoDigitLedWordFrom(b, i) <==> NoDigitLedWordFrom(b, i + 1);
    } else {
      var end := RunEnd(b, i);
      ForwardAgainstRuns(b, end);
      DigitLedOnlyAtRunStart(b, i);
      if IsIdentifierStartByte(b[i]) {
        SafeStep(b, i);
      } else {
        ForwardThroughRun(b, i, end);
      }
    }
  }

  lemma {:induction false} DigitLedOnlyAtRunStart(b: string, i: nat)
    requires i < |b| && RunBoundary(b, i) && IsIdentifierByte(b[i])
    ensures NoDigitLedWordFrom(b, i) <==> !DigitLedWord(b, i) && NoDigitLedWordFrom(b, RunEnd(b, i))
    ensures DigitLedWord(b, i) <==>
      !IsIdentifierStartByte(b[i]) && exists j :: i <= j < RunEnd(b, i) && IsIdentifierStartByte(b[j])
  {
    forall s | i < s < RunEnd(b, i)
      ensures !DigitLedWord(b, s)
    {
      assert IsIdentifierByte(b[s - 1]);
    }
  }

  /**
    The trailing scan returns exactly the last k words of the full tokenization, for every
    k, if and only if it took the slow path or the line holds no digit-led word.
   */
  lemma {:induction false} TrailingWordsAgreeIff(line: string)
    ensures (forall k: nat :: TrailingWords(line, k) == LastN(AllWords(line), k)) <==>
      (!FastPathSafe(line) || NoDigitLedWordFrom(line, 0))
  {
    if FastPathSafe(line) {
      BackwardMeetsForward(line, 0);
      assert BackwardWords(line, 0) + RunWords(line, 0) == RunWords(line, 0);
      ForwardAgainstRuns(line, 0);
      if !NoDigitLedWordFrom(line, 0) {
        var k := |AllWords(line)|;
        assert |TrailingWords(line, k)| < |LastN(AllWords(line), k)|;
      }
    }
  }

  lemma {:induction false} DigitLedBackward()
    ensures BackwardWords("1e5", 3) == []
  {
    var b := "1e5";
    assert RunStart(b, 0) == 0 && RunStart(b, 1) == 0 && RunStart(b, 2) == 0 && RunStart(b, 3) == 0;
  }

  lemma {:induction false} DigitLedForward()
    ensures ForwardWords("1e5", 0) == ["e5"]
  {
    var b := "1e5";
    SafeStep(b, 0);
    SafeStep(b, 1);
    assert RunEnd(b, 3) == 3 && RunEnd(b, 2) == 3 && RunEnd(b, 1) == 3;
    assert b[1..3] == "e5";
    assert ForwardWords(b, 3) == [];
    assert ["e5"] + [] == ["e5"];
  }

  /** A line on which they differ: the fast path drops all of `1e5`, the tokenizer keeps `e5`. */
  lemma {:induction false} DigitLedWordIsDropped()
    ensures TrailingWords("1e5", 1) == [] && LastN(AllWords("1e5"), 1) == ["e5"]
  {
    DigitLedBackward();
    DigitLedForward();
  }

  // ----- The last significant byte -----

  lemma {:induction false} SafeItems(b: string, i: nat)
    requires FastPathSafe(b) && i < |b| && !IsAsciiWhitespace(b[i])
    ensures var items := Items(b, i, Plain);
      && items != [] && items[1..] == Items(b, items[0].End(), Plain)
      && i < items[0].End() <= |b| && !IsAsciiWhitespace(b[items[0].End() - 1])
      && (if items[0].WordAt? then IsIdentifierByte(b[items[0].End() - 1]) else items[0].pos == i)
  {
    SafeMove(b, i);
    var items := Items(b, i, Plain);
    assert items == [items[0]] + Items(b, items[0].End(), Plain);
  }

  /** What follows byte `i` ends at `end`: with the last item, or in front of `i` if there is none. */
  predicate ItemsEndAt(b: string, i: nat, items: seq<Item>, end: nat) {
    if items == [] then end <= i
    else
      var last := items[|items| - 1];
      last.End() == end && (last.WordAt? ==> 0 < end <= |b| && IsIdentifierByte(b[end - 1]))
  }

  lemma {:induction false} ItemsEndLater(b: string, i: nat, items: seq<Item>, end: nat)
    requires items != [] && ItemsEndAt(b, items[0].End(), items[1..], end) && items[0].End() <= end
    requires items[0].WordAt? ==> 0 < items[0].End() <= |b| && IsIdentifierByte(b[items[0].End() - 1])
    ensures ItemsEndAt(b, i, items, end)
  {
    if |items| > 1 {
      assert items[|items| - 1] == items[1..][|items| - 2];
    }
  }

  /** The last item of a safe line ends where its trailing whitespace starts. */
  lemma {:induction false} LastItemEndsTheLine(b: string, i: nat)
    requires FastPathSafe(b) && i <= |b|
    ensures ItemsEndAt(b, i, Items(b, i, Plain), TrimmedEnd(b, |b|))
    decreases |b| - i
  {
    if i < |b| {
      if IsAsciiWhitespace(b[i]) {
        SafeMove(b, i);
        LastItemEndsTheLine(b, i + 1);
      } else {
        SafeItems(b, i);
        var items := Items(b, i, Plain);
        LastItemEndsTheLine(b, items[0].End());
        ItemsEndLater(b, i, items, TrimmedEnd(b, |b|));
      }
    }
  }

  /**
    On every line the two paths agree on the last significant byte up to which identifier
    byte it is: both report none, the same other byte, or both some identifier byte.
   */
  lemma {:induction false} LastByteAgrees(line: string, c: char)
    ensures TrailingByte(line).None? <==> ForwardLastByte(line).None?
    ensures !IsIdentifierByte(c) ==> (TrailingByte(line) == Some(c) <==> ForwardLastByte(line) == Some(c))
  {
    if FastPathSafe(line) {
      LastItemEndsTheLine(line, 0);
    }
  }
}
