/**
  What boundaries and line-start snapshots promise (src/sql_delimiter.rs),
  over every text: a boundary reports exactly the closing of its own frame,
  and replaying one line from a snapshot refines replaying the whole text.
 */
module DelimiterTheorems {
  import opened Prelude
  import opened DelimiterFrames

  // ----- Boundaries -----

  /** At some moment while `text` was fed, the stack was shorter than `depth`. */
  ghost predicate WasBelow(f: Frames, text: string, depth: nat) {
    exists k :: 0 <= k <= |text| && |RunStrict(f, text[..k]).stack| < depth
  }

  /** How many closes of `text` left exactly `depth` frames open. */
  function Landings(f: Frames, text: string, depth: nat): nat {
    if text == "" then 0
    else
      var n := |text| - 1;
      var before := RunStrict(f, text[..n]).stack;
      Landings(f, text[..n], depth) + if ClosesStrict(before, text[n]) && |before| - 1 == depth then 1 else 0
  }

  lemma {:induction false} OneMore(f: Frames, text: string, c: char, depth: nat)
    ensures RunStrict(f, text + [c]) == StepStrict(RunStrict(f, text), c)
    ensures var before := RunStrict(f, text).stack;
      Landings(f, text + [c], depth) == Landings(f, text, depth) + if ClosesStrict(before, c) && |before| - 1 == depth then 1 else 0
  {
    assert (text + [c])[..|text|] == text;
  }

  /** How many characters of `text` closed a frame at all. */
  function CloseCount(f: Frames, text: string): nat {
    if text == "" then 0
    else
      var n := |text| - 1;
      CloseCount(f, text[..n]) + if ClosesStrict(RunStrict(f, text[..n]).stack, text[n]) then 1 else 0
  }

  lemma {:induction false} LandingsAtMostCloses(f: Frames, text: string, depth: nat)
    ensures Landings(f, text, depth) <= CloseCount(f, text)
  {
    if text != "" {
      LandingsAtMostCloses(f, text[..|text| - 1], depth);
    }
  }

  /** Every counter is its old value plus the closes that landed on its depth, modulo 2^64. */
  lemma {:induction false} GenerationsCountLandings(f: Frames, text: string, depth: nat)
    requires f.generations.Some?
    ensures RunStrict(f, text).generations.Some?
    ensures GenerationAt(RunStrict(f, text).generations, depth)
      == (GenerationAt(f.generations, depth) + Landings(f, text, depth)) % U64_MODULUS
  {
    if text != "" {
      var n := |text| - 1;
      GenerationsCountLandings(f, text[..n], depth);
      AddModulo(GenerationAt(f.generations, depth) + Landings(f, text[..n], depth));
    }
  }

  lemma {:induction false} AddModulo(n: nat)
    ensures (n % U64_MODULUS + 1) % U64_MODULUS == (n + 1) % U64_MODULUS
  {
  }

  /** The stack can only get below its starting depth through a close that lands one below it. */
  lemma {:induction false} WasBelowIffLanded(f: Frames, text: string, depth: nat)
    requires 0 < depth <= |f.stack|
    ensures WasBelow(f, text, depth) <==> Landings(f, text, depth - 1) > 0
  {
    if text == "" {
      assert text[..0] == text;
    } else {
      var n := |text| - 1;
      WasBelowIffLanded(f, text[..n], depth);
      WasBelowGrows(f, text, depth);
      if !WasBelow(f, text[..n], depth) {
        assert text[..n][..n] == text[..n];
      }
    }
  }

  lemma {:induction false} WasBelowGrows(f: Frames, text: string, depth: nat)
    requires text != ""
    ensures WasBelow(f, text, depth) <==>
      WasBelow(f, text[..|text| - 1], depth) || |RunStrict(f, text).stack| < depth
  {
    var n := |text| - 1;
    assert text[..n + 1] == text;
    forall k | 0 <= k <= n
      ensures text[..n][..k] == text[..k]
    {
    }
    if WasBelow(f, text, depth) && |RunStrict(f, text).stack| >= depth {
      var k :| 0 <= k <= |text| && |RunStrict(f, text[..k]).stack| < depth;
      assert text[..n][..k] == text[..k];
    }
    if WasBelow(f, text[..n], depth) {
      var k :| 0 <= k <= n && |RunStrict(f, text[..n][..k]).stack| < depth;
      assert text[..n][..k] == text[..k];
    }
  }

  /** The exact answer of a boundary, with the counter's wrap-around written out. */
  lemma {:induction false} BoundaryAnswer(f: Frames, text: string)
    requires f.generations.Some?
    ensures HasClosedBelow(RunStrict(f, text), BoundaryOf(f)) <==>
      |f.stack| > 0 && Landings(f, text, |f.stack| - 1) % U64_MODULUS != 0
  {
    if |f.stack| > 0 {
      var depth := |f.stack| - 1;
      GenerationsCountLandings(f, text, depth);
      SameResidue(GenerationAt(f.generations, depth), Landings(f, text, depth));
    }
  }

  lemma {:induction false} SameResidue(g: u64, n: nat)
    ensures (g + n) % U64_MODULUS == g <==> n % U64_MODULUS == 0
  {
  }

  lemma {:induction false} SmallResidue(n: nat)
    requires n < U64_MODULUS
    ensures n % U64_MODULUS == n
  {
  }

  /** A boundary is right exactly when its counter did not come full circle. */
  lemma {:induction false} BoundaryIsExactIff(f: Frames, text: string)
    requires f.generations.Some?
    ensures (HasClosedBelow(RunStrict(f, text), BoundaryOf(f)) <==> WasBelow(f, text, |f.stack|)) <==>
      (|f.stack| == 0 || Landings(f, text, |f.stack| - 1) == 0 || Landings(f, text, |f.stack| - 1) % U64_MODULUS != 0)
  {
    BoundaryAnswer(f, text);
    if |f.stack| > 0 {
      WasBelowIffLanded(f, text, |f.stack|);
    }
  }

  /** With fewer than 2^64 closes since, a boundary reports exactly the moments below its depth. */
  lemma {:induction false} BoundaryDetectsClosing(f: Frames, text: string)
    requires f.generations.Some?
    requires CloseCount(f, text) < U64_MODULUS
    ensures HasClosedBelow(RunStrict(f, text), BoundaryOf(f)) <==> WasBelow(f, text, |f.stack|)
  {
    BoundaryAnswer(f, text);
    if |f.stack| > 0 {
      var n := Landings(f, text, |f.stack| - 1);
      LandingsAtMostCloses(f, text, |f.stack| - 1);
      WasBelowIffLanded(f, text, |f.stack|);
      assert n % U64_MODULUS == 0 <==> n == 0 by { SmallResidue(n); }
    }
  }

  function CloseAndReopen(n: nat): string {
    if n == 0 then "" else CloseAndReopen(n - 1) + ")("
  }

  lemma {:induction false} CloseAndReopenOnce(f: Frames, text: string)
    requires f.stack != [] && f.stack[|f.stack| - 1] == Paren && RunStrict(f, text).stack == f.stack
    ensures Landings(f, text + ")(", |f.stack| - 1) == Landings(f, text, |f.stack| - 1) + 1
    ensures RunStrict(f, text + ")(").stack == f.stack
  {
    OneMore(f, text, ')', |f.stack| - 1);
    OneMore(f, text + ")", '(', |f.stack| - 1);
    assert text + ")(" == text + ")" + "(";
  }

  lemma {:induction false} CloseAndReopenLandings(f: Frames, n: nat)
    requires f.stack != [] && f.stack[|f.stack| - 1] == Paren
    ensures Landings(f, CloseAndReopen(n), |f.stack| - 1) == n
    ensures RunStrict(f, CloseAndReopen(n)).stack == f.stack
  {
    if n > 0 {
      CloseAndReopenLandings(f, n - 1);
      CloseAndReopenOnce(f, CloseAndReopen(n - 1));
    }
  }

  /** The bound is needed: after 2^64 close-and-reopen rounds the boundary denies the closing. */
  lemma {:induction false} BoundaryWrapsAround(f: Frames)
    requires f.generations.Some?
    requires f.stack != [] && f.stack[|f.stack| - 1] == Paren
    ensures var text := CloseAndReopen(U64_MODULUS);
      !HasClosedBelow(RunStrict(f, text), BoundaryOf(f)) && WasBelow(f, text, |f.stack|)
  {
    CloseAndReopenLandings(f, U64_MODULUS);
    BoundaryAnswer(f, CloseAndReopen(U64_MODULUS));
    WasBelowIffLanded(f, CloseAndReopen(U64_MODULUS), |f.stack|);
  }

  // ----- Frame identity -----

  /** A frame together with the moment it was opened, which tells reopened frames apart. */
  datatype OpenFrame = OpenFrame(kind: FrameKind, openedAt: nat)

  function Kinds(frames: seq<OpenFrame>): seq<FrameKind> {
    seq(|frames|, i requires 0 <= i < |frames| => frames[i].kind)
  }

  function StepFrames(frames: seq<OpenFrame>, now: nat, c: char): seq<OpenFrame> {
    if FromOpenChar(c).Some? then frames + [OpenFrame(FromOpenChar(c).value, now)]
    else if ClosesStrict(Kinds(frames), c) then frames[..|frames| - 1]
    else frames
  }

  /** The same replay as `RunStrict`, on frames that carry their opening moment. */
  function RunFrames(frames: seq<OpenFrame>, now: nat, text: string): seq<OpenFrame> {
    if text == "" then frames
    else StepFrames(RunFrames(frames, now, text[..|text| - 1]), now + |text| - 1, text[|text| - 1])
  }

  lemma {:induction false} RunFramesRefinesRunStrict(f: Frames, frames: seq<OpenFrame>, now: nat, text: string)
    requires Kinds(frames) == f.stack
    ensures Kinds(RunFrames(frames, now, text)) == RunStrict(f, text).stack
  {
    if text != "" {
      RunFramesRefinesRunStrict(f, frames, now, text[..|text| - 1]);
      var before := RunFrames(frames, now, text[..|text| - 1]);
      assert Kinds(StepFrames(before, now + |text| - 1, text[|text| - 1]))
          == StepStrict(RunStrict(f, text[..|text| - 1]), text[|text| - 1]).stack;
    }
  }

  lemma {:induction false} BottomFramesUntilBelow(f: Frames, frames: seq<OpenFrame>, now: nat, text: string)
    requires frames != [] && Kinds(frames) == f.stack
    requires forall i :: 0 <= i < |frames| ==> frames[i].openedAt < now
    ensures var after := RunFrames(frames, now, text);
      if WasBelow(f, text, |frames|)
      then |after| < |frames| || after[|frames| - 1].openedAt >= now
      else IsPrefixOf(frames, after)
  {
    if text == "" {
      assert text[..0] == text;
    } else {
      var n := |text| - 1;
      BottomFramesUntilBelow(f, frames, now, text[..n]);
      WasBelowGrows(f, text, |frames|);
      RunFramesRefinesRunStrict(f, frames, now, text[..n]);
      RunFramesRefinesRunStrict(f, frames, now, text);
    }
  }

  /**
    A boundary answers the question it is taken for: it reports a closing exactly when
    the frames that were open when it was taken are no longer all open, even if the
    depth moved and came back to frames of the same kinds.
   */
  lemma {:induction false} BoundaryTracksFrameIdentity(f: Frames, frames: seq<OpenFrame>, now: nat, text: string)
    requires f.generations.Some?
    requires Kinds(frames) == f.stack
    requires forall i :: 0 <= i < |frames| ==> frames[i].openedAt < now
    requires CloseCount(f, text) < U64_MODULUS
    ensures !HasClosedBelow(RunStrict(f, text), BoundaryOf(f)) <==> IsPrefixOf(frames, RunFrames(frames, now, text))
  {
    BoundaryDetectsClosing(f, text);
    if frames != [] {
      BottomFramesUntilBelow(f, frames, now, text);
    }
  }

  // ----- Line-start snapshots -----

  predicate NoUnknown(stack: seq<FrameKind>) {
    forall i :: 0 <= i < |stack| ==> !stack[i].Unknown?
  }

  lemma {:induction false} StrictRunHasNoUnknown(f: Frames, text: string)
    requires NoUnknown(f.stack)
    ensures NoUnknown(RunStrict(f, text).stack)
  {
    if text != "" {
      StrictRunHasNoUnknown(f, text[..|text| - 1]);
    }
  }

  lemma {:induction false} WasBelowHead(f: Frames, text: string, depth: nat)
    requires text != ""
    ensures WasBelow(f, text, depth) <==> |f.stack| < depth || WasBelow(StepStrict(f, text[0]), text[1..], depth)
  {
    var g := StepStrict(f, text[0]);
    forall k | 1 <= k <= |text|
      ensures RunStrict(f, text[..k]) == RunStrict(g, text[1..][..k - 1])
    {
      assert text[..k] == [text[0]] + text[1..][..k - 1];
      RunStrictConcat(f, [text[0]], text[1..][..k - 1]);
      assert RunStrict(f, [text[0]]) == g by {
        assert [text[0]][..0] == "";
      }
    }
    if |f.stack| < depth {
      assert |RunStrict(f, text[..0]).stack| < depth;
    }
    if WasBelow(f, text, depth) && |f.stack| >= depth {
      var k :| 0 <= k <= |text| && |RunStrict(f, text[..k]).stack| < depth;
      assert k > 0;
      assert |RunStrict(g, text[1..][..k - 1]).stack| < depth;
    }
    if WasBelow(g, text[1..], depth) {
      var k :| 0 <= k <= |text[1..]| && |RunStrict(g, text[1..][..k]).stack| < depth;
      assert text[1..][..(k + 1) - 1] == text[1..][..k];
      assert |RunStrict(f, text[..k + 1]).stack| < depth;
    }
  }

  /** Without wildcards, detection is exactly the strict stack dropping below the baseline. */
  lemma {:induction false} DetectionIsWasBelow(f: Frames, text: string, baseline: nat)
    requires NoUnknown(f.stack) && baseline <= |f.stack|
    ensures DetectRun(f, text, baseline).1 <==> WasBelow(f, text, baseline)
    decreases |text|
  {
    if text != "" {
      WasBelowHead(f, text, baseline);
      var g := StepStrict(f, text[0]);
      if |g.stack| < baseline {
        assert WasBelow(g, text[1..], baseline) by {
          assert |RunStrict(g, text[1..][..0]).stack| < baseline;
        }
      } else {
        DetectionIsWasBelow(g, text[1..], baseline);
      }
    }
  }

  /**
    Replaying one line from its snapshot refines replaying everything: for a baseline no
    deeper than the real stack, the line closes below it exactly when the strict stack of
    the whole token prefix does so inside the line.
   */
  lemma {:induction false} SnapshotReplayRefinesFullReplay(tokens: seq<SqlToken>, lineStartIdx: nat, tokenIdx: nat, baseline: nat)
    requires baseline <= |FramesBefore(tokens, lineStartIdx).stack|
    ensures ClosesBelowSnapshot(tokens, lineStartIdx, tokenIdx, SnapshotBefore(tokens, lineStartIdx, baseline)) <==>
      exists k :: 0 <= k <= |SymbolText(LineSegment(tokens, lineStartIdx, tokenIdx))| &&
        |RunStrict(Frames([], None), SymbolText(FirstN(tokens, lineStartIdx))
            + SymbolText(LineSegment(tokens, lineStartIdx, tokenIdx))[..k]).stack| < baseline
  {
    var f := FramesBefore(tokens, lineStartIdx);
    var prefix := SymbolText(FirstN(tokens, lineStartIdx));
    var line := SymbolText(LineSegment(tokens, lineStartIdx, tokenIdx));
    StrictRunHasNoUnknown(Frames([], None), prefix);
    assert Padded(f.stack, baseline) == f.stack;
    assert f == Frames(f.stack, None) by {
      NoGenerations(prefix);
    }
    DetectionIsWasBelow(f, line, baseline);
    forall k | 0 <= k <= |line|
      ensures RunStrict(Frames([], None), prefix + line[..k]) == RunStrict(f, line[..k])
    {
      RunStrictConcat(Frames([], None), prefix, line[..k]);
    }
    if WasBelow(f, line, baseline) {
      var k :| 0 <= k <= |line| && |RunStrict(f, line[..k]).stack| < baseline;
      assert |RunStrict(Frames([], None), prefix + line[..k]).stack| < baseline;
    }
  }

  lemma {:induction false} NoGenerations(text: string)
    ensures RunStrict(Frames([], None), text).generations.None?
  {
    if text != "" {
      NoGenerations(text[..|text| - 1]);
    }
  }

  lemma {:induction false} DetectionMonotone(f: Frames, text: string, low: nat, high: nat)
    requires low <= high
    ensures DetectRun(f, text, low).1 ==> DetectRun(f, text, high).1
    decreases |text|
  {
    if text != "" {
      if FromOpenChar(text[0]).Some? {
        DetectionMonotone(Opened(f, FromOpenChar(text[0]).value), text[1..], low, high);
      } else if ClosesLenient(f.stack, text[0]) {
        DetectionMonotone(Closed(f), text[1..], low, high);
      } else {
        DetectionMonotone(f, text[1..], low, high);
      }
    }
  }

  /** Frames underneath the baseline frame are never looked at. */
  lemma {:induction false} DetectionIgnoresOuterFrames(outer: seq<FrameKind>, f: Frames, text: string, baseline: nat)
    requires 1 <= baseline <= |f.stack|
    ensures DetectRun(f.(stack := outer + f.stack), text, |outer| + baseline).1 == DetectRun(f, text, baseline).1
    decreases |text|
  {
    if text != "" {
      var g := f.(stack := outer + f.stack);
      if FromOpenChar(text[0]).Some? {
        var kind := FromOpenChar(text[0]).value;
        assert outer + (f.stack + [kind]) == outer + f.stack + [kind];
        DetectionIgnoresOuterFrames(outer, Opened(f, kind), text[1..], baseline);
      } else if ClosesLenient(f.stack, text[0]) {
        assert (outer + f.stack)[..|outer| + |f.stack| - 1] == outer + f.stack[..|f.stack| - 1];
        if |f.stack| - 1 >= baseline {
          DetectionIgnoresOuterFrames(outer, Closed(f), text[1..], baseline);
          DetectionIgnoresGenerations(Closed(g), Closed(f).(stack := outer + Closed(f).stack), text[1..], |outer| + baseline);
        }
      } else {
        DetectionIgnoresOuterFrames(outer, f, text[1..], baseline);
      }
    }
  }

  lemma {:induction false} DetectionIgnoresGenerations(f: Frames, g: Frames, text: string, baseline: nat)
    requires f.stack == g.stack
    ensures DetectRun(f, text, baseline).1 == DetectRun(g, text, baseline).1
    decreases |text|
  {
    if text != "" {
      if FromOpenChar(text[0]).Some? {
        var kind := FromOpenChar(text[0]).value;
        DetectionIgnoresGenerations(Opened(f, kind), Opened(g, kind), text[1..], baseline);
      } else if ClosesLenient(f.stack, text[0]) {
        DetectionIgnoresGenerations(Closed(f), Closed(g), text[1..], baseline);
      } else {
        DetectionIgnoresGenerations(f, g, text[1..], baseline);
      }
    }
  }

  /** A baseline that reaches the visible depth gives the answer of the visible depth itself. */
  lemma {:induction false} SnapshotConstantFromVisibleDepth(
    tokens: seq<SqlToken>, lineStartIdx: nat, tokenIdx: nat, baseline: nat)
    requires baseline >= Max(1, |FramesBefore(tokens, lineStartIdx).stack|)
    ensures ClosesBelowSnapshot(tokens, lineStartIdx, tokenIdx, SnapshotBefore(tokens, lineStartIdx, baseline))
      == ClosesBelowSnapshot(tokens, lineStartIdx, tokenIdx,
                             SnapshotBefore(tokens, lineStartIdx, Max(1, |FramesBefore(tokens, lineStartIdx).stack|)))
  {
    var stack := FramesBefore(tokens, lineStartIdx).stack;
    var line := SymbolText(LineSegment(tokens, lineStartIdx, tokenIdx));
    var base := Max(1, |stack|);
    var visible := Padded(stack, base);
    var outer := seq(baseline - base, _ => Unknown);
    assert Padded(stack, baseline) == outer + visible;
    DetectionIgnoresOuterFrames(outer, Frames(visible, None), line, base);
  }

  /** A deeper baseline never hides a close that a shallower one sees. */
  lemma {:induction false} SnapshotMonotoneInBaseline(
    tokens: seq<SqlToken>, lineStartIdx: nat, tokenIdx: nat, low: nat, high: nat)
    requires low <= high
    requires ClosesBelowSnapshot(tokens, lineStartIdx, tokenIdx, SnapshotBefore(tokens, lineStartIdx, low))
    ensures ClosesBelowSnapshot(tokens, lineStartIdx, tokenIdx, SnapshotBefore(tokens, lineStartIdx, high))
  {
    var stack := FramesBefore(tokens, lineStartIdx).stack;
    var line := SymbolText(LineSegment(tokens, lineStartIdx, tokenIdx));
    var visible := Max(1, |stack|);
    if low >= visible {
      SnapshotConstantFromVisibleDepth(tokens, lineStartIdx, tokenIdx, low);
      SnapshotConstantFromVisibleDepth(tokens, lineStartIdx, tokenIdx, high);
    } else {
      var middle := Min(high, |stack|);
      assert Padded(stack, low) == stack == Padded(stack, middle);
      DetectionMonotone(Frames(stack, None), line, low, middle);
      if high > |stack| {
        SnapshotConstantFromVisibleDepth(tokens, lineStartIdx, tokenIdx, high);
      }
    }
  }
}
