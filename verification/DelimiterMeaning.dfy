/**
  Delimiter frames against a grammar of nested text (src/sql_delimiter.rs): properly
  nested brackets leave every frame alone, closers that fit no frame are ignored, and
  the closer of the innermost frame closes exactly that frame.
 */
module DelimiterMeaning {
  import opened Prelude
  import opened DelimiterFrames
  import opened DelimiterTheorems

  /** One character that neither opens nor closes a frame here, or text wrapped in a pair of brackets. */
  datatype Item = Single(c: char) | Wrapped(kind: FrameKind, inner: seq<Item>)

  function OpenChar(kind: FrameKind): char
    requires kind != Unknown
  {
    match kind case Paren => '(' case Bracket => '[' case Brace => '{'
  }

  function CloseChar(kind: FrameKind): char
    requires kind != Unknown
  {
    match kind case Paren => ')' case Bracket => ']' case Brace => '}'
  }

  /** Inside a frame of kind `top`, a single closer must be one that does not fit. */
  predicate IsItem(item: Item, top: Option<FrameKind>)
    decreases item
  {
    match item
    case Single(c) => FromOpenChar(c).None? && (FromCloseChar(c).None? || FromCloseChar(c) != top)
    case Wrapped(kind, inner) => kind != Unknown && AreItems(inner, Some(kind))
  }

  predicate AreItems(items: seq<Item>, top: Option<FrameKind>)
    decreases items
  {
    items != [] ==> IsItem(items[0], top) && AreItems(items[1..], top)
  }

  function SpellItem(item: Item, top: Option<FrameKind>): string
    requires IsItem(item, top)
    decreases item
  {
    match item
    case Single(c) => [c]
    case Wrapped(kind, inner) => [OpenChar(kind)] + Spell(inner, Some(kind)) + [CloseChar(kind)]
  }

  function Spell(items: seq<Item>, top: Option<FrameKind>): string
    requires AreItems(items, top)
    decreases items
  {
    if items == [] then "" else SpellItem(items[0], top) + Spell(items[1..], top)
  }

  function Top(stack: seq<FrameKind>): Option<FrameKind> {
    if stack == [] then None else Some(stack[|stack| - 1])
  }

  // ----- Getting below, over a concatenation -----

  lemma {:induction false} WasBelowConcat(f: Frames, a: string, b: string, depth: nat)
    ensures WasBelow(f, a + b, depth) <==> WasBelow(f, a, depth) || WasBelow(RunStrict(f, a), b, depth)
    decreases |b|
  {
    if b == "" {
      assert a + b == a && a[..|a|] == a && b[..0] == "";
    } else {
      var before := b[..|b| - 1];
      assert (a + b)[..|a + b| - 1] == a + before;
      WasBelowConcat(f, a, before, depth);
      WasBelowGrows(f, a + b, depth);
      WasBelowGrows(RunStrict(f, a), b, depth);
      RunStrictConcat(f, a, b);
    }
  }

  lemma {:induction false} OneCharacter(f: Frames, c: char, depth: nat)
    ensures RunStrict(f, [c]) == StepStrict(f, c)
    ensures WasBelow(f, [c], depth) <==> |f.stack| < depth || |StepStrict(f, c).stack| < depth
  {
    assert [c][..0] == "" && [c][..1] == [c];
    WasBelowGrows(f, [c], depth);
    assert ""[..0] == "";
  }

  // ----- Nested text is neutral -----

  /** The text leaves the frames of `f` open and in place throughout. */
  ghost predicate Neutral(f: Frames, text: string) {
    RunStrict(f, text).stack == f.stack && !WasBelow(f, text, |f.stack|)
  }

  lemma {:induction false} NeutralTwice(f: Frames, a: string, b: string)
    requires Neutral(f, a) && Neutral(RunStrict(f, a), b)
    ensures Neutral(f, a + b)
  {
    RunStrictConcat(f, a, b);
    WasBelowConcat(f, a, b, |f.stack|);
  }

  lemma {:induction false} AfterOpening(f: Frames, kind: FrameKind, text: string)
    requires kind != Unknown && Neutral(Opened(f, kind), text)
    ensures RunStrict(f, [OpenChar(kind)] + text).stack == Opened(f, kind).stack
    ensures !WasBelow(f, [OpenChar(kind)] + text, |f.stack|)
  {
    OneCharacter(f, OpenChar(kind), |f.stack|);
    RunStrictConcat(f, [OpenChar(kind)], text);
    WasBelowConcat(f, [OpenChar(kind)], text, |f.stack|);
    WasBelowLess(Opened(f, kind), text, |f.stack|, |f.stack| + 1);
  }

  lemma {:induction false} WasBelowLess(f: Frames, text: string, low: nat, high: nat)
    requires low <= high
    ensures WasBelow(f, text, low) ==> WasBelow(f, text, high)
  {
  }

  lemma {:induction false} WrappedIsNeutral(f: Frames, kind: FrameKind, text: string)
    requires kind != Unknown && Neutral(Opened(f, kind), text)
    ensures Neutral(f, [OpenChar(kind)] + text + [CloseChar(kind)])
  {
    var before, close, depth := [OpenChar(kind)] + text, CloseChar(kind), |f.stack|;
    AfterOpening(f, kind, text);
    var last := RunStrict(f, before);
    assert last.stack[..depth] == f.stack;
    OneCharacter(last, close, depth);
    RunStrictConcat(f, before, [close]);
    WasBelowConcat(f, before, [close], depth);
  }

  lemma {:induction false} ItemIsNeutral(f: Frames, item: Item)
    requires IsItem(item, Top(f.stack))
    ensures Neutral(f, SpellItem(item, Top(f.stack)))
    decreases item
  {
    match item {
      case Single(c) =>
        OneCharacter(f, c, |f.stack|);
      case Wrapped(kind, inner) =>
        NestedTextIsNeutral(Opened(f, kind), inner);
        WrappedIsNeutral(f, kind, Spell(inner, Some(kind)));
    }
  }

  /** Properly nested text, with any closers in it that fit no frame, never touches the frames it stands in. */
  lemma {:induction false} NestedTextIsNeutral(f: Frames, items: seq<Item>)
    requires AreItems(items, Top(f.stack))
    ensures Neutral(f, Spell(items, Top(f.stack)))
    decreases items
  {
    if items == [] {
      assert ""[..0] == "";
    } else {
      ItemIsNeutral(f, items[0]);
      var first := SpellItem(items[0], Top(f.stack));
      NestedTextIsNeutral(RunStrict(f, first), items[1..]);
      NeutralTwice(f, first, Spell(items[1..], Top(f.stack)));
    }
  }

  // ----- What a boundary says about it -----

  /** No boundary reports a closing while only nested text goes by. */
  lemma {:induction false} NestedTextKeepsBoundary(f: Frames, items: seq<Item>)
    requires f.generations.Some? && AreItems(items, Top(f.stack))
    ensures !HasClosedBelow(RunStrict(f, Spell(items, Top(f.stack))), BoundaryOf(f))
  {
    var text := Spell(items, Top(f.stack));
    NestedTextIsNeutral(f, items);
    BoundaryAnswer(f, text);
    if f.stack != [] {
      WasBelowIffLanded(f, text, |f.stack|);
    }
  }

  lemma {:induction false} CloserCloses(f: Frames, inner: string)
    requires f.generations.Some? && f.stack != [] && Top(f.stack).value != Unknown && Neutral(f, inner)
    ensures var after := RunStrict(f, inner + [CloseChar(Top(f.stack).value)]);
      after.stack == f.stack[..|f.stack| - 1] && HasClosedBelow(after, BoundaryOf(f))
  {
    var close, depth := CloseChar(Top(f.stack).value), |f.stack| - 1;
    OneMore(f, inner, close, depth);
    WasBelowIffLanded(f, inner, |f.stack|);
    SmallResidue(1);
    BoundaryAnswer(f, inner + [close]);
  }

  /** The innermost frame's own closer, after any nested text, closes exactly that frame, and its boundary says so. */
  lemma {:induction false} OwnCloserCloses(f: Frames, items: seq<Item>)
    requires f.generations.Some? && f.stack != [] && Top(f.stack).value != Unknown && AreItems(items, Top(f.stack))
    ensures var after := RunStrict(f, Spell(items, Top(f.stack)) + [CloseChar(Top(f.stack).value)]);
      after.stack == f.stack[..|f.stack| - 1] && HasClosedBelow(after, BoundaryOf(f))
  {
    NestedTextIsNeutral(f, items);
    CloserCloses(f, Spell(items, Top(f.stack)));
  }
}
