/**
  Identifier words before an inline comment (src/sql_text.rs): the forward
  tokenizer, and the trailing-word scan with its backward fast path for lines
  that hold no quote, comment or slash byte.
 */
module TrailingIdentifiers {
  import opened Prelude
  import opened SqlBytes

  // ----- The forward scan -----

  /** Something significant on the line: an identifier word, or any other single byte. */
  datatype Item = WordAt(start: nat, end: nat) | ByteAt(pos: nat) {
    predicate In(b: string) {
      match this
      case WordAt(s, e) => s < e <= |b|
      case ByteAt(p) => p < |b|
    }

    function End(): nat {
      match this
      case WordAt(_, e) => e
      case ByteAt(p) => p + 1
    }
  }

  predicate ItemsIn(b: string, items: seq<Item>) {
    forall k :: 0 <= k < |items| ==> items[k].In(b)
  }

  datatype Move = Stop | Skip(next: nat, mode: Mode) | Emit(item: Item)

  predicate ScanState(b: string, i: nat, mode: Mode) {
    i <= |b| && mode.Ok() && !mode.LineComment?
  }

  /** What both forward scanners do at byte `i`. */
  function ForwardMove(b: string, i: nat, mode: Mode): (r: Move)
    requires ScanState(b, i, mode) && i < |b|
    ensures r.Skip? ==> i < r.next && ScanState(b, r.next, r.mode)
    ensures r.Emit? ==> r.item.In(b) && i < r.item.End() && mode.Plain?
  {
    if !mode.Plain? then
      var (j, m) := InsideStep(b, i, mode);
      Skip(j, m)
    else if SqlLineCommentPrefixLen(b, i).Some? then Stop
    else if StartsBlockComment(b, i) then Skip(i + 2, BlockComment)
    else if QQuotePrefixAt(b, i).Some? then
      var q := QQuotePrefixAt(b, i).value;
      Skip(i + q.prefixLen, QQuote(q.closing))
    else if b[i] == '\'' then Skip(i + 1, SingleQuote)
    else if b[i] == '"' then Skip(i + 1, DoubleQuote)
    else if IsAsciiWhitespace(b[i]) then Skip(i + 1, Plain)
    else if IsIdentifierStartByte(b[i]) then Emit(WordAt(i, RunEnd(b, i + 1)))
    else Emit(ByteAt(i))
  }

  /** Everything significant from byte `i` on. */
  function Items(b: string, i: nat, mode: Mode): (r: seq<Item>)
    requires ScanState(b, i, mode)
    ensures ItemsIn(b, r)
    decreases |b| - i
  {
    if i == |b| then []
    else
      match ForwardMove(b, i, mode)
      case Stop => []
      case Skip(j, m) => Items(b, j, m)
      case Emit(item) => [item] + Items(b, item.End(), Plain)
  }

  function Words(b: string, items: seq<Item>): seq<string>
    requires ItemsIn(b, items)
  {
    if items == [] then []
    else if items[0].WordAt? then [b[items[0].start..items[0].end]] + Words(b, items[1..])
    else Words(b, items[1..])
  }

  /** The last significant byte as the forward scan reports it: `a` stands for any word. */
  function LastByte(b: string, items: seq<Item>): Option<char>
    requires ItemsIn(b, items)
  {
    if items == [] then None
    else match items[|items| - 1] case WordAt(_, _) => Some('a') case ByteAt(p) => Some(b[p])
  }

  function AllWords(line: string): seq<string> {
    Words(line, Items(line, 0, Plain))
  }

  function ForwardLastByte(line: string): Option<char> {
    LastByte(line, Items(line, 0, Plain))
  }

  lemma {:induction false} WordsConcat(b: string, x: seq<Item>, y: seq<Item>)
    requires ItemsIn(b, x) && ItemsIn(b, y)
    ensures ItemsIn(b, x + y) && Words(b, x + y) == Words(b, x) + Words(b, y)
    decreases |x|
  {
    if x == [] {
      assert x + y == y;
    } else {
      assert (x + y)[1..] == x[1..] + y;
      WordsConcat(b, x[1..], y);
    }
  }

  lemma {:induction false} EmitStep(line: string, i: nat, mode: Mode, before: seq<string>)
    requires ScanState(line, i, mode) && i < |line| && ForwardMove(line, i, mode).Emit?
    ensures var item := ForwardMove(line, i, mode).item;
      var rest := Words(line, Items(line, item.End(), Plain));
      before + Words(line, Items(line, i, mode)) ==
        if item.WordAt? then before + [line[item.start..item.end]] + rest else before + rest
  {
    var item := ForwardMove(line, i, mode).item;
    assert Items(line, i, mode)[1..] == Items(line, item.End(), Plain);
    if item.WordAt? {
      Regroup(before, [line[item.start..item.end]], Words(line, Items(line, item.End(), Plain)));
    }
  }

  /** `meaningful_identifier_words_before_inline_comment`; a limit of 0 means no limit. */
  method MeaningfulIdentifierWords(line: string, maxIdentifiers: nat) returns (identifiers: seq<string>)
    ensures identifiers == if maxIdentifiers == 0 then AllWords(line) else FirstN(AllWords(line), maxIdentifiers)
  {
    var i, mode := 0, Plain;
    identifiers := [];
    while i < |line|
      invariant ScanState(line, i, mode)
      invariant AllWords(line) == identifiers + Words(line, Items(line, i, mode))
      invariant maxIdentifiers > 0 ==> |identifiers| < maxIdentifiers
      decreases |line| - i
    {
      match ForwardMove(line, i, mode) {
        case Stop =>
          break;
        case Skip(next, m) =>
          i, mode := next, m;
        case Emit(item) =>
          EmitStep(line, i, mode, identifiers);
          i, mode := item.End(), Plain;
          if item.WordAt? {
            identifiers := identifiers + [line[item.start..item.end]];
            if |identifiers| == maxIdentifiers {
              return;
            }
          }
      }
    }
    assert AllWords(line) == identifiers;
  }

  // ----- The backward fast path -----

  predicate FastPathSafe(line: string) {
    forall k :: 0 <= k < |line| ==> line[k] !in "'\"`#-/"
  }

  /** End of the line without its trailing whitespace. */
  function TrimmedEnd(b: string, end: nat): (r: nat)
    requires end <= |b|
    ensures r <= end
    ensures forall k :: r <= k < end ==> IsAsciiWhitespace(b[k])
    ensures r > 0 ==> !IsAsciiWhitespace(b[r - 1])
  {
    if end > 0 && IsAsciiWhitespace(b[end - 1]) then TrimmedEnd(b, end - 1) else end
  }

  /** Start of the run of identifier bytes that ends at `end`. */
  function RunStart(b: string, end: nat): (r: nat)
    requires end <= |b|
    ensures r <= end
    ensures forall j :: r <= j < end ==> IsIdentifierByte(b[j])
    ensures r > 0 ==> !IsIdentifierByte(b[r - 1])
  {
    if end > 0 && IsIdentifierByte(b[end - 1]) then RunStart(b, end - 1) else end
  }

  /** The words of `b[..end]` as the backward scan meets them: whole runs that do not start with a digit. */
  function BackwardWords(b: string, end: nat): seq<string>
    requires end <= |b|
  {
    if end == 0 then []
    else if IsIdentifierByte(b[end - 1]) then
      var start := RunStart(b, end);
      BackwardWords(b, start) + (if IsIdentifierStartByte(b[start]) then [b[start..end]] else [])
    else BackwardWords(b, end - 1)
  }

  function Reversed<T>(s: seq<T>): (r: seq<T>)
    ensures |r| == |s|
  {
    if s == [] then [] else Reversed(s[1..]) + [s[0]]
  }

  function FastLastByte(line: string): Option<char> {
    var end := TrimmedEnd(line, |line|);
    if end == 0 then None else Some(line[end - 1])
  }

  function TrailingWords(line: string, k: nat): seq<string> {
    LastN(if FastPathSafe(line) then BackwardWords(line, |line|) else AllWords(line), k)
  }

  function TrailingByte(line: string): Option<char> {
    if FastPathSafe(line) then FastLastByte(line) else ForwardLastByte(line)
  }

  lemma {:induction false} BackwardWordsTrimmed(b: string, end: nat)
    requires end <= |b|
    ensures BackwardWords(b, end) == BackwardWords(b, TrimmedEnd(b, end))
  {
    if end > 0 && IsAsciiWhitespace(b[end - 1]) {
      BackwardWordsTrimmed(b, end - 1);
    }
  }

  lemma {:induction false} ReversedSnoc<T>(s: seq<T>, x: T)
    ensures Reversed(s + [x]) == [x] + Reversed(s)
  {
    if s != [] {
      assert (s + [x])[1..] == s[1..] + [x];
      ReversedSnoc(s[1..], x);
    }
  }

  method BackOverWhitespace(line: string, from: nat) returns (i: nat)
    requires from <= |line|
    ensures i == TrimmedEnd(line, from)
  {
    i := from;
    while i > 0 && IsAsciiWhitespace(line[i - 1])
      invariant i <= from && TrimmedEnd(line, i) == TrimmedEnd(line, from)
    {
      i := i - 1;
    }
  }

  method BackOverIdentifier(line: string, from: nat) returns (i: nat)
    requires from <= |line|
    ensures i == RunStart(line, from)
  {
    i := from;
    while i > 0 && IsIdentifierByte(line[i - 1])
      invariant i <= from && RunStart(line, i) == RunStart(line, from)
    {
      i := i - 1;
    }
  }

  /** One more word in a full window pushes out the oldest. */
  lemma {:induction false} SlidingWindow(words: seq<string>, word: string, k: nat)
    requires k > 0
    ensures LastN(words + [word], k)
      == (if |LastN(words, k)| == k then LastN(words, k)[1..] else LastN(words, k)) + [word]
  {
  }

  /** The word that ends at `end`, if the run there is one. */
  function WordBefore(b: string, start: nat, end: nat): seq<string>
    requires start < end <= |b|
  {
    if IsIdentifierStartByte(b[start]) then [b[start..end]] else []
  }

  lemma {:induction false} BackwardWordsStep(b: string, end: nat, found: seq<string>)
    requires 0 < end <= |b| && IsIdentifierByte(b[end - 1])
    ensures RunStart(b, end) < end
    ensures BackwardWords(b, end) + found
      == BackwardWords(b, RunStart(b, end)) + (WordBefore(b, RunStart(b, end), end) + found)
  {
  }

  lemma {:induction false} ReversedTwice<T>(s: seq<T>)
    ensures Reversed(Reversed(s)) == s
  {
    if s != [] {
      ReversedSnoc(Reversed(s[1..]), s[0]);
      ReversedTwice(s[1..]);
    }
  }

  /** The backward loop: collect words from the end until there are enough. */
  method CollectBackward(line: string, end: nat, maxIdentifiers: nat) returns (identifiers: seq<string>)
    requires end <= |line|
    ensures identifiers == LastN(BackwardWords(line, end), maxIdentifiers)
  {
    var collected: seq<string> := [];
    ghost var found: seq<string> := [];
    var i: nat := end;
    while i > 0
      invariant i <= end
      invariant BackwardWords(line, end) == BackwardWords(line, i) + found
      invariant collected == if maxIdentifiers > 0 then Reversed(found) else []
      invariant maxIdentifiers > 0 ==> |found| < maxIdentifiers
      decreases i
    {
      BackwardWordsTrimmed(line, i);
      i := BackOverWhitespace(line, i);
      if i == 0 {
        break;
      }
      if IsIdentifierByte(line[i - 1]) {
        var tokenEnd := i;
        BackwardWordsStep(line, i, found);
        i := BackOverIdentifier(line, i);
        ghost var later := found;
        found := WordBefore(line, i, tokenEnd) + later;
        if !IsIdentifierStartByte(line[i]) {
          assert found == later;
          continue;
        }
        if maxIdentifiers > 0 {
          assert found[1..] == later;
          collected := collected + [line[i..tokenEnd]];
          if |collected| == maxIdentifiers {
            break;
          }
        }
        continue;
      }
      i := i - 1;
    }
    ReversedTwice(found);
    identifiers := Reversed(collected);
  }

  method FastTrailingIdentifiers(line: string, maxIdentifiers: nat) returns (last: Option<char>, identifiers: seq<string>)
    ensures last == FastLastByte(line)
    ensures identifiers == LastN(BackwardWords(line, |line|), maxIdentifiers)
  {
    var end := BackOverWhitespace(line, |line|);
    BackwardWordsTrimmed(line, |line|);
    if end == 0 {
      return None, [];
    }
    last := Some(line[end - 1]);
    identifiers := CollectBackward(line, end, maxIdentifiers);
  }

  /** What the slow path's window and last byte become when it meets `item`. */
  function Slide(b: string, item: Item, state: (Option<char>, seq<string>), k: nat): (Option<char>, seq<string>)
    requires item.In(b)
  {
    match item
    case ByteAt(p) => (Some(b[p]), state.1)
    case WordAt(s, e) =>
      (Some('a'), if k == 0 then state.1 else (if |state.1| == k then state.1[1..] else state.1) + [b[s..e]])
  }

  function SlideAll(b: string, items: seq<Item>, state: (Option<char>, seq<string>), k: nat): (Option<char>, seq<string>)
    requires ItemsIn(b, items)
  {
    if items == [] then state else SlideAll(b, items[1..], Slide(b, items[0], state, k), k)
  }

  /** A sliding window holds the last words, whatever was in it before counts as earlier words. */
  lemma {:induction false} WindowHoldsLastWords(b: string, items: seq<Item>, earlier: seq<string>, last: Option<char>, k: nat)
    requires ItemsIn(b, items)
    ensures SlideAll(b, items, (last, LastN(earlier, k)), k)
      == (if items == [] then last else LastByte(b, items), LastN(earlier + Words(b, items), k))
    decreases |items|
  {
    if items == [] {
      assert earlier + [] == earlier;
    } else {
      var item := items[0];
      var first := if item.WordAt? then [b[item.start..item.end]] else [];
      assert earlier + Words(b, items) == (earlier + first) + Words(b, items[1..]);
      if item.WordAt? && k > 0 {
        SlidingWindow(earlier, b[item.start..item.end], k);
      }
      assert item.ByteAt? ==> earlier + first == earlier;
      var (l, w) := Slide(b, item, (last, LastN(earlier, k)), k);
      assert w == LastN(earlier + first, k);
      WindowHoldsLastWords(b, items[1..], earlier + first, l, k);
    }
  }

  /** The forward scan of the slow path keeps a sliding window of the last words. */
  method SlowTrailingIdentifiers(line: string, maxIdentifiers: nat) returns (last: Option<char>, identifiers: seq<string>)
    ensures last == ForwardLastByte(line)
    ensures identifiers == LastN(AllWords(line), maxIdentifiers)
  {
    WindowHoldsLastWords(line, Items(line, 0, Plain), [], None, maxIdentifiers);
    assert [] + AllWords(line) == AllWords(line);
    var i, mode := 0, Plain;
    last, identifiers := None, [];
    while i < |line|
      invariant ScanState(line, i, mode)
      invariant SlideAll(line, Items(line, i, mode), (last, identifiers), maxIdentifiers)
        == SlideAll(line, Items(line, 0, Plain), (None, []), maxIdentifiers)
      decreases |line| - i
    {
      match ForwardMove(line, i, mode) {
        case Stop =>
          break;
        case Skip(next, m) =>
          i, mode := next, m;
        case Emit(item) =>
          assert Items(line, i, mode)[1..] == Items(line, item.End(), Plain);
          i := item.End();
          if item.WordAt? {
            last := Some('a');
            if maxIdentifiers > 0 {
              if |identifiers| == maxIdentifiers {
                identifiers := identifiers[1..];
              }
              identifiers := identifiers + [line[item.start..item.end]];
            }
          } else {
            last := Some(line[item.pos]);
          }
      }
    }
  }

  /** `line_trailing_identifiers_before_inline_comment`. */
  method LineTrailingIdentifiers(line: string, maxIdentifiers: nat) returns (last: Option<char>, identifiers: seq<string>)
    ensures last == TrailingByte(line)
    ensures identifiers == TrailingWords(line, maxIdentifiers)
  {
    if FastPathSafe(line) {
      last, identifiers := FastTrailingIdentifiers(line, maxIdentifiers);
    } else {
      last, identifiers := SlowTrailingIdentifiers(line, maxIdentifiers);
    }
  }
}
