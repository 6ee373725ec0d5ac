/**
  Keyword matching by underscore-separated segments (src/sql_text.rs): words and
  keywords match when their flattened segments are equal ignoring ASCII case.
 */
module IdentifierSegments {
  import opened Prelude

  // ----- Segments -----

  function SkipUnderscores(word: string, i: nat): (r: nat)
    requires i <= |word|
    ensures i <= r <= |word| && (r < |word| ==> word[r] != '_')
    decreases |word| - i
  {
    if i < |word| && word[i] == '_' then SkipUnderscores(word, i + 1) else i
  }

  function SegmentEnd(word: string, i: nat): (r: nat)
    requires i <= |word|
    ensures i <= r <= |word| && (i < |word| && word[i] != '_' ==> i < r)
    ensures (forall k :: i <= k < r ==> word[k] != '_') && (r < |word| ==> word[r] == '_')
    decreases |word| - i
  {
    if i < |word| && word[i] != '_' then SegmentEnd(word, i + 1) else i
  }

  /** The non-empty pieces of `word[i..]` between underscores. */
  function SegmentsFrom(word: string, i: nat): (r: seq<string>)
    requires i <= |word|
    decreases |word| - i
  {
    var start := SkipUnderscores(word, i);
    if start == |word| then [] else [word[start..SegmentEnd(word, start)]] + SegmentsFrom(word, SegmentEnd(word, start))
  }

  function AsciiUpper(c: char): char {
    if 'a' <= c <= 'z' then 'A' + (c - 'a') else c
  }

  function Upper(s: string): string {
    seq(|s|, i requires 0 <= i < |s| => AsciiUpper(s[i]))
  }

  function UpperAll(segments: seq<string>): seq<string> {
    seq(|segments|, i requires 0 <= i < |segments| => Upper(segments[i]))
  }

  /** What a word means to the matchers: its segments, case folded. */
  function Key(word: string): seq<string> {
    UpperAll(SegmentsFrom(word, 0))
  }

  /** The flattened keys of a list of words. */
  function Keys(words: seq<string>): seq<string> {
    if words == [] then [] else Key(words[0]) + Keys(words[1..])
  }

  lemma {:induction false} KeysConcat(a: seq<string>, b: seq<string>)
    ensures Keys(a + b) == Keys(a) + Keys(b)
    decreases |a|
  {
    if a == [] {
      assert a + b == b;
    } else {
      assert (a + b)[1..] == a[1..] + b;
      KeysConcat(a[1..], b);
    }
  }

  lemma {:induction false} UpperAllConcat(a: seq<string>, b: seq<string>)
    ensures UpperAll(a + b) == UpperAll(a) + UpperAll(b)
  {
  }

  function WithoutUnderscores(s: string): string {
    if s == "" then "" else (if s[0] == '_' then "" else [s[0]]) + WithoutUnderscores(s[1..])
  }

  function Joined(segments: seq<string>): string {
    if segments == [] then "" else segments[0] + Joined(segments[1..])
  }

  lemma {:induction false} SegmentsStep(word: string, i: nat, start: nat, end: nat, segment: string)
    requires i <= |word| && start == SkipUnderscores(word, i) < |word| && end == SegmentEnd(word, start) && segment == word[start..end]
    ensures SegmentsFrom(word, i) == [segment] + SegmentsFrom(word, end)
  {
  }

  ghost predicate PlainSegments(segments: seq<string>) {
    forall k :: 0 <= k < |segments| ==> segments[k] != "" && '_' !in segments[k]
  }

  lemma {:induction false} OneMoreSegment(segment: string, rest: seq<string>)
    requires segment != "" && '_' !in segment && PlainSegments(rest)
    ensures PlainSegments([segment] + rest) && Joined([segment] + rest) == segment + Joined(rest)
  {
    assert ([segment] + rest)[1..] == rest;
  }

  /** Segments are non-empty, hold no underscore, and together spell the word without its underscores. */
  lemma {:induction false} SegmentsSpellWord(word: string, i: nat)
    requires i <= |word|
    ensures PlainSegments(SegmentsFrom(word, i)) && Joined(SegmentsFrom(word, i)) == WithoutUnderscores(word[i..])
    decreases |word| - i
  {
    var start := SkipUnderscores(word, i);
    SkippedUnderscores(word, i);
    if start < |word| {
      var end := SegmentEnd(word, start);
      var segment := word[start..end];
      KeptSegment(word, start);
      SegmentsSpellWord(word, end);
      SegmentsStep(word, i, start, end, segment);
      OneMoreSegment(segment, SegmentsFrom(word, end));
    } else {
      assert word[start..] == "";
    }
  }

  lemma {:induction false} SkippedUnderscores(word: string, i: nat)
    requires i <= |word|
    ensures WithoutUnderscores(word[i..]) == WithoutUnderscores(word[SkipUnderscores(word, i)..])
    decreases |word| - i
  {
    if i < |word| && word[i] == '_' {
      SkippedUnderscores(word, i + 1);
      assert word[i..][1..] == word[i + 1..];
    }
  }

  lemma {:induction false} KeptSegment(word: string, i: nat)
    requires i <= |word|
    ensures WithoutUnderscores(word[i..]) == word[i..SegmentEnd(word, i)] + WithoutUnderscores(word[SegmentEnd(word, i)..])
    decreases |word| - i
  {
    if i < |word| && word[i] != '_' {
      var end := SegmentEnd(word, i);
      KeptSegment(word, i + 1);
      assert word[i..][1..] == word[i + 1..];
      assert word[i..end] == [word[i]] + word[i + 1..end];
    }
  }

  lemma {:induction false} NoUnderscores(word: string, i: nat)
    requires i <= |word| && forall k :: 0 <= k < |word| ==> word[k] != '_'
    ensures SegmentEnd(word, i) == |word| && SkipUnderscores(word, i) == i
    decreases |word| - i
  {
    if i < |word| {
      NoUnderscores(word, i + 1);
    }
  }

  /** A word without underscores is one segment. */
  lemma {:induction false} OneSegment(word: string)
    requires word != "" && forall k :: 0 <= k < |word| ==> word[k] != '_'
    ensures SegmentsFrom(word, 0) == [word]
  {
    NoUnderscores(word, 0);
    NoUnderscores(word, |word|);
    assert word[0..|word|] == word;
  }

  lemma {:induction false} CursorsInPrefix(a: string, w: string, i: nat)
    requires i <= |a| < |w| && w[..|a|] == a && w[|a|] == '_'
    ensures SkipUnderscores(a, i) < |a| ==> SkipUnderscores(w, i) == SkipUnderscores(a, i)
    ensures SkipUnderscores(a, i) == |a| ==> SkipUnderscores(w, i) == SkipUnderscores(w, |a| + 1)
    ensures SegmentEnd(w, i) == SegmentEnd(a, i)
    decreases |a| - i
  {
    if i < |a| {
      assert w[i] == w[..|a|][i] == a[i];
      CursorsInPrefix(a, w, i + 1);
    }
  }

  lemma {:induction false} CursorsInSuffix(b: string, w: string, n: nat, i: nat)
    requires n + |b| == |w| && w[n..] == b && i <= |b|
    ensures SkipUnderscores(w, n + i) == n + SkipUnderscores(b, i) && SegmentEnd(w, n + i) == n + SegmentEnd(b, i)
    decreases |b| - i
  {
    if i < |b| {
      assert w[n + i] == w[n..][i] == b[i];
      CursorsInSuffix(b, w, n, i + 1);
    }
  }

  lemma {:induction false} FirstInSuffix(b: string, w: string, n: nat, i: nat) returns (start: nat, end: nat, segment: string)
    requires n + |b| == |w| && w[n..] == b && i <= |b| && SkipUnderscores(b, i) < |b|
    ensures i <= start < end <= |b| && start == SkipUnderscores(b, i) && end == SegmentEnd(b, start) && segment == b[start..end]
    ensures n + start == SkipUnderscores(w, n + i) && n + end == SegmentEnd(w, n + start) && segment == w[n + start..n + end]
  {
    start := SkipUnderscores(b, i);
    end := SegmentEnd(b, start);
    segment := b[start..end];
    CursorsInSuffix(b, w, n, i);
    CursorsInSuffix(b, w, n, start);
    SliceOfSuffix(b, w, n, start, end);
  }

  lemma {:induction false} StepInSuffix(b: string, w: string, n: nat, i: nat) returns (segment: string, end: nat)
    requires n + |b| == |w| && w[n..] == b && i <= |b| && SkipUnderscores(b, i) < |b|
    ensures i < end <= |b|
    ensures SegmentsFrom(b, i) == [segment] + SegmentsFrom(b, end)
    ensures SegmentsFrom(w, n + i) == [segment] + SegmentsFrom(w, n + end)
  {
    var start;
    start, end, segment := FirstInSuffix(b, w, n, i);
    SegmentsStep(b, i, start, end, segment);
    SegmentsStep(w, n + i, n + start, n + end, segment);
  }

  lemma {:induction false} SegmentsInSuffix(b: string, w: string, n: nat, i: nat)
    requires n + |b| == |w| && w[n..] == b && i <= |b|
    ensures SegmentsFrom(w, n + i) == SegmentsFrom(b, i)
    decreases |b| - i
  {
    if SkipUnderscores(b, i) < |b| {
      var segment, end := StepInSuffix(b, w, n, i);
      SegmentsInSuffix(b, w, n, end);
    } else {
      CursorsInSuffix(b, w, n, i);
    }
  }

  lemma {:induction false} SliceOfSuffix(b: string, w: string, n: nat, i: nat, j: nat)
    requires n + |b| == |w| && w[n..] == b && i <= j <= |b|
    ensures w[n + i..n + j] == b[i..j]
  {
    forall k | 0 <= k < j - i
      ensures w[n + i..n + j][k] == b[i..j][k]
    {
      assert w[n..][i + k] == w[n + (i + k)];
    }
  }

  lemma {:induction false} SliceOfPrefix(a: string, w: string, i: nat, j: nat)
    requires |a| <= |w| && w[..|a|] == a && i <= j <= |a|
    ensures w[i..j] == a[i..j]
  {
    forall k | 0 <= k < j - i
      ensures w[i..j][k] == a[i..j][k]
    {
      assert w[..|a|][i + k] == w[i + k];
    }
  }

  lemma {:induction false} SegmentsInPrefix(a: string, w: string, i: nat)
    requires i <= |a| < |w| && w[..|a|] == a && w[|a|] == '_'
    ensures SegmentsFrom(w, i) == SegmentsFrom(a, i) + SegmentsFrom(w, |a| + 1)
    decreases |a| - i
  {
    if SkipUnderscores(a, i) < |a| {
      var segment, end := StepInPrefix(a, w, i);
      SegmentsInPrefix(a, w, end);
      Regroup([segment], SegmentsFrom(a, end), SegmentsFrom(w, |a| + 1));
    } else {
      CursorsInPrefix(a, w, i);
    }
  }

  lemma {:induction false} FirstInPrefix(a: string, w: string, i: nat) returns (start: nat, end: nat, segment: string)
    requires i <= |a| < |w| && w[..|a|] == a && w[|a|] == '_' && SkipUnderscores(a, i) < |a|
    ensures i <= start < end <= |a| && start == SkipUnderscores(a, i) && end == SegmentEnd(a, start) && segment == a[start..end]
    ensures start == SkipUnderscores(w, i) && end == SegmentEnd(w, start) && segment == w[start..end]
  {
    start := SkipUnderscores(a, i);
    end := SegmentEnd(a, start);
    segment := a[start..end];
    CursorsInPrefix(a, w, i);
    CursorsInPrefix(a, w, start);
    SliceOfPrefix(a, w, start, end);
  }

  lemma {:induction false} StepInPrefix(a: string, w: string, i: nat) returns (segment: string, end: nat)
    requires i <= |a| < |w| && w[..|a|] == a && w[|a|] == '_' && SkipUnderscores(a, i) < |a|
    ensures i < end <= |a|
    ensures SegmentsFrom(a, i) == [segment] + SegmentsFrom(a, end)
    ensures SegmentsFrom(w, i) == [segment] + SegmentsFrom(w, end)
  {
    var start;
    start, end, segment := FirstInPrefix(a, w, i);
    SegmentsStep(a, i, start, end, segment);
    SegmentsStep(w, i, start, end, segment);
  }

  lemma {:induction false} SegmentsOfJoined(a: string, b: string, w: string)
    requires |w| == |a| + 1 + |b| && w[..|a|] == a && w[|a|] == '_' && w[|a| + 1..] == b
    ensures SegmentsFrom(w, 0) == SegmentsFrom(a, 0) + SegmentsFrom(b, 0)
  {
    SegmentsInPrefix(a, w, 0);
    SegmentsInSuffix(b, w, |a| + 1, 0);
  }

  /** Segments are cut at every underscore, so with `OneSegment` this says what they are. */
  lemma {:induction false} SegmentsSplitAtUnderscore(a: string, b: string)
    ensures SegmentsFrom(a + "_" + b, 0) == SegmentsFrom(a, 0) + SegmentsFrom(b, 0)
  {
    SegmentsOfJoined(a, b, a + "_" + b);
  }

  // ----- The two cursors -----

  /** `next_identifier_word_segment`: the next segment of `word` and the cursor after it. */
  method NextIdentifierWordSegment(word: string, idx: nat) returns (segment: Option<string>, next: nat)
    requires idx <= |word|
    ensures next <= |word|
    ensures segment.None? ==> SegmentsFrom(word, idx) == [] && next == |word|
    ensures segment.Some? ==> idx < next && SegmentsFrom(word, idx) == [segment.value] + SegmentsFrom(word, next)
  {
    next := idx;
    while next < |word| && word[next] == '_'
      invariant idx <= next <= |word| && SkipUnderscores(word, next) == SkipUnderscores(word, idx)
    {
      next := next + 1;
    }
    if next >= |word| {
      return None, next;
    }
    var start := next;
    while next < |word| && word[next] != '_'
      invariant start <= next <= |word| && SegmentEnd(word, next) == SegmentEnd(word, start)
    {
      next := next + 1;
    }
    segment := Some(word[start..next]);
  }

  /** What is left of a keyword sequence at a two-part cursor. */
  function KeysAt(sequence: seq<string>, wordIdx: nat, segmentIdx: nat): seq<string>
    requires wordIdx < |sequence| ==> segmentIdx <= |sequence[wordIdx]|
  {
    if wordIdx >= |sequence| then [] else UpperAll(SegmentsFrom(sequence[wordIdx], segmentIdx)) + Keys(sequence[wordIdx + 1..])
  }

  lemma {:induction false} UpperFirst(segment: string, rest: seq<string>)
    ensures UpperAll([segment] + rest) == [Upper(segment)] + UpperAll(rest)
  {
  }

  lemma {:induction false} KeysAtSegment(sequence: seq<string>, w: nat, i: nat, segment: string, next: nat)
    requires w < |sequence| && i <= |sequence[w]| && next <= |sequence[w]|
    requires SegmentsFrom(sequence[w], i) == [segment] + SegmentsFrom(sequence[w], next)
    ensures KeysAt(sequence, w, i) == [Upper(segment)] + KeysAt(sequence, w, next)
  {
    var rest := SegmentsFrom(sequence[w], next);
    UpperFirst(segment, rest);
    Regroup([Upper(segment)], UpperAll(rest), Keys(sequence[w + 1..]));
  }

  lemma {:induction false} KeysAtNextWord(sequence: seq<string>, w: nat, i: nat)
    requires w < |sequence| && i <= |sequence[w]| && SegmentsFrom(sequence[w], i) == []
    ensures KeysAt(sequence, w, i) == KeysAt(sequence, w + 1, 0)
  {
    KeysFromFront(sequence[w + 1..]);
    assert UpperAll([]) + Keys(sequence[w + 1..]) == Keys(sequence[w + 1..]);
    if w + 1 < |sequence| {
      assert sequence[w + 1..][1..] == sequence[w + 2..];
    }
  }

  lemma {:induction false} KeysFromFront(words: seq<string>)
    ensures Keys(words) == if words == [] then [] else Key(words[0]) + Keys(words[1..])
  {
  }

  /** `next_identifier_sequence_segment`: the next segment of the whole sequence. */
  method NextIdentifierSequenceSegment(sequence: seq<string>, wordIdx: nat, segmentIdx: nat)
    returns (segment: Option<string>, wordIdx': nat, segmentIdx': nat)
    requires wordIdx < |sequence| ==> segmentIdx <= |sequence[wordIdx]|
    ensures wordIdx' < |sequence| ==> segmentIdx' <= |sequence[wordIdx']|
    ensures segment.None? ==> KeysAt(sequence, wordIdx, segmentIdx) == [] && KeysAt(sequence, wordIdx', segmentIdx') == []
    ensures segment.Some? ==>
      KeysAt(sequence, wordIdx, segmentIdx) == [Upper(segment.value)] + KeysAt(sequence, wordIdx', segmentIdx')
  {
    wordIdx', segmentIdx' := wordIdx, segmentIdx;
    while wordIdx' < |sequence|
      invariant wordIdx' < |sequence| ==> segmentIdx' <= |sequence[wordIdx']|
      invariant KeysAt(sequence, wordIdx', segmentIdx') == KeysAt(sequence, wordIdx, segmentIdx)
      decreases |sequence| - wordIdx'
    {
      var found, next := NextIdentifierWordSegment(sequence[wordIdx'], segmentIdx');
      if found.Some? {
        KeysAtSegment(sequence, wordIdx', segmentIdx', found.value, next);
        return found, wordIdx', next;
      }
      KeysAtNextWord(sequence, wordIdx', segmentIdx');
      wordIdx', segmentIdx' := wordIdx' + 1, 0;
    }
    segment := None;
  }

  lemma {:induction false} MismatchAt(done: seq<string>, x: string, rest: seq<string>, expected: seq<string>)
    requires expected == [] || expected[0] != x
    ensures !IsPrefixOf(done + ([x] + rest), done + expected)
  {
    assert (done + ([x] + rest))[|done|] == x;
    if expected != [] {
      assert (done + expected)[|done|] != x;
    }
  }

  lemma {:induction false} PrefixOfConcat(done: seq<string>, rest: seq<string>)
    ensures IsPrefixOf(done, done + rest)
  {
  }

  lemma {:induction false} NextSegmentKeys(word: string, a: nat, segment: string, next: nat)
    requires a <= |word| && next <= |word| && SegmentsFrom(word, a) == [segment] + SegmentsFrom(word, next)
    ensures UpperAll(SegmentsFrom(word, a)) == [Upper(segment)] + UpperAll(SegmentsFrom(word, next))
  {
    UpperAllConcat([segment], SegmentsFrom(word, next));
    assert UpperAll([segment]) == [Upper(segment)];
  }

  /** Walk all segments of one word against the sequence cursor. */
  method MatchWord(word: string, sequence: seq<string>, wordIdx: nat, segmentIdx: nat)
    returns (ok: bool, w: nat, s: nat)
    requires wordIdx < |sequence| ==> segmentIdx <= |sequence[wordIdx]|
    ensures w < |sequence| ==> s <= |sequence[w]|
    ensures ok <==> IsPrefixOf(Key(word), KeysAt(sequence, wordIdx, segmentIdx))
    ensures ok ==> KeysAt(sequence, wordIdx, segmentIdx) == Key(word) + KeysAt(sequence, w, s)
  {
    w, s := wordIdx, segmentIdx;
    var a: nat := 0;
    ghost var done: seq<string> := [];
    ghost var own, expectedAll := Key(word), KeysAt(sequence, wordIdx, segmentIdx);
    ghost var ownLeft, expectedLeft := own, expectedAll;
    while true
      invariant a <= |word| && (w < |sequence| ==> s <= |sequence[w]|)
      invariant ownLeft == UpperAll(SegmentsFrom(word, a)) && expectedLeft == KeysAt(sequence, w, s)
      invariant own == done + ownLeft && expectedAll == done + expectedLeft
      decreases |word| - a
    {
      var segment, next := NextIdentifierWordSegment(word, a);
      if segment.None? {
        assert own == done;
        PrefixOfConcat(done, expectedLeft);
        return true, w, s;
      }
      ghost var x := Upper(segment.value);
      NextSegmentKeys(word, a, segment.value, next);
      ownLeft := UpperAll(SegmentsFrom(word, next));
      var expected, w', s' := NextIdentifierSequenceSegment(sequence, w, s);
      if expected.None? || Upper(segment.value) != Upper(expected.value) {
        MismatchAt(done, x, ownLeft, expectedLeft);
        return false, w, s;
      }
      expectedLeft := KeysAt(sequence, w', s');
      Regroup(done, [x], ownLeft);
      Regroup(done, [x], expectedLeft);
      done := done + [x];
      a, w, s := next, w', s';
    }
  }

  lemma {:induction false} KeysAtStart(sequence: seq<string>)
    ensures KeysAt(sequence, 0, 0) == Keys(sequence)
  {
  }

  /**
    `identifier_word_matches_keyword_sequence`: the two-cursor walk accepts exactly when
    the flattened segments are equal ignoring case, however either side is cut into words.
   */
  method WordsMatchKeywordSequence(words: seq<string>, sequence: seq<string>) returns (ok: bool)
    ensures ok <==> Keys(words) == Keys(sequence)
  {
    var w: nat, s: nat := 0, 0;
    KeysAtStart(sequence);
    ghost var done: seq<string> := [];
    ghost var left := Keys(sequence);
    for k := 0 to |words|
      invariant w < |sequence| ==> s <= |sequence[w]|
      invariant left == KeysAt(sequence, w, s)
      invariant Keys(words) == done + Keys(words[k..])
      invariant Keys(sequence) == done + left
    {
      assert words[k..][1..] == words[k + 1..];
      ghost var key, rest := Key(words[k]), Keys(words[k + 1..]);
      assert Keys(words[k..]) == key + rest;
      var matched, w', s' := MatchWord(words[k], sequence, w, s);
      if !matched {
        NotAPrefix(done, key, rest, left);
        return false;
      }
      left := KeysAt(sequence, w', s');
      Regroup(done, key, rest);
      Regroup(done, key, left);
      done := done + key;
      w, s := w', s';
    }
    assert Keys(words[|words|..]) == [];
    assert Keys(words) == done;
    var more, _, _ := NextIdentifierSequenceSegment(sequence, w, s);
    ok := more.None?;
  }

  lemma {:induction false} NotAPrefix(done: seq<string>, key: seq<string>, rest: seq<string>, expected: seq<string>)
    requires !IsPrefixOf(key, expected)
    ensures done + (key + rest) != done + expected
  {
    if |key| <= |expected| {
      var i :| 0 <= i < |key| && key[i] != expected[i];
      assert (done + (key + rest))[|done| + i] == key[i];
      assert (done + expected)[|done| + i] == expected[i];
    }
  }
}
