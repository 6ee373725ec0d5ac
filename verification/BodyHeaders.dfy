/**
  Split body headers (src/sql_text.rs): a header such as `ORDER BY` may be spread
  over several lines, and the formatter follows it with a mask of candidate
  keyword sequences and the number of sequence words matched so far.
 */
module BodyHeaders {
  import opened Prelude
  import opened BitMask
  import IdentifierSegments
  import LeadingWords
  import Trimming
  import ParenProfile

  // ----- Words and sequences, by their keys -----

  /** A word as the matchers see it: its case-folded segments. */
  type WordKey = seq<string>

  function KeyList(words: seq<string>): (r: seq<WordKey>)
    ensures |r| == |words|
  {
    seq(|words|, i requires 0 <= i < |words| => IdentifierSegments.Key(words[i]))
  }

  function Flat(keys: seq<WordKey>): seq<string> {
    if keys == [] then [] else keys[0] + Flat(keys[1..])
  }

  /** Comparing flattened keys is what `identifier_word_matches_keyword_sequence` decides. */
  lemma {:induction false} FlatIsKeys(words: seq<string>)
    ensures Flat(KeyList(words)) == IdentifierSegments.Keys(words)
  {
    if words != [] {
      assert KeyList(words)[1..] == KeyList(words[1..]);
      FlatIsKeys(words[1..]);
    }
  }

  lemma {:induction false} FlatConcat(a: seq<WordKey>, b: seq<WordKey>)
    ensures Flat(a + b) == Flat(a) + Flat(b)
    decreases |a|
  {
    if a == [] {
      assert a + b == b;
    } else {
      assert (a + b)[1..] == a[1..] + b;
      FlatConcat(a[1..], b);
    }
  }

  /** How many words it takes to collect `needed` segments, and how many segments they hold. */
  function Gather(words: seq<WordKey>, needed: nat): (r: (nat, nat))
    ensures r.0 <= |words|
    decreases |words|
  {
    if needed == 0 || words == [] then (0, 0)
    else if |words[0]| >= needed then (1, |words[0]|)
    else
      var (count, total) := Gather(words[1..], needed - |words[0]|);
      (count + 1, |words[0]| + total)
  }

  /** `leading_words_match_keyword_prefix`: how many words of `sequence` the words spell, from the start. */
  function MatchedWords(words: seq<WordKey>, sequence: seq<WordKey>): (r: nat)
    ensures r <= |sequence|
    decreases |sequence|
  {
    if sequence == [] || words == [] then 0
    else
      var (count, total) := Gather(words, |sequence[0]|);
      if total != |sequence[0]| || Flat(words[..count]) != sequence[0] then 0
      else 1 + MatchedWords(words[count..], sequence[1..])
  }

  method GatherWords(words: seq<WordKey>, from: nat, needed: nat) returns (end: nat, total: nat)
    requires from <= |words|
    ensures from <= end <= |words|
    ensures (end - from, total) == Gather(words[from..], needed)
  {
    end, total := from, 0;
    while end < |words| && total < needed
      invariant from <= end <= |words|
      invariant total <= needed ==>
        var (count, more) := Gather(words[end..], needed - total);
        (end - from + count, total + more) == Gather(words[from..], needed)
      invariant total > needed ==> (end - from, total) == Gather(words[from..], needed)
    {
      assert words[end..][1..] == words[end + 1..];
      total := total + |words[end]|;
      end := end + 1;
    }
  }

  method LeadingWordsMatchKeywordPrefix(words: seq<WordKey>, sequence: seq<WordKey>) returns (matched: nat)
    ensures matched == MatchedWords(words, sequence)
  {
    matched := 0;
    var consumed := 0;
    while matched < |sequence| && consumed < |words|
      invariant matched <= |sequence| && consumed <= |words|
      invariant MatchedWords(words, sequence) == matched + MatchedWords(words[consumed..], sequence[matched..])
      decreases |sequence| - matched
    {
      var expected := sequence[matched];
      var end, total := GatherWords(words, consumed, |expected|);
      assert words[consumed..][..end - consumed] == words[consumed..end];
      assert words[consumed..][end - consumed..] == words[end..];
      assert sequence[matched..][1..] == sequence[matched + 1..];
      if total > |expected| {
        return;
      }
      if total != |expected| || Flat(words[consumed..end]) != expected {
        break;
      }
      matched, consumed := matched + 1, end;
    }
  }

  // ----- The automaton -----

  /**
    The owner of a parenthesized body: its header sequences, which of them go on in free
    form once complete, and which line starts end a free-form header.
   */
  datatype Owner = Owner(sequences: seq<seq<WordKey>>, freeform: set<nat>, endsFreeform: string -> bool)

  datatype HeaderState = Sequence(candidateMask: Mask, matchedWords: nat) | Freeform

  datatype LineState = LineState(isHeader: bool, next: Option<HeaderState>)

  const NO_HEADER := LineState(false, None)

  function LineWords(line: string): seq<WordKey> {
    KeyList(LeadingWords.LeadingIdentifierWords(Trimming.TrimStart(line)))
  }

  /** Whether sequence `i` takes part: all do at the start of a header, then only those in the mask. */
  predicate Among(among: Option<Mask>, i: nat) {
    among.None? || Has(among.value, i)
  }

  function LongestRest(o: Owner, among: Option<Mask>, matched: nat, n: nat): (r: nat)
    requires n <= |o.sequences|
    ensures forall i :: 0 <= i < n && Among(among, i) ==> |o.sequences[i]| - matched <= r
  {
    if n == 0 then 0
    else
      var longest := LongestRest(o, among, matched, n - 1);
      if Among(among, n - 1) then Max(longest, |o.sequences[n - 1]| - matched) else longest
  }

  /** How many words of sequence `i` are matched in total after `words`; 0 when nothing new matches. */
  function Score(o: Owner, among: Option<Mask>, matched: nat, words: seq<WordKey>, i: nat): nat
    requires i < |o.sequences|
  {
    if !Among(among, i) || matched >= |o.sequences[i]| then 0
    else
      var more := MatchedWords(words, o.sequences[i][matched..]);
      if more == 0 then 0 else matched + more
  }

  /** The sequences among the first `n` with the best score, as a mask, and that score. */
  function BestUpTo(o: Owner, among: Option<Mask>, matched: nat, words: seq<WordKey>, n: nat): (Mask, nat)
    requires n <= |o.sequences|
  {
    if n == 0 then (0, 0)
    else
      var (mask, best) := BestUpTo(o, among, matched, words, n - 1);
      var score := Score(o, among, matched, words, n - 1);
      if score == 0 || score < best then (mask, best)
      else if score > best then (With(0, n - 1), score)
      else (With(mask, n - 1), best)
  }

  /** `best_split_body_header_prefix_match` (no mask) and `..._continuation_match` (with a mask). */
  function BestMatch(o: Owner, among: Option<Mask>, matched: nat, line: string): Option<(Mask, nat)> {
    var n := |o.sequences|;
    var words := FirstN(LineWords(line), LongestRest(o, among, matched, n));
    if words == [] then None
    else
      var (mask, best) := BestUpTo(o, among, matched, words, n);
      if best > 0 then Some((mask, best)) else None
  }

  function IncompleteUpTo(o: Owner, mask: Mask, matched: nat, n: nat): Mask
    requires n <= |o.sequences|
  {
    if n == 0 then 0
    else
      var before := IncompleteUpTo(o, mask, matched, n - 1);
      if Has(mask, n - 1) && matched < |o.sequences[n - 1]| then With(before, n - 1) else before
  }

  predicate CompletesFreeform(o: Owner, mask: Mask, matched: nat, n: nat)
    requires n <= |o.sequences|
  {
    exists i :: 0 <= i < n && Has(mask, i) && matched >= |o.sequences[i]| && i in o.freeform
  }

  function NextState(o: Owner, mask: Mask, matched: nat): Option<HeaderState> {
    var n := |o.sequences|;
    var incomplete := IncompleteUpTo(o, mask, matched, n);
    if CompletesFreeform(o, mask, matched, n) then Some(Freeform)
    else if incomplete != 0 then Some(Sequence(incomplete, matched))
    else None
  }

  predicate FreeformContinues(o: Owner, line: string) {
    && line != ""
    && ParenProfile.LeadingCloses(ParenProfile.LineTokens(line)) == 0
    && BestMatch(o, None, 0, line).None?
    && !o.endsFreeform(line)
  }

  /** `body_header_line_state`. */
  function LineStateOf(o: Owner, text: string, previous: Option<HeaderState>): LineState {
    var line := Trimming.TrimStart(text);
    if line == "" then NO_HEADER
    else
      var continued := if previous.Some? && previous.value.Sequence?
        then BestMatch(o, Some(previous.value.candidateMask), previous.value.matchedWords, line) else None;
      if continued.Some? then LineState(true, NextState(o, continued.value.0, continued.value.1))
      else if previous == Some(Freeform) && FreeformContinues(o, line) then LineState(true, Some(Freeform))
      else
        match BestMatch(o, None, 0, line)
        case Some((mask, matched)) => LineState(true, NextState(o, mask, matched))
        case None => NO_HEADER
  }

  method FindLongestRest(o: Owner, among: Option<Mask>, matchedWords: nat) returns (longest: nat)
    ensures longest == LongestRest(o, among, matchedWords, |o.sequences|)
  {
    longest := 0;
    for i := 0 to |o.sequences|
      invariant longest == LongestRest(o, among, matchedWords, i)
    {
      if Among(among, i) && |o.sequences[i]| > matchedWords + longest {
        longest := |o.sequences[i]| - matchedWords;
      }
    }
  }

  method FindBest(o: Owner, among: Option<Mask>, matchedWords: nat, words: seq<WordKey>) returns (bestMask: Mask, best: nat)
    ensures (bestMask, best) == BestUpTo(o, among, matchedWords, words, |o.sequences|)
  {
    bestMask, best := 0, 0;
    for i := 0 to |o.sequences|
      invariant (bestMask, best) == BestUpTo(o, among, matchedWords, words, i)
    {
      if !Among(among, i) || matchedWords >= |o.sequences[i]| {
        continue;
      }
      var more := LeadingWordsMatchKeywordPrefix(words, o.sequences[i][matchedWords..]);
      if more == 0 {
        continue;
      }
      var total := matchedWords + more;
      if total > best {
        bestMask, best := With(0, i), total;
      } else if total == best {
        bestMask := With(bestMask, i);
      }
    }
  }

  method FindBestMatch(o: Owner, among: Option<Mask>, matchedWords: nat, line: string) returns (r: Option<(Mask, nat)>)
    ensures r == BestMatch(o, among, matchedWords, line)
  {
    var longest := FindLongestRest(o, among, matchedWords);
    var words := FirstN(LineWords(line), longest);
    if words == [] {
      return None;
    }
    var bestMask, best := FindBest(o, among, matchedWords, words);
    r := if best > 0 then Some((bestMask, best)) else None;
  }

  method NextContinuationState(o: Owner, mask: Mask, matchedWords: nat) returns (r: Option<HeaderState>)
    ensures r == NextState(o, mask, matchedWords)
  {
    var incomplete: Mask, completedFreeform := 0, false;
    for i := 0 to |o.sequences|
      invariant incomplete == IncompleteUpTo(o, mask, matchedWords, i)
      invariant completedFreeform <==> CompletesFreeform(o, mask, matchedWords, i)
    {
      if !Has(mask, i) {
        continue;
      }
      if matchedWords < |o.sequences[i]| {
        incomplete := With(incomplete, i);
      } else if i in o.freeform {
        completedFreeform := true;
      }
    }
    r := if completedFreeform then Some(Freeform) else if incomplete != 0 then Some(Sequence(incomplete, matchedWords)) else None;
  }

  method BodyHeaderLineState(o: Owner, text: string, previous: Option<HeaderState>) returns (r: LineState)
    ensures r == LineStateOf(o, text, previous)
  {
    var line := Trimming.TrimStart(text);
    if line == "" {
      return NO_HEADER;
    }
    if previous.Some? {
      match previous.value {
        case Sequence(mask, matched) =>
          var continued := FindBestMatch(o, Some(mask), matched, line);
          if continued.Some? {
            var next := NextContinuationState(o, continued.value.0, continued.value.1);
            return LineState(true, next);
          }
        case Freeform =>
          if FreeformContinues(o, line) {
            return LineState(true, Some(Freeform));
          }
      }
    }
    var first := FindBestMatch(o, None, 0, line);
    if first.Some? {
      var next := NextContinuationState(o, first.value.0, first.value.1);
      return LineState(true, next);
    }
    r := NO_HEADER;
  }
}
