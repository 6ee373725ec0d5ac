/**
  What the split-header automaton promises (src/sql_text.rs), for every
  well-formed catalogue: the invariant of its reachable states, and that cutting
  a header into lines does not change where it leads.
 */
module BodyHeaderTheorems {
  import opened Prelude
  import opened BitMask
  import opened BodyHeaders

  // ----- Catalogues -----

  /** No key of one list is a proper prefix of a key of the other. */
  ghost predicate PrefixFree(a: seq<WordKey>, b: seq<WordKey>) {
    forall i, j :: 0 <= i < |a| && 0 <= j < |b| && (IsPrefixOf(a[i], b[j]) || IsPrefixOf(b[j], a[i])) ==> a[i] == b[j]
  }

  ghost predicate NoEmptyKey(s: seq<WordKey>) {
    forall i :: 0 <= i < |s| ==> s[i] != []
  }

  /**
    At most 64 non-empty sequences whose words are not cut differently by underscores: no
    word's segments are a proper prefix of another's.  Words without underscores qualify.
   */
  ghost predicate WellFormed(o: Owner) {
    && |o.sequences| <= 64
    && (forall i :: 0 <= i < |o.sequences| ==> o.sequences[i] != [] && NoEmptyKey(o.sequences[i]))
    && (forall i, j :: 0 <= i < |o.sequences| && 0 <= j < |o.sequences| ==> PrefixFree(o.sequences[i], o.sequences[j]))
  }

  /** No free-form sequence is a proper prefix of another one. */
  predicate FreeformIsFinal(o: Owner) {
    forall i, j :: 0 <= i < |o.sequences| && 0 <= j < |o.sequences| && i in o.freeform ==>
      IsPrefixOf(o.sequences[i], o.sequences[j]) ==> |o.sequences[i]| == |o.sequences[j]|
  }

  // ----- What the best match is -----

  lemma {:induction false} BestUpToIsBest(o: Owner, among: Option<Mask>, matched: nat, words: seq<WordKey>, n: nat)
    requires n <= |o.sequences|
    ensures var (mask, best) := BestUpTo(o, among, matched, words, n);
      && (forall i :: 0 <= i < n ==> Score(o, among, matched, words, i) <= best)
      && (forall i: nat :: Has(mask, i) <==> i < n && best > 0 && Score(o, among, matched, words, i) == best)
      && (best > 0 ==> exists i :: 0 <= i < n && Has(mask, i))
  {
    if n == 0 {
      forall i: nat
        ensures !Has(0, i)
      {
        ZeroHasNone(i);
      }
    } else {
      BestUpToIsBest(o, among, matched, words, n - 1);
      var (mask, best) := BestUpTo(o, among, matched, words, n - 1);
      forall i: nat
        ensures Has(With(0, n - 1), i) <==> i == n - 1
        ensures Has(With(mask, n - 1), i) <==> i == n - 1 || Has(mask, i)
      {
        ZeroHasNone(i);
        HasWith(0, n - 1, i);
        HasWith(mask, n - 1, i);
      }
    }
  }

  lemma {:induction false} IncompleteBits(o: Owner, mask: Mask, matched: nat, n: nat)
    requires n <= |o.sequences|
    ensures forall i: nat :: Has(IncompleteUpTo(o, mask, matched, n), i) <==> i < n && Has(mask, i) && matched < |o.sequences[i]|
  {
    if n == 0 {
      forall i: nat
        ensures !Has(0, i)
      {
        ZeroHasNone(i);
      }
    } else {
      IncompleteBits(o, mask, matched, n - 1);
      var before := IncompleteUpTo(o, mask, matched, n - 1);
      forall i: nat
        ensures Has(IncompleteUpTo(o, mask, matched, n), i) <==> i < n && Has(mask, i) && matched < |o.sequences[i]|
      {
        HasWith(before, n - 1, i);
        assert Has(before, i) <==> i < n - 1 && Has(mask, i) && matched < |o.sequences[i]|;
      }
    }
  }

  lemma {:induction false} IncompleteFits(o: Owner, mask: Mask, matched: nat, n: nat)
    requires n <= |o.sequences| <= 64
    ensures IncompleteUpTo(o, mask, matched, n) < Pow2(64)
  {
    if n == 0 {
      PowerIsPositive(64);
    } else {
      IncompleteFits(o, mask, matched, n - 1);
      WithFits(IncompleteUpTo(o, mask, matched, n - 1), n - 1, 64);
    }
  }

  lemma {:induction false} PowerIsPositive(n: nat)
    ensures Pow2(n) > 0
  {
    if n > 0 {
      PowerIsPositive(n - 1);
    }
  }

  // ----- Candidates agree on what they matched -----

  lemma {:induction false} GatherMonotone(words: seq<WordKey>, low: nat, high: nat)
    requires low <= high
    ensures Gather(words, low).0 <= Gather(words, high).0
    decreases |words|
  {
    if low > 0 && words != [] && |words[0]| < low {
      GatherMonotone(words[1..], low - |words[0]|, high - |words[0]|);
    }
  }

  lemma {:induction false} FlatPrefix(words: seq<WordKey>, m: nat, n: nat)
    requires m <= n <= |words|
    ensures IsPrefixOf(Flat(words[..m]), Flat(words[..n]))
  {
    assert words[..n] == words[..m] + words[m..n];
    FlatConcat(words[..m], words[m..n]);
  }

  lemma {:induction false} FirstMatchIsPrefix(words: seq<WordKey>, a: seq<WordKey>, b: seq<WordKey>)
    requires MatchedWords(words, a) > 0 && MatchedWords(words, b) > 0 && |a[0]| <= |b[0]|
    ensures IsPrefixOf(a[0], b[0])
  {
    GatherMonotone(words, |a[0]|, |b[0]|);
    FlatPrefix(words, Gather(words, |a[0]|).0, Gather(words, |b[0]|).0);
  }

  lemma {:induction false} FirstWordsAgree(words: seq<WordKey>, a: seq<WordKey>, b: seq<WordKey>)
    requires PrefixFree(a, b) && MatchedWords(words, a) > 0 && MatchedWords(words, b) > 0
    ensures a[0] == b[0]
  {
    if |a[0]| <= |b[0]| {
      FirstMatchIsPrefix(words, a, b);
    } else {
      FirstMatchIsPrefix(words, b, a);
    }
  }

  lemma {:induction false} MatchedBehindFirst(words: seq<WordKey>, a: seq<WordKey>)
    requires MatchedWords(words, a) > 0
    ensures MatchedWords(words[Gather(words, |a[0]|).0..], a[1..]) == MatchedWords(words, a) - 1
  {
  }

  lemma {:induction false} SamePrefix(a: seq<WordKey>, b: seq<WordKey>, k: nat)
    requires 0 < k <= |a| && k <= |b| && a[0] == b[0] && a[1..][..k - 1] == b[1..][..k - 1]
    ensures a[..k] == b[..k]
  {
    assert a[..k] == [a[0]] + a[1..][..k - 1];
    assert b[..k] == [b[0]] + b[1..][..k - 1];
  }

  /** Two sequences matched by the same words agree on every word that both matched. */
  lemma {:induction false} MatchedSequencesAgree(words: seq<WordKey>, a: seq<WordKey>, b: seq<WordKey>, k: nat)
    requires PrefixFree(a, b)
    requires k <= MatchedWords(words, a) && k <= MatchedWords(words, b)
    ensures a[..k] == b[..k]
    decreases k
  {
    if k > 0 {
      FirstWordsAgree(words, a, b);
      PrefixFreeTails(a, b, 1);
      MatchedBehindFirst(words, a);
      MatchedBehindFirst(words, b);
      MatchedSequencesAgree(words[Gather(words, |a[0]|).0..], a[1..], b[1..], k - 1);
      SamePrefix(a, b, k);
    }
  }

  lemma {:induction false} PrefixFreeTails(a: seq<WordKey>, b: seq<WordKey>, k: nat)
    requires PrefixFree(a, b) && k <= |a| && k <= |b|
    ensures PrefixFree(a[k..], b[k..])
  {
    forall i, j | 0 <= i < |a[k..]| && 0 <= j < |b[k..]| && (IsPrefixOf(a[k..][i], b[k..][j]) || IsPrefixOf(b[k..][j], a[k..][i]))
      ensures a[k..][i] == b[k..][j]
    {
      assert a[k..][i] == a[k + i] && b[k..][j] == b[k + j];
    }
  }

  // ----- The invariant of reachable states -----

  /** Candidates are valid, unfinished, and agree on everything matched so far; the mask fits 64 bits. */
  ghost predicate CandidatesOk(o: Owner, mask: Mask, matched: nat) {
    && mask < Pow2(64)
    && (exists i: nat :: Has(mask, i))
    && matched > 0
    && (forall i: nat :: Has(mask, i) ==> i < |o.sequences| && matched < |o.sequences[i]|)
    && (forall i: nat, j: nat :: Has(mask, i) && Has(mask, j) ==> o.sequences[i][..matched] == o.sequences[j][..matched])
  }

  ghost predicate StateOk(o: Owner, state: Option<HeaderState>) {
    state.Some? && state.value.Sequence? ==> CandidatesOk(o, state.value.candidateMask, state.value.matchedWords)
  }

  /** What a best match guarantees when it starts from nothing or from a good state. */
  lemma {:induction false} BestMatchOk(o: Owner, among: Option<Mask>, matched: nat, line: string)
    requires WellFormed(o)
    requires among.Some? ==> CandidatesOk(o, among.value, matched)
    requires among.None? ==> matched == 0
    requires BestMatch(o, among, matched, line).Some?
    ensures var (mask, total) := BestMatch(o, among, matched, line).value;
      && total > matched
      && (forall i: nat :: Has(mask, i) ==> i < |o.sequences| && total <= |o.sequences[i]| && Among(among, i))
      && (forall i: nat, j: nat :: Has(mask, i) && Has(mask, j) ==> o.sequences[i][..total] == o.sequences[j][..total])
  {
    var n := |o.sequences|;
    var words := FirstN(LineWords(line), LongestRest(o, among, matched, n));
    BestUpToIsBest(o, among, matched, words, n);
    var (mask, total) := BestMatch(o, among, matched, line).value;
    var some :| 0 <= some < n && Has(mask, some);
    assert Score(o, among, matched, words, some) == total;
    forall i: nat, j: nat | Has(mask, i) && Has(mask, j)
      ensures o.sequences[i][..total] == o.sequences[j][..total]
    {
      AgreeOnTotal(o, among, matched, words, total, i, j);
    }
  }

  lemma {:induction false} AgreeOnTotal(
    o: Owner, among: Option<Mask>, matched: nat, words: seq<WordKey>, total: nat, i: nat, j: nat)
    requires WellFormed(o) && i < |o.sequences| && j < |o.sequences| && total > 0
    requires among.Some? ==> CandidatesOk(o, among.value, matched)
    requires among.None? ==> matched == 0
    requires Score(o, among, matched, words, i) == total && Score(o, among, matched, words, j) == total
    ensures o.sequences[i][..total] == o.sequences[j][..total]
  {
    var a, b := o.sequences[i], o.sequences[j];
    assert a[..matched] == b[..matched];
    PrefixFreeTails(a, b, matched);
    MatchedSequencesAgree(words, a[matched..], b[matched..], total - matched);
    PrefixInTwoParts(a, matched, total);
    PrefixInTwoParts(b, matched, total);
  }

  lemma {:induction false} PrefixInTwoParts(a: seq<WordKey>, m: nat, n: nat)
    requires m <= n <= |a|
    ensures a[..n] == a[..m] + a[m..][..n - m]
  {
  }

  lemma {:induction false} NextStateOk(o: Owner, mask: Mask, matched: nat)
    requires WellFormed(o) && matched > 0
    requires forall i: nat :: Has(mask, i) ==> i < |o.sequences| && matched <= |o.sequences[i]|
    requires forall i: nat, j: nat :: Has(mask, i) && Has(mask, j) ==> o.sequences[i][..matched] == o.sequences[j][..matched]
    ensures StateOk(o, NextState(o, mask, matched))
  {
    var n := |o.sequences|;
    IncompleteBits(o, mask, matched, n);
    IncompleteFits(o, mask, matched, n);
    var incomplete := IncompleteUpTo(o, mask, matched, n);
    if incomplete != 0 {
      var j := NonZeroHasBit(incomplete);
    }
  }

  /** One line keeps the invariant. */
  lemma {:induction false} LineKeepsStateOk(o: Owner, text: string, previous: Option<HeaderState>)
    requires WellFormed(o) && StateOk(o, previous)
    ensures StateOk(o, LineStateOf(o, text, previous).next)
  {
    var line := Trimming.TrimStart(text);
    if previous.Some? && previous.value.Sequence? {
      var Sequence(mask, matched) := previous.value;
      if BestMatch(o, Some(mask), matched, line).Some? {
        BestMatchOk(o, Some(mask), matched, line);
        var (newMask, total) := BestMatch(o, Some(mask), matched, line).value;
        NextStateOk(o, newMask, total);
      }
    }
    if BestMatch(o, None, 0, line).Some? {
      BestMatchOk(o, None, 0, line);
      var (newMask, total) := BestMatch(o, None, 0, line).value;
      NextStateOk(o, newMask, total);
    }
  }

  /** The state after a run of lines, each starting from the state the line before left. */
  function StateAfter(o: Owner, lines: seq<string>): LineState {
    if lines == [] then NO_HEADER
    else LineStateOf(o, lines[|lines| - 1], StateAfter(o, lines[..|lines| - 1]).next)
  }

  /** Every reachable state is good: non-empty 64-bit masks of unfinished candidates that agree so far. */
  lemma {:induction false} ReachableStatesOk(o: Owner, lines: seq<string>)
    requires WellFormed(o)
    ensures StateOk(o, StateAfter(o, lines).next)
  {
    if lines != [] {
      ReachableStatesOk(o, lines[..|lines| - 1]);
      LineKeepsStateOk(o, lines[|lines| - 1], StateAfter(o, lines[..|lines| - 1]).next);
    }
  }

  /** A continuation keeps only old candidates and strictly increases the matched words, so a header ends. */
  lemma {:induction false} ContinuationMakesProgress(o: Owner, lines: seq<string>, line: string)
    requires WellFormed(o)
    requires StateAfter(o, lines).next.Some? && StateAfter(o, lines).next.value.Sequence?
    ensures var Sequence(mask, matched) := StateAfter(o, lines).next.value;
      BestMatch(o, Some(mask), matched, line).Some? ==>
        var (newMask, total) := BestMatch(o, Some(mask), matched, line).value;
        total > matched && forall i: nat :: Has(newMask, i) ==> Has(mask, i)
  {
    ReachableStatesOk(o, lines);
    var Sequence(mask, matched) := StateAfter(o, lines).next.value;
    if BestMatch(o, Some(mask), matched, line).Some? {
      BestMatchOk(o, Some(mask), matched, line);
    }
  }

  // ----- Splitting a header across lines -----

  function CommonPrefix(a: seq<WordKey>, b: seq<WordKey>): (r: nat)
    ensures r <= |a| && r <= |b|
    ensures r == |a| <==> IsPrefixOf(a, b)
    decreases |a|
  {
    if a == [] || b == [] || a[0] != b[0] then 0
    else
      assert a == [a[0]] + a[1..] && b == [b[0]] + b[1..];
      assert |a| <= |b| ==> b[..|a|] == [b[0]] + b[1..][..|a| - 1];
      1 + CommonPrefix(a[1..], b[1..])
  }

  /** On words spelled like the catalogue's own, matching is word by word; what follows counts only behind all of them. */
  lemma {:induction false} OwnWordsMatchOneByOne(own: seq<WordKey>, extra: seq<WordKey>, sequence: seq<WordKey>)
    requires PrefixFree(own, sequence) && NoEmptyKey(own) && NoEmptyKey(sequence)
    ensures MatchedWords(own + extra, sequence) ==
      if IsPrefixOf(own, sequence) then |own| + MatchedWords(extra, sequence[|own|..]) else CommonPrefix(own, sequence)
    decreases |own|
  {
    if own == [] {
      assert own + extra == extra && sequence[0..] == sequence;
    } else if sequence != [] {
      FirstOwnWord(own, extra, sequence);
      if own[0] == sequence[0] {
        PrefixFreeTails(own, sequence, 1);
        OwnWordsMatchOneByOne(own[1..], extra, sequence[1..]);
        FirstAndRest(own, sequence);
      }
    }
  }

  lemma {:induction false} FirstAndRest(own: seq<WordKey>, sequence: seq<WordKey>)
    requires own != [] && sequence != [] && own[0] == sequence[0]
    ensures IsPrefixOf(own, sequence) <==> IsPrefixOf(own[1..], sequence[1..])
    ensures IsPrefixOf(own, sequence) ==> sequence[1..][|own[1..]|..] == sequence[|own|..]
  {
    assert own == [own[0]] + own[1..];
    assert |own| <= |sequence| ==> sequence[..|own|] == [sequence[0]] + sequence[1..][..|own| - 1];
  }

  lemma {:induction false} FirstOwnWord(own: seq<WordKey>, extra: seq<WordKey>, sequence: seq<WordKey>)
    requires PrefixFree(own, sequence) && NoEmptyKey(own) && NoEmptyKey(sequence) && own != [] && sequence != []
    ensures MatchedWords(own + extra, sequence) ==
      if own[0] == sequence[0] then 1 + MatchedWords(own[1..] + extra, sequence[1..]) else 0
  {
    var words := own + extra;
    var (count, total) := Gather(words, |sequence[0]|);
    FlatPrefix(words, 1, count);
    assert words[..1] == [own[0]] && [own[0]][1..] == [];
    assert Flat(words[..1]) == own[0];
    assert words[1..] == own[1..] + extra;
  }

  /** `words` continue the header `done` that all candidates share, towards sequence `s`. */
  ghost predicate Continues(o: Owner, s: nat, done: seq<WordKey>, words: seq<WordKey>) {
    s < |o.sequences| && words != [] && IsPrefixOf(done + words, o.sequences[s])
  }

  /** The candidates in play after the words `done`: every sequence that starts with them and goes on. */
  ghost predicate InPlay(o: Owner, done: seq<WordKey>, among: Option<Mask>) {
    forall i: nat :: i < |o.sequences| && |done| < |o.sequences[i]| ==> (Among(among, i) <==> IsPrefixOf(done, o.sequences[i]))
  }

  /** The words `extra` go on with no sequence that starts with `header`. */
  ghost predicate ExtendsNone(o: Owner, header: seq<WordKey>, extra: seq<WordKey>) {
    forall i :: 0 <= i < |o.sequences| && IsPrefixOf(header, o.sequences[i]) ==> MatchedWords(extra, o.sequences[i][|header|..]) == 0
  }

  lemma {:induction false} ScoreOfOwnWords(
    o: Owner, s: nat, done: seq<WordKey>, own: seq<WordKey>, extra: seq<WordKey>, among: Option<Mask>, i: nat)
    requires WellFormed(o) && Continues(o, s, done, own) && InPlay(o, done, among) && i < |o.sequences|
    requires ExtendsNone(o, done + own, extra)
    ensures Score(o, among, |done|, own + extra, i) <= |done| + |own|
    ensures Score(o, among, |done|, own + extra, i) == |done| + |own| <==> IsPrefixOf(done + own, o.sequences[i])
  {
    var main, other, k := o.sequences[s], o.sequences[i], |done|;
    SplitPrefix(done, own, main);
    SplitPrefix(done, own, other);
    if k < |other| && IsPrefixOf(done, other) {
      OwnIsPrefixFree(main, other, own, k);
      OwnWordsMatchOneByOne(own, extra, other[k..]);
      assert IsPrefixOf(own, other[k..]) ==> other[k..][|own|..] == other[|done + own|..];
    }
  }

  lemma {:induction false} OwnIsPrefixFree(main: seq<WordKey>, other: seq<WordKey>, own: seq<WordKey>, k: nat)
    requires PrefixFree(main, other) && NoEmptyKey(main) && k <= |main| && k <= |other| && IsPrefixOf(own, main[k..])
    ensures PrefixFree(own, other[k..]) && NoEmptyKey(own)
  {
    PrefixFreeTails(main, other, k);
    forall j | 0 <= j < |own|
      ensures own[j] == main[k..][j] && own[j] == main[k + j]
    {
      assert own[j] == main[k..][..|own|][j];
    }
  }

  lemma {:induction false} SplitPrefix(done: seq<WordKey>, words: seq<WordKey>, other: seq<WordKey>)
    ensures IsPrefixOf(done + words, other) <==> IsPrefixOf(done, other) && IsPrefixOf(words, other[|done|..])
  {
    if IsPrefixOf(done + words, other) {
      assert other[..|done|] == (done + words)[..|done|];
      assert other[|done|..][..|words|] == (done + words)[|done|..];
    }
    if IsPrefixOf(done, other) && IsPrefixOf(words, other[|done|..]) {
      assert other[..|done| + |words|] == other[..|done|] + other[|done|..][..|words|];
    }
  }

  /** Cutting words that extend no sequence leaves words that extend none. */
  lemma {:induction false} NothingMatchesFewer(extra: seq<WordKey>, n: nat, sequence: seq<WordKey>)
    requires MatchedWords(extra, sequence) == 0 && NoEmptyKey(sequence)
    ensures MatchedWords(FirstN(extra, n), sequence) == 0
  {
    var fewer := FirstN(extra, n);
    if sequence != [] && fewer != [] && Gather(fewer, |sequence[0]|).1 == |sequence[0]| {
      GatherOfFewer(extra, n, |sequence[0]|);
      assert fewer[..Gather(fewer, |sequence[0]|).0] == extra[..Gather(fewer, |sequence[0]|).0];
    }
  }

  lemma {:induction false} GatherOfFewer(words: seq<WordKey>, n: nat, needed: nat)
    requires Gather(FirstN(words, n), needed).1 == needed
    ensures Gather(words, needed) == Gather(FirstN(words, n), needed)
    decreases |words|
  {
    var fewer := FirstN(words, n);
    if needed > 0 && fewer != [] && |words[0]| < needed {
      assert fewer[1..] == FirstN(words[1..], n - 1);
      GatherOfFewer(words[1..], n - 1, needed - |words[0]|);
    }
  }

  lemma {:induction false} FewerExtendsNone(o: Owner, header: seq<WordKey>, extra: seq<WordKey>, n: nat)
    requires WellFormed(o) && ExtendsNone(o, header, extra)
    ensures ExtendsNone(o, header, FirstN(extra, n))
  {
    forall i | 0 <= i < |o.sequences| && IsPrefixOf(header, o.sequences[i])
      ensures MatchedWords(FirstN(extra, n), o.sequences[i][|header|..]) == 0
    {
      NothingMatchesFewer(extra, n, o.sequences[i][|header|..]);
    }
  }

  lemma {:induction false} BestOfOwnWords(
    o: Owner, s: nat, done: seq<WordKey>, own: seq<WordKey>, extra: seq<WordKey>, among: Option<Mask>)
    requires WellFormed(o) && Continues(o, s, done, own) && InPlay(o, done, among) && ExtendsNone(o, done + own, extra)
    ensures var (mask, best) := BestUpTo(o, among, |done|, own + extra, |o.sequences|);
      && best == |done| + |own|
      && forall i: nat :: Has(mask, i) <==> i < |o.sequences| && IsPrefixOf(done + own, o.sequences[i])
  {
    var n := |o.sequences|;
    BestUpToIsBest(o, among, |done|, own + extra, n);
    forall i: nat | i < n
      ensures Score(o, among, |done|, own + extra, i) <= |done| + |own|
      ensures Score(o, among, |done|, own + extra, i) == |done| + |own| <==> IsPrefixOf(done + own, o.sequences[i])
    {
      ScoreOfOwnWords(o, s, done, own, extra, among, i);
    }
    assert Score(o, among, |done|, own + extra, s) == |done| + |own|;
  }

  /** The header's own words are never cut off. */
  lemma {:induction false} OwnWordsAreUsed(
    o: Owner, s: nat, done: seq<WordKey>, own: seq<WordKey>, extra: seq<WordKey>, among: Option<Mask>)
    returns (n: nat)
    requires Continues(o, s, done, own) && InPlay(o, done, among)
    ensures FirstN(own + extra, LongestRest(o, among, |done|, |o.sequences|)) == own + FirstN(extra, n)
  {
    SplitPrefix(done, own, o.sequences[s]);
    assert Among(among, s);
    n := LongestRest(o, among, |done|, |o.sequences|) - |own|;
  }

  /**
    Feeding the header's own next words, with anything behind them that extends no candidate,
    selects exactly the sequences that start with all header words so far.
   */
  lemma {:induction false} BestMatchOfOwnWords(
    o: Owner, s: nat, done: seq<WordKey>, own: seq<WordKey>, extra: seq<WordKey>, among: Option<Mask>, line: string)
    requires WellFormed(o) && Continues(o, s, done, own) && InPlay(o, done, among)
    requires LineWords(line) == own + extra && ExtendsNone(o, done + own, extra)
    ensures var all := done + own;
      && BestMatch(o, among, |done|, line).Some?
      && BestMatch(o, among, |done|, line).value.1 == |all|
      && forall i: nat :: Has(BestMatch(o, among, |done|, line).value.0, i) <==> i < |o.sequences| && IsPrefixOf(all, o.sequences[i])
  {
    var n := OwnWordsAreUsed(o, s, done, own, extra, among);
    FewerExtendsNone(o, done + own, extra, n);
    BestOfOwnWords(o, s, done, own, FirstN(extra, n), among);
  }

  function AllWords(lines: seq<string>): seq<WordKey> {
    if lines == [] then [] else AllWords(lines[..|lines| - 1]) + LineWords(lines[|lines| - 1])
  }

  /** `state` is the one reached by feeding `done` in any way: its mask holds the sequences that start with `done`. */
  ghost predicate ReachedBy(o: Owner, done: seq<WordKey>, state: LineState) {
    exists mask: Mask ::
      && (forall i: nat :: Has(mask, i) <==> i < |o.sequences| && IsPrefixOf(done, o.sequences[i]))
      && state == LineState(true, NextState(o, mask, |done|))
  }

  lemma {:induction false} ReachedByIsUnique(o: Owner, done: seq<WordKey>, a: LineState, b: LineState)
    requires ReachedBy(o, done, a) && ReachedBy(o, done, b)
    ensures a == b
  {
    var p: Mask :| (forall i: nat :: Has(p, i) <==> i < |o.sequences| && IsPrefixOf(done, o.sequences[i]))
      && a == LineState(true, NextState(o, p, |done|));
    var q: Mask :| (forall i: nat :: Has(q, i) <==> i < |o.sequences| && IsPrefixOf(done, o.sequences[i]))
      && b == LineState(true, NextState(o, q, |done|));
    SameBitsSameMask(p, q);
  }

  lemma {:induction false} FinalGoesFurther(a: seq<WordKey>, b: seq<WordKey>, done: seq<WordKey>)
    requires IsPrefixOf(done, a) && IsPrefixOf(done, b) && |done| < |b|
    requires IsPrefixOf(a, b) ==> |a| == |b|
    ensures |done| < |a|
  {
    assert a[..|a|] == a;
  }

  /** In the middle of a header the state is the sequence state whose candidates are all sequences in play. */
  lemma {:induction false} MiddleOfHeader(o: Owner, s: nat, done: seq<WordKey>, state: LineState)
    requires WellFormed(o) && FreeformIsFinal(o) && ReachedBy(o, done, state) && done != []
    requires s < |o.sequences| && IsPrefixOf(done, o.sequences[s]) && |done| < |o.sequences[s]|
    ensures state.isHeader && state.next.Some? && state.next.value.Sequence?
    ensures state.next.value.matchedWords == |done|
    ensures InPlay(o, done, Some(state.next.value.candidateMask))
  {
    var mask: Mask :| (forall i: nat :: Has(mask, i) <==> i < |o.sequences| && IsPrefixOf(done, o.sequences[i]))
      && state == LineState(true, NextState(o, mask, |done|));
    var n := |o.sequences|;
    IncompleteBits(o, mask, |done|, n);
    forall i: nat | i < n && Has(mask, i) && i in o.freeform
      ensures |done| < |o.sequences[i]|
    {
      FinalGoesFurther(o.sequences[i], o.sequences[s], done);
    }
    ZeroHasNone(s);
  }

  lemma {:induction false} WordsNeedText(text: string)
    requires LineWords(text) != []
    ensures Trimming.TrimStart(text) != ""
    ensures LineWords(Trimming.TrimStart(text)) == LineWords(text)
  {
  }

  /** The last line may go on behind the header with words that extend no candidate. */
  lemma {:induction false} HeaderPrefixReached(o: Owner, s: nat, lines: seq<string>, header: seq<WordKey>, extra: seq<WordKey>)
    requires WellFormed(o) && FreeformIsFinal(o) && lines != [] && s < |o.sequences|
    requires forall t :: 0 <= t < |lines| ==> LineWords(lines[t]) != []
    requires AllWords(lines) == header + extra && |extra| < |LineWords(lines[|lines| - 1])|
    requires IsPrefixOf(header, o.sequences[s]) && ExtendsNone(o, header, extra)
    ensures ReachedBy(o, header, StateAfter(o, lines))
    decreases |lines|
  {
    var n := |lines| - 1;
    var before, last := lines[..n], lines[n];
    var done, line := AllWords(before), Trimming.TrimStart(last);
    WordsNeedText(last);
    var own := HeaderOnLastLine(done, LineWords(last), header, extra);
    SplitPrefix(done, own, o.sequences[s]);
    if n == 0 {
      assert done == [];
      BestMatchOfOwnWords(o, s, done, own, extra, None, line);
    } else {
      HeaderPrefixReached(o, s, before, done, []);
      AllWordsNotEmpty(before);
      MiddleOfHeader(o, s, done, StateAfter(o, before));
      BestMatchOfOwnWords(o, s, done, own, extra, Some(StateAfter(o, before).next.value.candidateMask), line);
    }
  }

  lemma {:induction false} HeaderOnLastLine(done: seq<WordKey>, words: seq<WordKey>, header: seq<WordKey>, extra: seq<WordKey>)
    returns (own: seq<WordKey>)
    requires done + words == header + extra && |extra| < |words|
    ensures own != [] && words == own + extra && header == done + own
  {
    own := words[..|words| - |extra|];
    assert header == (done + words)[..|header|];
    assert extra == (done + words)[|header|..];
  }

  lemma {:induction false} AllWordsNotEmpty(lines: seq<string>)
    requires lines != [] && LineWords(lines[|lines| - 1]) != []
    ensures AllWords(lines) != []
  {
  }

  /**
    Splitting a header across lines does not matter: words spelled like the start of a
    catalogue sequence, cut into any non-empty chunks with one chunk per line, mark every
    line as a header and end in the state that the same words reach on one line.  The last
    line may hold further words, as long as they extend no sequence that starts like this.
   */
  lemma {:induction false} SplitHeaderLikeOneLine(
    o: Owner, s: nat, lines: seq<string>, whole: string, header: seq<WordKey>, extra: seq<WordKey>)
    requires WellFormed(o) && FreeformIsFinal(o) && lines != [] && s < |o.sequences|
    requires forall t :: 0 <= t < |lines| ==> LineWords(lines[t]) != []
    requires LineWords(whole) == AllWords(lines) == header + extra && |extra| < |LineWords(lines[|lines| - 1])|
    requires IsPrefixOf(header, o.sequences[s]) && ExtendsNone(o, header, extra)
    ensures forall t :: 0 < t <= |lines| ==> StateAfter(o, lines[..t]).isHeader
    ensures StateAfter(o, lines) == LineStateOf(o, whole, None)
  {
    HeaderPrefixReached(o, s, lines, header, extra);
    forall t | 0 < t <= |lines|
      ensures StateAfter(o, lines[..t]).isHeader
    {
      if t < |lines| {
        EveryLineIsHeader(o, s, lines, header, extra, t);
      } else {
        assert lines[..t] == lines;
      }
    }
    OneLine(whole);
    LastLineIsPart(lines);
    assert StateAfter(o, [whole]) == LineStateOf(o, whole, None);
    HeaderPrefixReached(o, s, [whole], header, extra);
    ReachedByIsUnique(o, header, StateAfter(o, lines), StateAfter(o, [whole]));
  }

  lemma {:induction false} LastLineIsPart(lines: seq<string>)
    requires lines != []
    ensures |LineWords(lines[|lines| - 1])| <= |AllWords(lines)|
  {
  }

  lemma {:induction false} OneLine(whole: string)
    ensures AllWords([whole]) == LineWords(whole) && [whole][..0] == []
  {
    assert [whole][..0] == [];
    assert [] + LineWords(whole) == LineWords(whole);
  }

  lemma {:induction false} EveryLineIsHeader(
    o: Owner, s: nat, lines: seq<string>, header: seq<WordKey>, extra: seq<WordKey>, t: nat)
    requires WellFormed(o) && FreeformIsFinal(o) && 0 < t < |lines| && s < |o.sequences|
    requires forall t :: 0 <= t < |lines| ==> LineWords(lines[t]) != []
    requires AllWords(lines) == header + extra && |extra| < |LineWords(lines[|lines| - 1])|
    requires IsPrefixOf(header, o.sequences[s])
    ensures StateAfter(o, lines[..t]).isHeader
  {
    var n := |lines| - 1;
    StartIsPrefix(lines[..n], LineWords(lines[n]), header, extra, o.sequences[s], t);
    assert lines[..n][..t] == lines[..t];
    HeaderPrefixReached(o, s, lines[..t], AllWords(lines[..t]), []);
  }

  /** What the first `t` lines in front of the last one spell is a start of the header. */
  lemma {:induction false} StartIsPrefix(
    before: seq<string>, words: seq<WordKey>, header: seq<WordKey>, extra: seq<WordKey>, sequence: seq<WordKey>, t: nat)
    requires AllWords(before) + words == header + extra && |extra| < |words| && t <= |before| && IsPrefixOf(header, sequence)
    ensures IsPrefixOf(AllWords(before[..t]), sequence)
  {
    var own := HeaderOnLastLine(AllWords(before), words, header, extra);
    SplitPrefix(AllWords(before), own, sequence);
    AllWordsPrefix(before, t);
    PrefixTransitive(AllWords(before[..t]), AllWords(before), sequence);
  }

  lemma {:induction false} PrefixTransitive(a: seq<WordKey>, b: seq<WordKey>, c: seq<WordKey>)
    requires IsPrefixOf(a, b) && IsPrefixOf(b, c)
    ensures IsPrefixOf(a, c)
  {
    assert c[..|a|] == c[..|b|][..|a|];
  }

  lemma {:induction false} AllWordsPrefix(lines: seq<string>, t: nat)
    requires t <= |lines|
    ensures IsPrefixOf(AllWords(lines[..t]), AllWords(lines))
    decreases |lines|
  {
    if t < |lines| {
      var n := |lines| - 1;
      AllWordsPrefix(lines[..n], t);
      assert lines[..n][..t] == lines[..t];
    } else {
      assert lines[..t] == lines;
    }
  }
}
