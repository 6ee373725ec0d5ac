/** That the catalogues of the formatter's owners satisfy the hypotheses of the split-header theorems. */
module OwnerCatalogues {
  import opened Prelude
  import opened IdentifierSegments
  import opened BodyHeaders
  import opened BodyHeaderTheorems
  import opened OwnerHeaders

  function CatalogueKeys(catalogue: Catalogue): (r: seq<seq<WordKey>>)
    ensures |r| == |catalogue|
  {
    seq(|catalogue|, i requires 0 <= i < |catalogue| => KeyList(catalogue[i]))
  }

  function OwnerOf(kind: OwnerKind, endsFreeform: string -> bool): Owner {
    Owner(CatalogueKeys(SplitBodyHeaderSequences(kind)), FreeformIndices(kind), endsFreeform)
  }

  // ----- Keys of catalogue words -----

  predicate IsPlainWord(word: string) {
    word != "" && forall i :: 0 <= i < |word| ==> word[i] != '_'
  }

  ghost predicate IsPlainCatalogue(catalogue: Catalogue) {
    forall i :: 0 <= i < |catalogue| ==> catalogue[i] != [] && forall j :: 0 <= j < |catalogue[i]| ==> IsPlainWord(catalogue[i][j])
  }

  /** A word without underscores is one segment. */
  lemma {:induction false} KeyOfPlainWord(word: string)
    requires IsPlainWord(word)
    ensures Key(word) == [Upper(word)]
  {
    OneSegment(word);
  }

  lemma {:induction false} UpperIsKept(word: UpperWord)
    ensures IsPlainWord(word) && Upper(word) == word
  {
  }

  lemma {:induction false} KeyOfUpperWord(word: UpperWord)
    ensures Key(word) == [word]
  {
    UpperIsKept(word);
    KeyOfPlainWord(word);
  }

  lemma {:induction false} KeyOfDenseRank()
    ensures Key("DENSE_RANK") == ["DENSE", "RANK"]
  {
    var w := "DENSE_RANK";
    assert SkipUnderscores(w, 0) == 0;
    assert SegmentEnd(w, 5) == 5 && SegmentEnd(w, 4) == 5 && SegmentEnd(w, 3) == 5;
    assert SegmentEnd(w, 2) == 5 && SegmentEnd(w, 1) == 5 && SegmentEnd(w, 0) == 5;
    assert SkipUnderscores(w, 6) == 6 && SkipUnderscores(w, 5) == 6;
    assert SegmentEnd(w, 10) == 10 && SegmentEnd(w, 9) == 10 && SegmentEnd(w, 8) == 10;
    assert SegmentEnd(w, 7) == 10 && SegmentEnd(w, 6) == 10;
    assert w[0..5] == "DENSE" && w[6..10] == "RANK";
    assert SegmentsFrom(w, 10) == [];
    assert SegmentsFrom(w, 5) == ["RANK"];
    assert SegmentsFrom(w, 0) == ["DENSE", "RANK"];
    assert Upper("DENSE") == "DENSE" && Upper("RANK") == "RANK";
  }

  lemma {:induction false} OneSegmentEach(catalogue: Catalogue)
    requires IsPlainCatalogue(catalogue)
    ensures forall i, j :: 0 <= i < |catalogue| && 0 <= j < |catalogue[i]| ==>
      CatalogueKeys(catalogue)[i][j] == [Upper(catalogue[i][j])]
  {
    forall i, j | 0 <= i < |catalogue| && 0 <= j < |catalogue[i]|
      ensures CatalogueKeys(catalogue)[i][j] == [Upper(catalogue[i][j])]
    {
      KeyOfPlainWord(catalogue[i][j]);
    }
  }

  /** Any catalogue of at most 64 headers whose words hold no underscore is covered by the header theorems. */
  lemma {:induction false} PlainCatalogueIsWellFormed(catalogue: Catalogue, freeform: set<nat>, endsFreeform: string -> bool)
    requires |catalogue| <= 64 && IsPlainCatalogue(catalogue)
    ensures WellFormed(Owner(CatalogueKeys(catalogue), freeform, endsFreeform))
  {
    OneSegmentEach(catalogue);
  }

  lemma {:induction false} UpperHeadersArePlain(catalogue: seq<UpperHeader>)
    ensures IsPlainCatalogue(catalogue)
    ensures forall i, j :: 0 <= i < |catalogue| && 0 <= j < |catalogue[i]| ==> Upper(catalogue[i][j]) == catalogue[i][j]
  {
    forall i, j | 0 <= i < |catalogue| && 0 <= j < |catalogue[i]|
      ensures IsPlainWord(catalogue[i][j]) && Upper(catalogue[i][j]) == catalogue[i][j]
    {
      UpperIsKept(catalogue[i][j]);
    }
  }

  // ----- Every owner is covered by the theorems -----

  /** Keys are prefix free when equal first segments mean equal keys. */
  lemma {:induction false} PrefixFreeByFirstSegments(a: seq<WordKey>, b: seq<WordKey>)
    requires NoEmptyKey(a) && NoEmptyKey(b)
    requires forall i, j :: 0 <= i < |a| && 0 <= j < |b| && a[i][0] == b[j][0] ==> a[i] == b[j]
    ensures PrefixFree(a, b)
  {
    forall i, j | 0 <= i < |a| && 0 <= j < |b| && (IsPrefixOf(a[i], b[j]) || IsPrefixOf(b[j], a[i]))
      ensures a[i] == b[j]
    {
      var shorter := Min(|a[i]|, |b[j]|);
      assert a[i][..shorter][0] == a[i][0] && b[j][..shorter][0] == b[j][0];
    }
  }

  lemma {:induction false} KeepKeys(rank: string, d: string, r: string, last: UpperWord, order: UpperWord, b: UpperWord)
    requires Key(rank) == [d, r]
    ensures KeyList([rank, last, order, b]) == KeepShape(d, r, last, order, b)
  {
    KeyOfUpperWord(last);
    KeyOfUpperWord(order);
    KeyOfUpperWord(b);
  }

  function KeepShape(d: string, r: string, x: string, o: string, b: string): seq<WordKey> {
    [[d, r], [x], [o], [b]]
  }

  lemma {:induction false} KeepShapesArePrefixFree(d: string, r: string, x: string, y: string, o: string, b: string)
    requires d != x && d != y && d != o && d != b && x != o && x != b && y != o && y != b && o != b
    ensures NoEmptyKey(KeepShape(d, r, x, o, b)) && PrefixFree(KeepShape(d, r, x, o, b), KeepShape(d, r, y, o, b))
  {
    PrefixFreeByFirstSegments(KeepShape(d, r, x, o, b), KeepShape(d, r, y, o, b));
  }

  lemma {:induction false} TwoSequencesAreWellFormed(o: Owner, a: seq<WordKey>, b: seq<WordKey>)
    requires o.sequences == [a, b] && a != [] && b != [] && NoEmptyKey(a) && NoEmptyKey(b)
    requires PrefixFree(a, a) && PrefixFree(a, b) && PrefixFree(b, a) && PrefixFree(b, b)
    ensures WellFormed(o)
  {
  }

  lemma {:induction false} KeepOwnerIsWellFormed(
    owner: Owner, rank: string, d: string, r: string, x: UpperWord, y: UpperWord, o: UpperWord, b: UpperWord)
    requires Key(rank) == [d, r]
    requires d != x && d != y && d != o && d != b && x != o && x != b && y != o && y != b && o != b
    requires owner.sequences == CatalogueKeys([[rank, x, o, b], [rank, y, o, b]])
    ensures WellFormed(owner)
  {
    KeepKeys(rank, d, r, x, o, b);
    KeepKeys(rank, d, r, y, o, b);
    KeepShapesArePrefixFree(d, r, x, x, o, b);
    KeepShapesArePrefixFree(d, r, x, y, o, b);
    KeepShapesArePrefixFree(d, r, y, x, o, b);
    KeepShapesArePrefixFree(d, r, y, y, o, b);
    TwoSequencesAreWellFormed(owner, KeepShape(d, r, x, o, b), KeepShape(d, r, y, o, b));
  }

  lemma {:induction false} KeepWordsAreCapitals()
    ensures IsCapitals("FIRST") && IsCapitals("LAST") && IsCapitals("ORDER") && IsCapitals("BY")
  {
  }

  lemma {:induction false} KeepIsWellFormed(endsFreeform: string -> bool)
    ensures WellFormed(OwnerOf(Keep, endsFreeform))
  {
    KeyOfDenseRank();
    DifferentWords();
    KeepWordsAreCapitals();
    KeepOwnerIsWellFormed(OwnerOf(Keep, endsFreeform), "DENSE_RANK", "DENSE", "RANK", "FIRST", "LAST", "ORDER", "BY");
  }

  lemma {:induction false} DifferentWords()
    ensures "DENSE" != "FIRST" && "DENSE" != "LAST" && "DENSE" != "ORDER" && "DENSE" != "BY"
    ensures "FIRST" != "LAST" && "FIRST" != "ORDER" && "FIRST" != "BY"
    ensures "LAST" != "ORDER" && "LAST" != "BY" && "ORDER" != "BY"
  {
    assert "DENSE"[0] == 'D' && "FIRST"[0] == 'F' && "LAST"[0] == 'L' && "ORDER"[0] == 'O' && "BY"[0] == 'B';
  }

  /** No header longer than a free-form one starts with its word. */
  lemma {:induction false} FirstWordFixesLength(kind: OwnerKind, i: nat, j: nat)
    requires i in FreeformIndices(kind)
    requires var catalogue := SplitBodyHeaderSequences(kind);
      i < |catalogue| && j < |catalogue| && catalogue[i] != [] && catalogue[j] != [] && catalogue[i][0] == catalogue[j][0]
    ensures |SplitBodyHeaderSequences(kind)[i]| == |SplitBodyHeaderSequences(kind)[j]|
  {
  }

  /** The free-form headers of window owners and of MATCH_RECOGNIZE start no longer header. */
  lemma {:induction false} FreeformHeadersAreFinal(kind: OwnerKind, endsFreeform: string -> bool)
    ensures FreeformIsFinal(OwnerOf(kind, endsFreeform))
  {
    var catalogue := SplitBodyHeaderSequences(kind);
    if FreeformIndices(kind) != {} {
      UpperHeadersArePlain(UpperHeaders(kind));
      OneSegmentEach(UpperHeaders(kind));
      var keys := CatalogueKeys(catalogue);
      forall i, j | 0 <= i < |keys| && 0 <= j < |keys| && i in FreeformIndices(kind) && IsPrefixOf(keys[i], keys[j])
        ensures |keys[i]| == |keys[j]|
      {
        assert keys[j][0] == keys[j][..|keys[i]|][0] == keys[i][0];
        FirstWordFixesLength(kind, i, j);
      }
    }
  }

  /** The catalogue of every owner satisfies the hypotheses of the split-header theorems. */
  lemma {:induction false} EveryOwnerIsWellFormed(kind: OwnerKind, endsFreeform: string -> bool)
    ensures WellFormed(OwnerOf(kind, endsFreeform)) && FreeformIsFinal(OwnerOf(kind, endsFreeform))
  {
    FreeformHeadersAreFinal(kind, endsFreeform);
    if kind == Keep {
      KeepIsWellFormed(endsFreeform);
    } else {
      UpperHeadersArePlain(UpperHeaders(kind));
      PlainCatalogueIsWellFormed(UpperHeaders(kind), FreeformIndices(kind), endsFreeform);
    }
  }
}
