/**
  The identifier words a line starts with, past whitespace and block comments,
  and whether they start with a keyword sequence (src/sql_text.rs).
 */
module LeadingWords {
  import opened Prelude
  import opened SqlBytes
  import opened IdentifierSegments

  // ----- Reading words -----

  /** The next byte that is neither whitespace nor comment; nothing when a comment swallows the rest. */
  function SkipBlank(b: string, i: nat): (r: Option<nat>)
    requires i <= |b|
    ensures r.Some? ==> i <= r.value <= |b|
    decreases |b| - i
  {
    if i == |b| then Some(i)
    else if IsAsciiWhitespace(b[i]) then SkipBlank(b, i + 1)
    else if SqlLineCommentPrefixLen(b, i).Some? then None
    else if StartsBlockComment(b, i) then
      match BodyEnd(b, i + 2, BlockComment)
      case None => None
      case Some(end) => SkipBlank(b, end)
    else Some(i)
  }

  /** The next leading word at or after `i`, as a range of bytes. */
  function NextWord(b: string, i: nat): (r: Option<(nat, nat)>)
    requires i <= |b|
    ensures r.Some? ==> i <= r.value.0 < r.value.1 <= |b|
  {
    match SkipBlank(b, i)
    case None => None
    case Some(start) =>
      if start == |b| || !IsIdentifierStartByte(b[start]) then None else Some((start, RunEnd(b, start + 1)))
  }

  function WordsFrom(b: string, i: nat): seq<string>
    requires i <= |b|
    decreases |b| - i
  {
    match NextWord(b, i)
    case None => []
    case Some((start, end)) => [b[start..end]] + WordsFrom(b, end)
  }

  function LeadingIdentifierWords(line: string): seq<string> {
    WordsFrom(line, 0)
  }

  /** The inner search for the end of a block comment. */
  method FindCommentEnd(b: string, from: nat) returns (end: Option<nat>)
    requires from <= |b|
    ensures end == BodyEnd(b, from, BlockComment)
  {
    var i := from;
    while i + 1 < |b|
      invariant from <= i <= |b| && BodyEnd(b, i, BlockComment) == BodyEnd(b, from, BlockComment)
    {
      assert b[i..i + 2] == [b[i], b[i + 1]];
      if b[i] == '*' && b[i + 1] == '/' {
        return Some(i + 2);
      }
      i := i + 1;
    }
    end := None;
  }

  method SkipWhitespaceAndComments(b: string, from: nat) returns (r: Option<nat>)
    requires from <= |b|
    ensures r == SkipBlank(b, from)
  {
    var i := from;
    while i < |b|
      invariant from <= i <= |b| && SkipBlank(b, i) == SkipBlank(b, from)
      decreases |b| - i
    {
      if IsAsciiWhitespace(b[i]) {
        i := i + 1;
        continue;
      }
      if SqlLineCommentPrefixLen(b, i).Some? {
        return None;
      }
      if StartsBlockComment(b, i) {
        var end := FindCommentEnd(b, i + 2);
        if end.None? {
          return None;
        }
        i := end.value;
        continue;
      }
      break;
    }
    r := Some(i);
  }

  method ReadNextWord(b: string, from: nat) returns (r: Option<(nat, nat)>)
    requires from <= |b|
    ensures r == NextWord(b, from)
  {
    var blank := SkipWhitespaceAndComments(b, from);
    if blank.None? || blank.value == |b| || !IsIdentifierStartByte(b[blank.value]) {
      return None;
    }
    var start := blank.value;
    var i := start + 1;
    while i < |b| && IsIdentifierByte(b[i])
      invariant start < i <= |b| && RunEnd(b, i) == RunEnd(b, start + 1)
    {
      i := i + 1;
    }
    r := Some((start, i));
  }

  /** `leading_identifier_words`. */
  method ReadLeadingIdentifierWords(line: string, maxIdentifiers: nat) returns (identifiers: seq<string>)
    ensures identifiers == FirstN(LeadingIdentifierWords(line), maxIdentifiers)
  {
    identifiers := [];
    var i := 0;
    while i < |line| && |identifiers| < maxIdentifiers
      invariant i <= |line| && |identifiers| <= maxIdentifiers
      invariant LeadingIdentifierWords(line) == identifiers + WordsFrom(line, i)
      decreases |line| - i
    {
      var word := ReadNextWord(line, i);
      if word.None? {
        assert LeadingIdentifierWords(line) == identifiers;
        return;
      }
      var (start, end) := word.value;
      ghost var rest := WordsFrom(line, end);
      Regroup(identifiers, [line[start..end]], rest);
      identifiers := identifiers + [line[start..end]];
      i := end;
    }
  }

  // ----- Starting with a keyword sequence -----

  lemma {:induction false} KeysOfShorterPrefix(words: seq<string>, m: nat, n: nat)
    requires m <= n <= |words|
    ensures IsPrefixOf(Keys(words[..m]), Keys(words[..n]))
  {
    assert words[..n] == words[..m] + words[m..n];
    KeysConcat(words[..m], words[m..n]);
  }

  /** No prefix of the words flattens to `expected` once `n` words fell short and the next one fails. */
  lemma {:induction false} NoPrefixMatches(words: seq<string>, n: nat, done: seq<string>, left: seq<string>)
    requires n <= |words| && Keys(words[..n]) == done && left != []
    requires n == |words| || !IsPrefixOf(Key(words[n]), left)
    ensures forall m :: 0 <= m <= |words| ==> Keys(words[..m]) != done + left
  {
    forall m | 0 <= m <= |words|
      ensures Keys(words[..m]) != done + left
    {
      if m <= n {
        KeysOfShorterPrefix(words, m, n);
      } else {
        var rest := words[..m][n..];
        assert words[..m] == words[..n] + rest;
        KeysConcat(words[..n], rest);
        assert rest[0] == words[n];
        NotAPrefix(done, Key(words[n]), Keys(rest[1..]), left);
      }
    }
  }

  /**
    `line_starts_with_identifier_sequence`: true exactly when some prefix of the line's
    leading words flattens to the segments of the sequence.
   */
  method LineStartsWithIdentifierSequence(line: string, sequence: seq<string>) returns (ok: bool)
    ensures ok <==> exists n :: 0 <= n <= |LeadingIdentifierWords(line)| && Keys(LeadingIdentifierWords(line)[..n]) == Keys(sequence)
  {
    ghost var words := LeadingIdentifierWords(line);
    ghost var expected := Keys(sequence);
    ghost var n: nat, done, left := 0, [], expected;
    assert words[..0] == [];
    if sequence == [] {
      assert Keys(words[..0]) == Keys(sequence);
      return true;
    }
    KeysAtStart(sequence);
    var expectedCount := |Keys(sequence)|;
    var i: nat, matched: nat, w: nat, s: nat := 0, 0, 0, 0;
    while i < |line| && matched < expectedCount
      invariant i <= |line| && n <= |words| && (w < |sequence| ==> s <= |sequence[w]|)
      invariant words == words[..n] + WordsFrom(line, i)
      invariant done == Keys(words[..n]) && matched == |done|
      invariant left == KeysAt(sequence, w, s) && expected == done + left
      decreases |line| - i
    {
      assert left != [];
      var word := ReadNextWord(line, i);
      if word.None? {
        NoPrefixMatches(words, n, done, left);
        return false;
      }
      var (start, end) := word.value;
      var identifier := line[start..end];
      assert words[n] == identifier;
      var good, w', s' := MatchWord(identifier, sequence, w, s);
      if !good {
        NoPrefixMatches(words, n, done, left);
        return false;
      }
      KeysGrow(words, n);
      Regroup(done, Key(identifier), KeysAt(sequence, w', s'));
      assert words[..n + 1] + WordsFrom(line, end) == words by {
        Regroup(words[..n], [identifier], WordsFrom(line, end));
        assert words[..n + 1] == words[..n] + [identifier];
      }
      n, done, left := n + 1, done + Key(identifier), KeysAt(sequence, w', s');
      matched := matched + |Key(identifier)|;
      i, w, s := end, w', s';
    }
    ok := matched == expectedCount;
    if ok {
      assert left == [];
      assert Keys(words[..n]) == expected;
    } else {
      assert WordsFrom(line, |line|) == [];
      NoPrefixMatches(words, n, done, left);
    }
  }

  lemma {:induction false} KeysGrow(words: seq<string>, n: nat)
    requires n < |words|
    ensures Keys(words[..n + 1]) == Keys(words[..n]) + Key(words[n])
  {
    assert words[..n + 1] == words[..n] + [words[n]];
    KeysConcat(words[..n], [words[n]]);
    assert [words[n]][1..] == [];
    assert Keys([words[n]]) == Key(words[n]);
  }
}
