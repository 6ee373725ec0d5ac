# Space Query: a model of its text engines, with proofs

Space Query is a desktop SQL client for Oracle, MySQL and MariaDB.  This project models the
parts of it whose correctness cannot be read off the page, in Dafny, and proves what they
promise: for every input, every run, every interleaving or every reachable state.

What is modelled, file by file of the repository:

- `src/sql_delimiter.rs`: the stack of open brackets with its per-depth close counters, the
  boundaries that ask "has the frame I was in been closed since?", and the line-start snapshots
  that replay one line instead of everything (`DelimiterFrames`,
  `DelimiterTheorems`, `DelimiterMeaning`).
- `src/sql_text.rs`, the cache: the bounded most-recently-used cache in front of the
  MySQL-syntax classifier, as a state machine over the atomic steps of any number of calls
  (`MysqlCompatCache`, `CacheInterleavings`).
- `src/sql_text.rs`, the scanners: trailing identifier words with their backward fast path
  (`TrailingIdentifiers`, `TrailingAgreement`), literals that run over several lines
  (`LineScanner`, `MultilineStrings`), significant parentheses (`ParenProfile`), and what all of
  them make of the pieces every text consists of: code, literals and comments (`SqlBytes`,
  `LiteralBodies`, `Pieces`, `LineMeaning`, `TextMeaning`).
- `src/sql_text.rs`, the matchers: keyword matching by underscore segments
  (`IdentifierSegments`, `LeadingWords`, `LeadingAgreement`), the split body-header automaton with
  its candidate masks (`BitMask`, `BodyHeaders`, `BodyHeaderTheorems`) and the owners' catalogues
  (`OwnerHeaders`, `OwnerCatalogues`).
- `src/sql_text.rs`, quoted identifiers: recognizing and unwrapping them (`QuotedIdentifiers`).
- `src/bin/oracle_compare_test_all.rs`: recursive include expansion over an arbitrary file
  system (`IncludeExpansion`, `IncludeLines`, `IncludeTheorems`, `IncludeFixedPoint`) and the reassembly of
  result grids from interleaved progress events (`GridReassembly`).
- `scripts/verify_oracle_cli.py`: regrouping the flat list of tables SQL*Plus prints into nested
  cursor grids (`CursorGrids`, `CursorTheorems`, `CursorPartition`).
- `scripts/generate_builtin_signatures.py`: the counter-based splitter of overload signatures
  against the stack-based balance check (`SignatureSplit`).
- `build.rs`: the bytes of the icon file (`IconFile`).

Loops and objects of the source are methods and classes here, each proved equal to a function on
values; the theorems are lemmas about those functions.  `dafny verify dfyconfig.toml` checks the
whole project.  Automatic induction is switched off on every lemma, so each proof is the one
written down.

## How the source is read

- A text is a sequence of characters, one per byte.
- The scanners' mutually exclusive flags (`in_single_quote`, `q_quote_end`, ...) are one value of
  type `Mode`.
- `usize` and `u64` limits are written out wherever the code saturates or wraps: the close
  counters wrap at 2^64, the cache's byte total and the parenthesis depth saturate.
- Functions of the source that a model takes as parameters, and that may therefore be anything:
  the MySQL-syntax classifier, the parser of `DELIMITER` lines, the tests that end a free-form
  body header, the file system, and the pattern that recognizes a printed cursor marker.

Where the promise and the code differ, the code is modelled and the exact condition is proved:

- A boundary forgets a closing after exactly 2^64 closes at its depth
  (`DelimiterTheorems.BoundaryIsExactIff`, `DelimiterTheorems.BoundaryWrapsAround`).
- The fast path for trailing words drops a run such as `1e5` of which the tokenizer keeps `e5`
  (`TrailingAgreement.TrailingWordsAgreeIff`, `TrailingAgreement.DigitLedWordIsDropped`).
- The comment at src/sql_text.rs:3190-3196 reads an entry as the end of the literal the line
  starts in; a second literal on the line overwrites it (`LineScanner.EntryIsFirstCloseIff`,
  `MultilineStrings.SecondLiteralOverwrites`).
- A parenthesis depth at the largest `usize` loses opens but not their closes
  (`ParenProfile.DepthIsReflectedIff`, `ParenProfile.SaturationLosesAnOpen`).
- Expanding an expanded script again drops carriage returns that stand before newlines
  (`IncludeFixedPoint.ReexpansionIsIdentityIff`).
- The reader of leading words knows no literals and takes the `q` of a q-quote for a word
  (`LeadingAgreement.LeadingWordsComeFirstIff`, `LeadingAgreement.QQuoteReadAsWord`).
- A `*` at the end of a line's leading code and the `/` of a block comment right behind it read as
  the end of an earlier comment, and the parentheses inside the comment count
  (`LineMeaning.EventsAreCodeParensIff`, `LineMeaning.CommentedParenCounts`).
- A positive line count below the number of lines makes the multi-line scanner index out of range,
  and one above it does exactly when the text ends in a newline inside a literal
  (`MultilineStrings.ContinuationPrefixLengths`).
- An include path that holds `--`, starts with `@`, ends in `;` or touches a comment with a final
  `-` is read differently (`IncludeLines.IncludeLineNamesItsPathIff`,
  `IncludeLines.DashesCutThePath`).

## Model

| member | source | states |
|---|---|---|
| DelimiterFrames.RecordClose | src/sql_delimiter.rs:206-219 | after a close at a depth, exactly that depth's counter is one more (modulo 2^64) and every other counter reads as before, however far the vector had to grow; an untracked state stays untracked |
| DelimiterFrames.RunStrictConcat | src/sql_delimiter.rs:155-176 | feeding two texts one after the other is feeding their concatenation, so frames depend only on the characters seen and not on how they were cut into tokens |
| DelimiterFrames.DetectRunConcat | src/sql_delimiter.rs:178-204 | close detection over a concatenation stops in the first part if it finds something there and otherwise goes on from the state the first part left |
| DelimiterFrames.SymbolTextConcat | src/sql_delimiter.rs:124-142 | only the characters of symbol tokens reach the frames, in token order |
| DelimiterFrames.DelimiterFrameState.Default | src/sql_delimiter.rs:67-71 | a default state has no frames and keeps no counters |
| DelimiterFrames.DelimiterFrameState.WithBoundaryTracking | src/sql_delimiter.rs:74-79 | a tracking state has no frames and an empty counter vector |
| DelimiterFrames.DelimiterFrameState.FromSnapshot | src/sql_delimiter.rs:46-51 | a replay state starts with the snapshot's visible frames and keeps no counters |
| DelimiterFrames.DelimiterFrameState.RecordSuccessfulClose | src/sql_delimiter.rs:206-219 | the resize-and-increment on the fields is `RecordClose` at the current depth and touches no frame |
| DelimiterFrames.DelimiterFrameState.ApplySymbolStrict | src/sql_delimiter.rs:155-176 | the loop over one symbol takes the whole object state to `RunStrict` of the old one, the run all boundary theorems are about |
| DelimiterFrames.DelimiterFrameState.ApplyToken | src/sql_delimiter.rs:124-130 | a symbol token is applied, any other token changes nothing |
| DelimiterFrames.DelimiterFrameState.ApplySymbolWithCloseDetection | src/sql_delimiter.rs:178-204 | the early-returning loop gives both the state and the answer of `DetectRun`, the run all snapshot theorems are about |
| DelimiterFrames.DelimiterFrameState.ApplyTokenWithCloseDetection | src/sql_delimiter.rs:132-142 | detection on a symbol token, `false` and no change on any other |
| DelimiterFrames.LineStartSnapshotBeforeToken | src/sql_delimiter.rs:222-232 | the snapshot holds the frames left by exactly the tokens before the line, padded below with wildcards up to the baseline |
| DelimiterFrames.LineClosesFrameBelowSnapshot | src/sql_delimiter.rs:234-257 | the token loop answers whether replaying the tokens of the line from the snapshot lands below the baseline, with the empty-line and zero-baseline cases |
| DelimiterTheorems.GenerationsCountLandings | src/sql_delimiter.rs:206-219 | over any text, each counter is its old value plus the number of closes that landed on its depth, modulo 2^64 |
| DelimiterTheorems.WasBelowIffLanded | src/sql_delimiter.rs:155-176 | the stack is at some moment shorter than a depth it started at if and only if some close lands one below that depth |
| DelimiterTheorems.BoundaryAnswer | src/sql_delimiter.rs:94-122 | the exact answer of a boundary after any text, wrap-around included |
| DelimiterTheorems.BoundaryIsExactIff | src/sql_delimiter.rs:94-122 | a boundary tells the truth about "was the stack ever shorter since" if and only if the closes counted at its depth are zero or not a multiple of 2^64 |
| DelimiterTheorems.BoundaryDetectsClosing | src/sql_delimiter.rs:112-122 | after fewer than 2^64 closes a boundary reports exactly the texts during which the stack was shorter than its depth |
| DelimiterTheorems.BoundaryWrapsAround | src/sql_delimiter.rs:216-218 | the bound is needed: after 2^64 close-and-reopen rounds the boundary denies a closing that happened |
| DelimiterTheorems.RunFramesRefinesRunStrict | src/sql_delimiter.rs:155-176 | a replay on frames that carry their opening moment has the same kinds as the real stack |
| DelimiterTheorems.BottomFramesUntilBelow | src/sql_delimiter.rs:155-176 | the frames open at the start stay untouched exactly until the stack first gets shorter; afterwards that level is gone or reopened |
| DelimiterTheorems.BoundaryTracksFrameIdentity | src/sql_delimiter.rs:94-122 | a boundary denies a closing exactly when the very frames that were open when it was taken are still the bottom frames, even if depth and kinds came back |
| DelimiterTheorems.DetectionIsWasBelow | src/sql_delimiter.rs:178-204 | without wildcard frames, detection is exactly "the strict stack drops below the baseline" |
| DelimiterTheorems.SnapshotReplayRefinesFullReplay | src/sql_delimiter.rs:144-257 | for a baseline no deeper than the real stack, replaying one line from its snapshot answers true exactly when the strict stack of the whole token prefix drops below the baseline inside the line |
| DelimiterTheorems.DetectionMonotone | src/sql_delimiter.rs:178-204 | a deeper baseline never loses a detection |
| DelimiterTheorems.DetectionIgnoresOuterFrames | src/sql_delimiter.rs:178-204 | frames below the baseline frame never influence the answer |
| DelimiterTheorems.SnapshotConstantFromVisibleDepth | src/sql_delimiter.rs:144-153 | once the baseline is at least one and reaches the visible depth, the answer no longer depends on it: wildcard padding is neutral |
| DelimiterTheorems.SnapshotMonotoneInBaseline | src/sql_delimiter.rs:144-257 | the answer of the whole snapshot path is monotone in the baseline |
| DelimiterMeaning.NestedTextIsNeutral | src/sql_delimiter.rs:155-176 | for text from a grammar of nested brackets, with any closers in it that fit no frame, the stack ends as it began and is never shorter on the way |
| DelimiterMeaning.NestedTextKeepsBoundary | src/sql_delimiter.rs:330-342 | no boundary reports a closing while such text goes by, whatever its length |
| DelimiterMeaning.OwnCloserCloses | src/sql_delimiter.rs:155-176 | the innermost frame's own closer, after any such text, pops exactly that frame and its boundary reports it |
| MysqlCompatCache.Position | src/sql_text.rs:2822-2837 | the index found is the first entry with that statement, and none is found only if there is none |
| MysqlCompatCache.FindPosition | src/sql_text.rs:2822-2837 | the search loop computes `Position` |
| MysqlCompatCache.CacheState.constructor | src/sql_text.rs:2778-2785 | a new cache is empty with a zero byte total |
| MysqlCompatCache.CacheState.Lookup | src/sql_text.rs:2818-2830 | the first critical section computes `LookedUp` on the deque and the total, and never takes the fallback |
| MysqlCompatCache.CacheState.Insert | src/sql_text.rs:2833-2852 | the second critical section, eviction loop included, computes `Inserted` on the deque and the total and terminates |
| MysqlCompatCache.CacheState.EvictToLimits | src/sql_text.rs:2845-2852 | the eviction loop pops entries off the back until both limits hold, computes `Evicted` on the deque and the total, and terminates |
| MysqlCompatCache.EvictedIsLongestFittingPrefix | src/sql_text.rs:2845-2852 | eviction keeps the longest prefix that fits both limits and the byte total stays the true sum |
| MysqlCompatCache.EvictionStops | src/sql_text.rs:2845-2852 | every eviction ends in one of the states reached by popping entries off the back one at a time |
| MysqlCompatCache.EvictionTotalsAreExact | src/sql_text.rs:2845-2852 | in each of these states the byte total is the true sum of the entries left, so taking the last entry off it does not saturate |
| MysqlCompatCache.WithNewFrontKeepsBooks | src/sql_text.rs:2836-2844 | putting the new entry in front and removing its old copy keeps statements distinct and the byte total true, without saturation |
| MysqlCompatCache.InsertedIsLongestFittingPrefix | src/sql_text.rs:2833-2852 | after an insertion the cache is exactly the longest prefix of the most-recently-used order that fits both limits, and the new entry is in it because of the size gate |
| MysqlCompatCache.LookedUpKeepsValid | src/sql_text.rs:2818-2830 | a lookup keeps all bookkeeping true and does not reach its fallback |
| MysqlCompatCache.LookupOnlyReorders | src/sql_text.rs:2818-2830 | a lookup never changes what the cache holds, only its order |
| CacheInterleavings.OrderAfterHit | src/sql_text.rs:2822-2829 | a hit keeps deque order equal to order of last use |
| CacheInterleavings.OrderAfterInsert | src/sql_text.rs:2833-2852 | an insertion with its evictions keeps deque order equal to order of last use, and nothing used more recently than a kept entry is dropped |
| CacheInterleavings.EveryInterleavingIsSafe | src/sql_text.rs:2801-2854 | in every interleaving of any number of calls at their atomic steps: statements distinct, byte total true, both limits hold whenever the lock is free, every stored flag and every answer is the classifier's, deque order is order of last use |
| CacheInterleavings.CacheIsTransparent | src/sql_text.rs:2801-2854 | every finished call of every interleaving answered as if there were no cache |
| CacheInterleavings.SaturationIsUnreachable | src/sql_text.rs:2839-2852 | from every reachable state the saturating arithmetic of the next insertion is exact: the addition, and in every state of the eviction loop, the new entry included, the subtraction |
| CacheInterleavings.MysqlCompatibilityForSql | src/sql_text.rs:2801-2854 | an uninterrupted call returns the preferred type's answer or the classifier's, leaves the cache alone when it must not be used, and otherwise leaves the statement with its true flag in front |
| SqlBytes.DollarTagIsRead | src/sql_text.rs:3144-3163 | a tag is read at a place if and only if it is `$`, tag bytes, `$` and stands there |
| TrailingIdentifiers.MeaningfulIdentifierWords | src/sql_text.rs:4165-4272 | the loop returns the first so many words of the line, or all of them for a limit of zero |
| TrailingIdentifiers.BackOverWhitespace | src/sql_text.rs:7124-7142 | the backward loop stops at the end of the line without its trailing whitespace |
| TrailingIdentifiers.BackOverIdentifier | src/sql_text.rs:7143-7147 | the backward loop stops at the start of the run of identifier bytes |
| TrailingIdentifiers.CollectBackward | src/sql_text.rs:7133-7168 | the collect-and-reverse loop with its early exit returns the last so many runs that do not start with a digit, in line order |
| TrailingIdentifiers.FastTrailingIdentifiers | src/sql_text.rs:7123-7169 | the fast path returns those runs and the last byte that is not whitespace |
| TrailingIdentifiers.WindowHoldsLastWords | src/sql_text.rs:7171-7278 | a sliding window fed any items holds exactly the last so many words seen, and the last significant byte |
| TrailingIdentifiers.SlowTrailingIdentifiers | src/sql_text.rs:7171-7278 | the slow path returns the last so many words of the full forward tokenization and its last significant byte |
| TrailingIdentifiers.LineTrailingIdentifiers | src/sql_text.rs:7115-7279 | the whole function returns the words and the byte the agreement theorems are about, on either path |
| TrailingAgreement.BackwardMeetsForward | src/sql_text.rs:7123-7169 | scanning backward from the end meets the same runs, in the same order, as scanning forward from any run boundary |
| TrailingAgreement.ForwardThroughRun | src/sql_text.rs:4165-4272 | inside one run of identifier bytes the tokenizer yields one word if some byte left can start one, and none otherwise |
| TrailingAgreement.ForwardAgainstRuns | src/sql_text.rs:4165-4272 | the tokenizer finds the same words as the backward scan if no run is digit-led, and strictly more otherwise |
| TrailingAgreement.TrailingWordsAgreeIff | src/sql_text.rs:7115-7279 | for every limit at once, the trailing scan returns the last words of the full tokenization if and only if it took the slow path or no run starts with a digit and holds a byte that could start a word |
| TrailingAgreement.DigitLedWordIsDropped | src/sql_text.rs:7144-7151 | on `1e5` the fast path returns nothing while the tokenizer has `e5` |
| TrailingAgreement.LastItemEndsTheLine | src/sql_text.rs:7123-7169 | on a line without quote and comment bytes the last item ends where the trailing whitespace starts |
| TrailingAgreement.LastByteAgrees | src/sql_text.rs:7115-7279 | on every line both paths agree on whether there is a last significant byte and on every one that is not an identifier byte, `(` and `,` included |
| LineScanner.LineAt | src/sql_text.rs:3206-3220 | the lines `str::lines` cuts, the line starts the loop tracks and the line lengths agree |
| LineScanner.ScanLines | src/sql_text.rs:3221-3469 | for an arbitrary well-behaved scanner and any line count, the loop over the whole text stays in range if and only if the count is zero, the number of lines, or more while the text does not end in a newline inside a literal; then every entry is the one `EntryOk` asks for and those beyond the last line are empty |
| LineScanner.LiteralLeftOrOpen | src/sql_text.rs:3221-3469 | a literal seen on a line is still open at its end or was left on it |
| LineScanner.ScannerStopsAtLineStarts | src/sql_text.rs:3221-3469 | no step jumps over a line start, so its mode there is always known |
| LineScanner.EntryIsFirstCloseIff | src/sql_text.rs:3190-3196 | an entry is the end of the literal the line starts in, as the comment reads, if and only if no literal is entered on the rest of the line |
| MultilineStrings.ContinuationPrefixLengths | src/sql_text.rs:3197-3469 | for every text and line count: no index goes out of range if and only if the count is safe in that sense; then an entry is present exactly when its line starts inside an open literal, never exceeds the line, is the whole line when a literal is open at the line's end, and otherwise the place where the last literal on the line was left |
| MultilineStrings.BodyLastsUntilItsEnd | src/sql_text.rs:3265-3386 | from any stop inside a literal or block comment the scanner stays in it up to the byte behind it in the text and is in plain SQL there, or stays in it to the end of a text that never closes it |
| MultilineStrings.SecondLiteralOverwrites | src/sql_text.rs:3190-3196 | on the second line of `'a\nb' 'c'` the entry is 6, although the literal the line starts in ends after 2 bytes |
| TextMeaning.TextHasPieces | src/sql_text.rs:3197-3469 | every text is made of pieces: code, quoted and delimited literals, comments, and at most one literal or comment left open |
| TextMeaning.ScannerSeesLiterals | src/sql_text.rs:3221-3469 | wherever the scanner stops, it is inside a literal exactly when that byte lies inside a literal piece of the text, and it has just left one exactly when a literal piece ends there |
| TextMeaning.EntriesReadTheText | src/sql_text.rs:3197-3469 | an entry can be read off the pieces: present exactly when the line starts inside a literal piece, the whole line when a literal piece runs on behind it, and otherwise the end of the last literal piece closed on the line |
| ParenProfile.SignificantParenProfile | src/sql_text.rs:7541-7699 | the loop collects the parentheses among the significant tokens and counts the closes before the first other token |
| ParenProfile.LeadingClosesAreFirstEvents | src/sql_text.rs:7679-7693 | the counted leading closes are the first events, and the run they form is maximal |
| ParenProfile.SignificantParenDepthAfterProfile | src/sql_text.rs:7701-7717 | the loop computes the depth, saturating at zero and at the largest `usize`, that the depth theorems are about |
| ParenProfile.WalkIsReflected | src/sql_text.rs:7701-7717 | without an upper limit, the depth is the larger of start plus net of all events and the greatest net of any suffix |
| ParenProfile.DepthIsReflectedIff | src/sql_text.rs:7701-7717 | for every `usize` start, the saturating depth equals that formula if and only if each overflow past the largest `usize` is followed by a return to zero |
| ParenProfile.DepthIsReflectedWalk | src/sql_text.rs:7701-7717 | it equals the formula whenever the start leaves room for all events |
| ParenProfile.SaturationLosesAnOpen | src/sql_text.rs:7707-7712 | at the largest `usize` an open is lost and its close is not, so the formula fails |
| ParenProfile.DepthComposes | src/sql_text.rs:7701-7717 | depth over concatenated profiles composes |
| LiteralBodies.QuotedBodyEnds | src/sql_text.rs:7591-7625 | a quoted literal ends exactly behind the first undoubled quote: its body is a text with every quote doubled |
| LiteralBodies.QuotedContentRoundTrips | src/sql_text.rs:7591-7625 | any content, its quotes doubled, between any prefix and suffix, is skipped exactly |
| LiteralBodies.QuotedNeverEnds | src/sql_text.rs:7591-7625 | a quoted literal is never closed if and only if every quote up to the end of the text is doubled |
| LiteralBodies.DelimitedBodyEnds | src/sql_text.rs:7557-7589 | q-quotes, dollar quotes and block comments end exactly behind the first occurrence of their closer |
| LiteralBodies.DelimitedNeverEnds | src/sql_text.rs:7557-7589 | a q-quote, dollar quote or block comment is never closed if and only if its closer does not occur again |
| LiteralBodies.WordsSkipBodies | src/sql_text.rs:4165-4272 | the word scan inside a body yields what follows the body, and nothing of it |
| LiteralBodies.ParensSkipBodies | src/sql_text.rs:7541-7699 | the paren scan inside a body yields what follows the body, and nothing of it |
| Pieces.EveryTextHasPieces | src/sql_text.rs:7541-7699 | for every reader and every text there are pieces that the text consists of: code in which nothing opens, and the literals and comments that open |
| Pieces.PiecesSpellText | src/sql_text.rs:7541-7699 | the pieces, put together, spell the text |
| Pieces.PiecesAreFixed | src/sql_text.rs:7541-7699 | a text can be cut into such pieces in one way only |
| Pieces.BodyEndsWithPiece | src/sql_text.rs:7541-7699 | a body that opens at a piece ends where the piece ends, and never if the piece is unclosed |
| LineMeaning.EveryLineHasPieces | src/sql_text.rs:7541-7699 | every line, whatever it holds, has pieces for the word scan and for the paren scan, so the next results are about all lines |
| LineMeaning.EventsAreCodeParensIff | src/sql_text.rs:7541-7699 | for every line: the paren events are exactly the parentheses of its code, in order, if and only if its leading run is not tangled (code ending in `*` with a block comment right behind it) or the pieces read from behind the tangled `*` `/` on have the same parentheses as the pieces from the comment on |
| LineMeaning.CodeParensAtTangle | src/sql_text.rs:7626-7699 | the parentheses of a tangled line's code are those in front of the tangle and those of the pieces from its comment on |
| LineMeaning.EventsAreParensRead | src/sql_text.rs:7626-7699 | the paren events of every line are the parentheses of its code when a tangle starts the line anew behind its `*` `/`, inside the comment, as often as there is one |
| LineMeaning.CommentedParenCounts | src/sql_text.rs:7626-7699 | on `*/*(*/` the only parenthesis stands in a comment and is an event all the same |
| LineMeaning.WordsAreCodeWords | src/sql_text.rs:4165-4272 | on every line the words are exactly the words of its code, in order |
| LineMeaning.TrailingWordsAreCodeWordsIff | src/sql_text.rs:7115-7279 | for every line and all limits at once, the trailing scan returns the last words of the code if and only if it took the slow path or no run is digit-led |
| LeadingAgreement.LeadingWordsComeFirstIff | src/sql_text.rs:4311-4364 | on every line the leading words stand where the first words of the full tokenization stand, if and only if none of them is the start of a q-quote |
| LeadingAgreement.LeadingWordsComeFirst | src/sql_text.rs:4311-4364 | then they are also the same texts |
| LeadingAgreement.QQuoteReadAsWord | src/sql_text.rs:4344-4360 | on `q'!a!'` the leading words are `q`, while the tokenizer finds none |
| QuotedIdentifiers.CheckInner | src/sql_text.rs:1983-2001 | the loop accepts exactly the texts in which the delimiter occurs only doubled |
| QuotedIdentifiers.DoubledIsWellFormed | src/sql_text.rs:1983-2001 | doubling a name's delimiters makes it well formed, and undoubling gives the name back |
| QuotedIdentifiers.UndoubledIsInverse | src/sql_text.rs:2225-2252 | on well-formed texts, doubling again gives the text back |
| QuotedIdentifiers.QuotedNameRoundTrips | src/sql_text.rs:2003-2252 | any name wrapped in `"`, backticks or brackets, with its closing delimiter doubled and any whitespace in front and behind, is recognized with that delimiter and unwraps to the name |
| QuotedIdentifiers.RecognizedIffQuotedName | src/sql_text.rs:2003-2025 | a text is recognized with a delimiter if and only if, trimmed, it is the wrapping of its unwrapped form |
| QuotedIdentifiers.UnquotingIsInjective | src/sql_text.rs:2225-2252 | two recognized texts with the same delimiter unwrap alike if and only if they are equal up to surrounding whitespace |
| BitMask.HasWith | src/sql_text.rs:6470-6487 | setting a bit sets that bit and no other |
| BitMask.SameBitsSameMask | src/sql_text.rs:6470-6487 | a mask is determined by its bits |
| BitMask.NonZeroHasBit | src/sql_text.rs:6557-6563 | a mask is non-zero only if some bit is set |
| BitMask.WithFits | src/sql_text.rs:6470-6487 | setting a bit below 64 keeps a 64-bit mask |
| IdentifierSegments.SegmentsSpellWord | src/sql_text.rs:4366-4382 | segments are non-empty, hold no underscore, and together spell the word without its underscores |
| IdentifierSegments.OneSegment | src/sql_text.rs:4366-4382 | a word without underscores is one segment |
| IdentifierSegments.SegmentsSplitAtUnderscore | src/sql_text.rs:4366-4382 | the segments of two texts joined by an underscore are the segments of the one and then of the other |
| IdentifierSegments.NextIdentifierWordSegment | src/sql_text.rs:4366-4382 | the cursor yields the next segment and moves so that exactly the remaining segments are left |
| IdentifierSegments.NextIdentifierSequenceSegment | src/sql_text.rs:4406-4421 | the two-part cursor yields the next segment of the whole sequence, across word ends and words without segments |
| IdentifierSegments.MatchWord | src/sql_text.rs:4436-4447 | one word is accepted exactly when its segments are a prefix of what the sequence cursor has left, and the cursor moves by exactly that prefix |
| IdentifierSegments.WordsMatchKeywordSequence | src/sql_text.rs:4430-4452 | words match a keyword sequence if and only if their flattened segments are equal ignoring ASCII case, however either side is cut into words |
| LeadingWords.FindCommentEnd | src/sql_text.rs:4328-4340 | the inner loop finds the byte behind the first `*/`, or nothing |
| LeadingWords.SkipWhitespaceAndComments | src/sql_text.rs:4317-4344 | the loop stops at the first byte that is neither whitespace nor inside a block comment |
| LeadingWords.ReadNextWord | src/sql_text.rs:4317-4360 | the next identifier run behind blanks and comments, or nothing when something else is there |
| LeadingWords.ReadLeadingIdentifierWords | src/sql_text.rs:4311-4364 | the loop returns the first so many leading words |
| LeadingWords.LineStartsWithIdentifierSequence | src/sql_text.rs:4454-4528 | true if and only if some prefix of the line's leading words flattens to exactly the segments of the sequence |
| BodyHeaders.FlatIsKeys | src/sql_text.rs:6246-6279 | comparing flattened keys is what the two-cursor matcher decides |
| BodyHeaders.GatherWords | src/sql_text.rs:6253-6268 | the loop gathers the fewest words that hold the needed number of segments |
| BodyHeaders.LeadingWordsMatchKeywordPrefix | src/sql_text.rs:6246-6279 | the loop returns how many sequence words the words spell from the start |
| BodyHeaders.FindLongestRest | src/sql_text.rs:6459-6466 | the limit on words is the longest unmatched rest among the candidates |
| BodyHeaders.FindBest | src/sql_text.rs:6470-6487 | the greedy loop over the catalogue returns the mask and score of `BestUpTo` |
| BodyHeaders.FindBestMatch | src/sql_text.rs:6457-6536 | both matchers, from nothing and from a mask of candidates, return `BestMatch` |
| BodyHeaders.NextContinuationState | src/sql_text.rs:6538-6568 | the loop over the mask computes the next state: free form, the unfinished candidates, or none |
| BodyHeaders.BodyHeaderLineState | src/sql_text.rs:6570-6623 | one line computes `LineStateOf`, the transition all header theorems are about |
| BodyHeaderTheorems.BestUpToIsBest | src/sql_text.rs:6470-6487 | the mask holds exactly the sequences with the best score, nothing scores better, and a positive score leaves a bit |
| BodyHeaderTheorems.MatchedSequencesAgree | src/sql_text.rs:6246-6279 | two sequences matched by the same words agree on every word both matched |
| BodyHeaderTheorems.BestMatchOk | src/sql_text.rs:6457-6536 | a best match from nothing or from a good state matches strictly more words, keeps only candidates, and its candidates agree on everything matched |
| BodyHeaderTheorems.NextStateOk | src/sql_text.rs:6538-6568 | the next state of agreeing candidates satisfies the invariant |
| BodyHeaderTheorems.LineKeepsStateOk | src/sql_text.rs:6570-6623 | one line of any text keeps the invariant |
| BodyHeaderTheorems.ReachableStatesOk | src/sql_text.rs:6457-6623 | after any lines, a sequence state has a non-zero 64-bit mask of valid catalogue indices, every candidate is strictly longer than the matched words, and all agree on them |
| BodyHeaderTheorems.ContinuationMakesProgress | src/sql_text.rs:6490-6536 | in every reachable state a continuation keeps only old candidates and strictly increases the matched words |
| BodyHeaderTheorems.OwnWordsMatchOneByOne | src/sql_text.rs:6246-6279 | on words spelled like the catalogue's own, matching is word by word, and whatever follows them counts only behind all of them |
| BodyHeaderTheorems.BestMatchOfOwnWords | src/sql_text.rs:6457-6536 | feeding a header's own next words, with any words behind them that extend no candidate, selects exactly the sequences that start with all header words so far |
| BodyHeaderTheorems.MiddleOfHeader | src/sql_text.rs:6538-6568 | in the middle of a header the state is a sequence state whose candidates are all sequences still in play |
| BodyHeaderTheorems.HeaderPrefixReached | src/sql_text.rs:6570-6623 | however the header words are cut into lines, the state reached depends only on the header words |
| BodyHeaderTheorems.SplitHeaderLikeOneLine | src/sql_text.rs:6457-6623 | a header's words cut into any non-empty chunks, one per line, mark every line as a header and end in the state they reach on one line; the last line may go on with any words that extend no sequence starting like this |
| OwnerCatalogues.KeyOfPlainWord | src/sql_text.rs:6153-6230 | a word without underscores is a single segment, itself in upper case |
| OwnerCatalogues.PlainCatalogueIsWellFormed | src/sql_text.rs:6395-6441 | every catalogue of at most 64 headers of words without underscores satisfies the hypotheses of the header theorems |
| OwnerCatalogues.KeyOfDenseRank | src/sql_text.rs:6164-6167 | `DENSE_RANK` is the two segments `DENSE` and `RANK` |
| OwnerCatalogues.FreeformHeadersAreFinal | src/sql_text.rs:6429-6441 | no free-form header of any owner is a proper prefix of another header of that owner |
| OwnerCatalogues.EveryOwnerIsWellFormed | src/sql_text.rs:6395-6441 | every owner's catalogue satisfies the hypotheses of the header theorems, `DENSE_RANK` included |
| IncludeLines.IncludeLineNamesItsPathIff | src/bin/oracle_compare_test_all.rs:801-819 | for any text, any indentation, any whitespace around it and an optional semicolon, and any comment: exactly the text is read as the path, relative for `@@` and not for `@`, if and only if it has no whitespace at its ends, holds no `--`, a leading `@` is set off, a final `;` is followed by a semicolon, and a final `-` does not touch the comment |
| IncludeLines.DashesCutThePath | src/bin/oracle_compare_test_all.rs:801-819 | the line for the path `a--b` is read as the path `a` |
| IncludeExpansion.ExpandOneLine | src/bin/oracle_compare_test_all.rs:768-796 | one turn of the loop computes the line's expansion with the stack pushed and popped, and restores the stack on success |
| IncludeExpansion.ExpandLineList | src/bin/oracle_compare_test_all.rs:767-798 | the loop over lines computes the expansion of the list and restores the stack on success |
| IncludeExpansion.ExpandSqlIncludes | src/bin/oracle_compare_test_all.rs:756-799 | terminates on every file system, cyclic or not; computes `Expand` for any stack; restores the stack on success and never pops below it on failure |
| IncludeTheorems.CheckedImpliesUnchecked | src/bin/oracle_compare_test_all.rs:780-785 | what succeeds with the cycle check succeeds with the same output without it |
| IncludeTheorems.ChainExpands | src/bin/oracle_compare_test_all.rs:761-765 | success at the head of an include chain is success at its end, one level deeper per link |
| IncludeTheorems.CyclesNeverExpand | src/bin/oracle_compare_test_all.rs:761-765 | a file that includes itself through any others never expands, even without the cycle check |
| IncludeTheorems.UncheckedImpliesChecked | src/bin/oracle_compare_test_all.rs:780-785 | what succeeds without the check, below a stack that is an include chain, succeeds with the same output with it |
| IncludeTheorems.CycleCheckIsRedundant | src/bin/oracle_compare_test_all.rs:756-799 | dropping the cycle check changes neither which scripts expand nor what they expand to |
| IncludeFixedPoint.LinesOfUnlines | src/bin/oracle_compare_test_all.rs:767-772 | cutting whole lines apart gives them back without their final carriage returns |
| IncludeFixedPoint.ParseIgnoresTrailingCr | src/bin/oracle_compare_test_all.rs:801-819 | a trailing carriage return neither makes nor breaks an include line |
| IncludeFixedPoint.ExpansionLines | src/bin/oracle_compare_test_all.rs:756-799 | every successful expansion is a list of whole lines none of which is an include |
| IncludeFixedPoint.ExpansionHasNoIncludeLine | src/bin/oracle_compare_test_all.rs:756-819 | no line of an expanded script parses as an include |
| IncludeFixedPoint.StrippingIsIdentityIff | src/bin/oracle_compare_test_all.rs:767-772 | dropping carriage returns leaves a text of whole lines alone exactly when no line ends in one |
| IncludeFixedPoint.ReexpansionIsIdentityIff | src/bin/oracle_compare_test_all.rs:756-799 | expanding an expanded script again, on any file system and at any legal depth, succeeds, and returns it unchanged if and only if it holds no carriage return before a newline |
| GridReassembly.Grids | src/bin/oracle_compare_test_all.rs:335-375 | the loop over two maps returns, for each successful select in order of finishing, the grid of what was pending for its statement |
| GridReassembly.PendingIsSinceLastSelect | src/bin/oracle_compare_test_all.rs:341-366 | what is pending is exactly what came since the statement's last successful select: the last announced columns and all row batches in order, or no rows at all if there was no batch |
| GridReassembly.PendingNeedsOwnEventsOnly | src/bin/oracle_compare_test_all.rs:335-375 | what is pending for a statement depends on its own events only |
| GridReassembly.ViewsDetermineGrids | src/bin/oracle_compare_test_all.rs:335-375 | the grids can be computed from each statement's own events and the order of finishes alone |
| GridReassembly.InterleavingDoesNotMatter | src/bin/oracle_compare_test_all.rs:335-375 | two streams in which every statement saw the same events and selects finished in the same order give the same grids |
| GridReassembly.AdjacentSwap | src/bin/oracle_compare_test_all.rs:335-375 | swapping neighbours of different statements, unless both finish a select, changes nothing |
| CursorGrids.RebuildRow | scripts/verify_oracle_cli.py:334-358 | the loop over the cells of one expected row computes `ConsumeCells`, nested grids and index errors included |
| CursorGrids.RebuildTable | scripts/verify_oracle_cli.py:325-358 | the loop over one printed table computes `ConsumeRows`, its two errors included |
| CursorGrids.ConsumeSqlplusCursorGrid | scripts/verify_oracle_cli.py:298-359 | terminates on every nesting and computes `ConsumeGrid`, the consumption all cursor theorems are about |
| CursorGrids.NormalizeSqlplusCursorGrids | scripts/verify_oracle_cli.py:362-397 | the loop claims tables grid by grid and fails on any table left over |
| CursorTheorems.ConsumePrintedGrid | scripts/verify_oracle_cli.py:298-359 | wherever the flattening of a printing of a production grid stands, in which an empty grid has a placeholder exactly when one is next, consuming there rebuilds the printed grid and stops behind it |
| CursorTheorems.StrictIsEager | scripts/verify_oracle_cli.py:306-312 | a printing with a placeholder for every empty grid is such a printing wherever it stands |
| CursorTheorems.UnflattenUndoesFlatten | scripts/verify_oracle_cli.py:298-359 | for every nested grid, every grouping of its rows into tables and any tables before and after, consuming the flattening rebuilds the grid and stops exactly at the rest |
| CursorPartition.GridConsumedIsPrinted | scripts/verify_oracle_cli.py:298-359 | conversely, whatever is consumed is the flattening of such a printing of the production grid, and the result is the grid that was printed |
| CursorPartition.ConsumedIffPrintedHere | scripts/verify_oracle_cli.py:298-359 | consuming succeeds with a result and an end if and only if a printing of the production grid stands from the start up to that end, in which an empty grid has a placeholder exactly when one is next, and the result is the printed grid |
| CursorPartition.NormalizationPartitions | scripts/verify_oracle_cli.py:362-397 | a successful normalization cuts the printed tables into consecutive blocks, one per production grid in order, none skipped, shared or left over, each a printing of its grid |
| CursorPartition.NormalizedIffCut | scripts/verify_oracle_cli.py:362-397 | a normalization succeeds with given results if and only if the printed tables can be cut into consecutive blocks, one per production grid in order, each its grid's single table or such a printing of it, with nothing left over, and the results are what was printed |
| SignatureSplit.BalancedSignature | scripts/generate_builtin_signatures.py:724-745 | the loop with its early exit accepts exactly the balanced texts of the stack run |
| SignatureSplit.SplitTopLevelOverloads | scripts/generate_builtin_signatures.py:261-292 | the loop returns the stripped non-empty pieces between top-level bars |
| SignatureSplit.PiecesSpellValue | scripts/generate_builtin_signatures.py:261-292 | splitting only takes bars out: the raw pieces with their bars put back spell the signature |
| SignatureSplit.StripKeepsBalance | scripts/generate_builtin_signatures.py:285-291 | stripping a piece does not change whether it is balanced |
| SignatureSplit.CountersAreStackCounts | scripts/generate_builtin_signatures.py:264-283 | as long as the stack checker has not failed, the splitter's saturating counters are the per-kind counts on its stack |
| SignatureSplit.BalancedRunSplits | scripts/generate_builtin_signatures.py:261-292 | on a text the checker has not failed on, all finished pieces are balanced and the current one leads to the checker's stack |
| SignatureSplit.BalancedPiecesRun | scripts/generate_builtin_signatures.py:261-292 | conversely, balanced finished pieces and the current piece determine the checker's state on the whole text |
| SignatureSplit.BalancedIffPartsBalanced | scripts/generate_builtin_signatures.py:724-745 | a signature is balanced by the stack checker if and only if every part the counter-based splitter returns is |
| IconFile.RowStartIsProduct | build.rs:430-432 | rows start at `row * size * 4` |
| IconFile.EncodeRow | build.rs:431-437 | the inner loop appends exactly the pixels of one row with red and blue exchanged |
| IconFile.EncodeBmpDib | build.rs:396-444 | the nested loops produce header, bottom-up rows and an all-zero mask, whatever follows the pixels in the buffer; the size errors are exactly the sizes whose double exceeds `i32` |
| IconFile.DibLength | build.rs:396-444 | the file of one image of any size, zero included, is 40 + 4·size² + mask bytes long |
| IconFile.DibHoldsImage | build.rs:416-441 | in a file of exactly that length, reading bottom-up with blue and red exchanged gives back every RGBA byte |
| IconFile.HeaderDescribesImage | build.rs:416-441 | the stored little-endian header gives its own length, the width and the doubled height, and every mask byte is zero |
| IconFile.ImageOffsets | build.rs:324-347 | the checked sums succeed if and only if the whole file length fits `u32`, and then each offset is the header plus the lengths before it |
| IconFile.OffsetsTileTheFile | build.rs:324-389 | the images tile the file: the first starts behind the directory, each ends where the next starts, the last ends with the file, and each offset holds its image |
| IconFile.DirectoryFindsImages | build.rs:351-389 | following any directory entry by its stored little-endian offset and length yields exactly its image |

## Left out

- CacheInterleavings.EveryInterleavingIsSafe: takes the size gate of release builds, with its minimum length; the test build's gate has no minimum. A poisoned mutex is entered like any other, as in the source.
- IconFile.EncodeBmpDib: a buffer shorter than the image, on which the source panics, and `usize` overflow of the capacity product, which no icon size reaches, are not modelled.
- IconFile.DirectoryFindsImages: the writes to the file are one byte sequence; the errors for a size above 255 other than 256, for more than 65535 images and of the file system itself are not modelled.
- Rust's UTF-8 strings: multi-byte characters, character boundaries and non-ASCII q-quote delimiters.
- The prefix and the continuation matcher of body headers are one function with an optional mask, since they differ only in that.
- The parser of `DELIMITER` lines, the classifier of MySQL syntax and the layout-clause tests that end a free-form header: arbitrary functions here.
- JSON reading and writing of nested cursor cells and the regular expression for cursor markers: a cell is already decoded, and the marker test is an arbitrary predicate.
- Keyword tables and the single-line classifiers built from them (src/sql_text.rs:12-1810, 5086-6117, 8185-8600): each is settled by reading its branches.
- `src/sql_format.rs`, `src/icon_fill.rs`, the database drivers, the user interface and the command-line tools: easy members, floating-point shading, or input and output.
