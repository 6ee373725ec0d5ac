/**
  The cycle check of include expansion (src/bin/oracle_compare_test_all.rs): on every
  file system it decides nothing that the depth limit does not.
 */
module IncludeTheorems {
  import opened Prelude
  import opened LineScanner
  import opened IncludeExpansion

  // ----- The cycle check is redundant -----

  /** With the cycle check, whatever succeeds succeeds the same way without it. */
  lemma {:induction false} CheckedImpliesUnchecked(fs: FileSystem, text: string, base: string, stack: seq<string>)
    requires Expand(fs, text, base, stack, true).Ok?
    ensures Expand(fs, text, base, stack, false) == Expand(fs, text, base, stack, true)
    decreases MAX_DEPTH - |stack|, 1, 0
  {
    CheckedLinesImplyUnchecked(fs, Lines(text), base, stack);
  }

  lemma {:induction false} CheckedLinesImplyUnchecked(fs: FileSystem, lines: seq<string>, base: string, stack: seq<string>)
    requires |stack| < MAX_DEPTH && ExpandLines(fs, lines, base, stack, true).Ok?
    ensures ExpandLines(fs, lines, base, stack, false) == ExpandLines(fs, lines, base, stack, true)
    decreases MAX_DEPTH - |stack|, 0, |lines|
  {
    if lines != [] {
      CheckedLineImpliesUnchecked(fs, lines[0], base, stack);
      CheckedLinesImplyUnchecked(fs, lines[1..], base, stack);
    }
  }

  lemma {:induction false} CheckedLineImpliesUnchecked(fs: FileSystem, line: string, base: string, stack: seq<string>)
    requires |stack| < MAX_DEPTH && ExpandLine(fs, line, base, stack, true).Ok?
    ensures ExpandLine(fs, line, base, stack, false) == ExpandLine(fs, line, base, stack, true)
    decreases MAX_DEPTH - |stack|, 0, 0
  {
    match Target(fs, line, base) {
      case Some(Ok(path)) =>
        CheckedImpliesUnchecked(fs, fs.read(path).value, fs.parent(path), stack + [path]);
      case _ =>
    }
  }

  /** The file `p` has a line that includes the file `q`. */
  ghost predicate Includes(fs: FileSystem, p: string, q: string) {
    && fs.read(p).Some?
    && exists i :: 0 <= i < |Lines(fs.read(p).value)| && Target(fs, Lines(fs.read(p).value)[i], fs.parent(p)) == Some(Ok(q))
  }

  /** Each path of `chain` includes the next one. */
  ghost predicate IsChain(fs: FileSystem, chain: seq<string>) {
    forall i :: 0 <= i < |chain| - 1 ==> Includes(fs, chain[i], chain[i + 1])
  }

  /** Expanding the file `p` without the check succeeds when the files of `stack` are already open. */
  ghost predicate FileExpands(fs: FileSystem, p: string, stack: seq<string>) {
    fs.read(p).Some? && Expand(fs, fs.read(p).value, fs.parent(p), stack, false).Ok?
  }

  lemma {:induction false} FirstAndRestExpand(fs: FileSystem, lines: seq<string>, base: string, stack: seq<string>)
    requires |stack| < MAX_DEPTH && lines != [] && ExpandLines(fs, lines, base, stack, false).Ok?
    ensures ExpandLine(fs, lines[0], base, stack, false).Ok? && ExpandLines(fs, lines[1..], base, stack, false).Ok?
  {
  }

  lemma {:induction false} EveryLineExpands(fs: FileSystem, lines: seq<string>, i: nat, base: string, stack: seq<string>)
    requires |stack| < MAX_DEPTH && i < |lines| && ExpandLines(fs, lines, base, stack, false).Ok?
    ensures ExpandLine(fs, lines[i], base, stack, false).Ok?
    decreases i
  {
    FirstAndRestExpand(fs, lines, base, stack);
    if i > 0 {
      EveryLineExpands(fs, lines[1..], i - 1, base, stack);
    }
  }

  lemma {:induction false} IncludedFileExpands(fs: FileSystem, p: string, q: string, stack: seq<string>)
    requires Includes(fs, p, q) && FileExpands(fs, p, stack)
    ensures |stack| < MAX_DEPTH && FileExpands(fs, q, stack + [q])
  {
    var lines := Lines(fs.read(p).value);
    var i :| 0 <= i < |lines| && Target(fs, lines[i], fs.parent(p)) == Some(Ok(q));
    EveryLineExpands(fs, lines, i, fs.parent(p), stack);
  }

  lemma {:induction false} ChainTail(fs: FileSystem, chain: seq<string>, k: nat)
    requires IsChain(fs, chain) && k <= |chain|
    ensures IsChain(fs, chain[k..])
  {
    forall i | 0 <= i < |chain[k..]| - 1
      ensures Includes(fs, chain[k..][i], chain[k..][i + 1])
    {
      assert Includes(fs, chain[k + i], chain[k + i + 1]);
    }
  }

  lemma {:induction false} ChainAppend(fs: FileSystem, chain: seq<string>, path: string)
    requires IsChain(fs, chain) && (chain != [] ==> Includes(fs, chain[|chain| - 1], path))
    ensures IsChain(fs, chain + [path])
  {
    var longer := chain + [path];
    forall j | 0 <= j < |longer| - 1
      ensures Includes(fs, longer[j], longer[j + 1])
    {
      if j < |chain| - 1 {
        assert Includes(fs, chain[j], chain[j + 1]);
      }
    }
  }

  /** Success at the head of a chain is success at its end, one level deeper for every link. */
  lemma {:induction false} ChainExpands(fs: FileSystem, chain: seq<string>, stack: seq<string>) returns (deeper: seq<string>)
    requires chain != [] && IsChain(fs, chain) && FileExpands(fs, chain[0], stack)
    ensures FileExpands(fs, chain[|chain| - 1], deeper) && |deeper| == |stack| + |chain| - 1
    decreases |chain|
  {
    if |chain| == 1 {
      deeper := stack;
    } else {
      IncludedFileExpands(fs, chain[0], chain[1], stack);
      ChainTail(fs, chain, 1);
      deeper := ChainExpands(fs, chain[1..], stack + [chain[1]]);
    }
  }

  /** A file that includes itself through others never expands: each round is deeper, and depth is limited. */
  lemma {:induction false} CyclesNeverExpand(fs: FileSystem, cycle: seq<string>, stack: seq<string>)
    requires |cycle| > 1 && IsChain(fs, cycle) && cycle[0] == cycle[|cycle| - 1]
    ensures !FileExpands(fs, cycle[0], stack)
    decreases MAX_DEPTH - |stack|
  {
    if FileExpands(fs, cycle[0], stack) {
      var deeper := ChainExpands(fs, cycle, stack);
      CyclesNeverExpand(fs, cycle, deeper);
    }
  }

  /** `stack` is a chain of includes that leads to the text being expanded. */
  ghost predicate LeadsTo(fs: FileSystem, stack: seq<string>, text: string, base: string) {
    && IsChain(fs, stack)
    && (stack != [] ==> fs.read(stack[|stack| - 1]) == Some(text) && fs.parent(stack[|stack| - 1]) == base)
  }

  lemma {:induction false} ExtendChain(fs: FileSystem, stack: seq<string>, text: string, base: string, i: nat, path: string)
    requires LeadsTo(fs, stack, text, base) && i < |Lines(text)| && Target(fs, Lines(text)[i], base) == Some(Ok(path))
    ensures IsChain(fs, stack + [path])
  {
    if stack != [] {
      assert Includes(fs, stack[|stack| - 1], path);
    }
    ChainAppend(fs, stack, path);
  }

  lemma {:induction false} UncheckedImpliesChecked(fs: FileSystem, text: string, base: string, stack: seq<string>)
    requires LeadsTo(fs, stack, text, base) && Expand(fs, text, base, stack, false).Ok?
    ensures Expand(fs, text, base, stack, true) == Expand(fs, text, base, stack, false)
    decreases MAX_DEPTH - |stack|, 1, 0
  {
    assert Lines(text)[0..] == Lines(text);
    UncheckedLinesImplyChecked(fs, text, 0, base, stack);
  }

  lemma {:induction false} UncheckedLinesImplyChecked(fs: FileSystem, text: string, i: nat, base: string, stack: seq<string>)
    requires |stack| < MAX_DEPTH && LeadsTo(fs, stack, text, base) && i <= |Lines(text)|
    requires ExpandLines(fs, Lines(text)[i..], base, stack, false).Ok?
    ensures ExpandLines(fs, Lines(text)[i..], base, stack, true) == ExpandLines(fs, Lines(text)[i..], base, stack, false)
    decreases MAX_DEPTH - |stack|, 0, |Lines(text)| - i
  {
    var lines := Lines(text);
    if i < |lines| {
      assert lines[i..][1..] == lines[i + 1..];
      UncheckedLineImpliesChecked(fs, text, i, base, stack);
      UncheckedLinesImplyChecked(fs, text, i + 1, base, stack);
    }
  }

  lemma {:induction false} UncheckedLineImpliesChecked(fs: FileSystem, text: string, i: nat, base: string, stack: seq<string>)
    requires |stack| < MAX_DEPTH && LeadsTo(fs, stack, text, base) && i < |Lines(text)|
    requires ExpandLine(fs, Lines(text)[i], base, stack, false).Ok?
    ensures ExpandLine(fs, Lines(text)[i], base, stack, true) == ExpandLine(fs, Lines(text)[i], base, stack, false)
    decreases MAX_DEPTH - |stack|, 0, 0
  {
    match Target(fs, Lines(text)[i], base) {
      case Some(Ok(path)) =>
        ExtendChain(fs, stack, text, base, i, path);
        NotOnStack(fs, stack, path);
        UncheckedImpliesChecked(fs, fs.read(path).value, fs.parent(path), stack + [path]);
      case _ =>
    }
  }

  lemma {:induction false} NotOnStack(fs: FileSystem, stack: seq<string>, path: string)
    requires IsChain(fs, stack + [path]) && FileExpands(fs, path, stack + [path])
    ensures path !in stack
  {
    if path in stack {
      var j :| 0 <= j < |stack| && stack[j] == path;
      var longer := stack + [path];
      var cycle := longer[j..];
      ChainTail(fs, longer, j);
      CyclesNeverExpand(fs, cycle, longer);
    }
  }

  /** Dropping the cycle check changes neither which scripts expand nor what they expand to. */
  lemma {:induction false} CycleCheckIsRedundant(fs: FileSystem, text: string, base: string, expanded: string)
    ensures Expand(fs, text, base, [], true) == Ok(expanded) <==> Expand(fs, text, base, [], false) == Ok(expanded)
  {
    if Expand(fs, text, base, [], true).Ok? {
      CheckedImpliesUnchecked(fs, text, base, []);
    }
    if Expand(fs, text, base, [], false).Ok? {
      UncheckedImpliesChecked(fs, text, base, []);
    }
  }
}
