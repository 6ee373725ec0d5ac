/**
  Recursive include expansion of comparison scripts
  (src/bin/oracle_compare_test_all.rs) over an arbitrary file system.
 */
module IncludeExpansion {
  import opened Prelude
  import opened Trimming
  import opened LineScanner

  const MAX_DEPTH: nat := 64

  // ----- Include lines -----

  predicate StartsWith(s: string, prefix: string) {
    |prefix| <= |s| && s[..|prefix|] == prefix
  }

  /** The part of `s` before its first `--`. */
  function BeforeDashes(s: string): string {
    if s == "" || StartsWith(s, "--") then "" else [s[0]] + BeforeDashes(s[1..])
  }

  function WithoutSemicolon(s: string): string {
    if s != "" && s[|s| - 1] == ';' then s[..|s| - 1] else s
  }

  /** The target of an include line and whether it is relative to the current file. */
  function ParseSqlIncludeLine(line: string): Option<(string, bool)> {
    var trimmed := TrimStart(line);
    if !StartsWith(trimmed, "@") then None
    else
      var relative := StartsWith(trimmed, "@@");
      var target := Trim(BeforeDashes(if relative then trimmed[2..] else trimmed[1..]));
      var bare := Trim(WithoutSemicolon(target));
      if target == "" || bare == "" then None else Some((bare, relative))
  }

  // ----- The file system and the expansion on values -----

  datatype FileSystem = FileSystem(
    isAbsolute: string -> bool,
    exists_: string -> bool,
    join: (string, string) -> string,
    parent: string -> string,
    canonicalize: string -> Option<string>,
    read: string -> Option<string>)

  datatype Error = TooDeep | Unresolved(path: string) | Recursive(path: string) | Unreadable(path: string)

  type Outcome = Result<string, Error>

  function ResolveSqlIncludePath(fs: FileSystem, raw: string, base: string, relative: bool): string {
    if fs.isAbsolute(raw) then raw
    else if relative then fs.join(base, raw)
    else if fs.exists_(raw) then raw
    else fs.join(base, raw)
  }

  /** The canonical path an include line stands for, or why there is none. */
  function Target(fs: FileSystem, line: string, base: string): Option<Result<string, Error>> {
    match ParseSqlIncludeLine(line)
    case None => None
    case Some((raw, relative)) =>
      var path := ResolveSqlIncludePath(fs, raw, base, relative);
      Some(match fs.canonicalize(path) case None => Err(Unresolved(path)) case Some(c) => Ok(c))
  }

  function EndWithNewline(text: string): string {
    if text != "" && text[|text| - 1] == '\n' then text else text + "\n"
  }

  /** `expand_sql_includes_for_compare`; `check` switches the test for recursive includes. */
  function Expand(fs: FileSystem, text: string, base: string, stack: seq<string>, check: bool): Outcome
    decreases MAX_DEPTH - |stack|, 1, 0
  {
    if |stack| >= MAX_DEPTH then Err(TooDeep) else ExpandLines(fs, Lines(text), base, stack, check)
  }

  function ExpandLines(fs: FileSystem, lines: seq<string>, base: string, stack: seq<string>, check: bool): Outcome
    requires |stack| < MAX_DEPTH
    decreases MAX_DEPTH - |stack|, 0, |lines|
  {
    if lines == [] then Ok("")
    else
      match ExpandLine(fs, lines[0], base, stack, check)
      case Err(e) => Err(e)
      case Ok(first) => Prepended(first, ExpandLines(fs, lines[1..], base, stack, check))
  }

  function ExpandLine(fs: FileSystem, line: string, base: string, stack: seq<string>, check: bool): Outcome
    requires |stack| < MAX_DEPTH
    decreases MAX_DEPTH - |stack|, 0, 0
  {
    match Target(fs, line, base)
    case None => Ok(line + "\n")
    case Some(Err(e)) => Err(e)
    case Some(Ok(path)) =>
      if check && path in stack then Err(Recursive(path))
      else
        match fs.read(path)
        case None => Err(Unreadable(path))
        case Some(body) =>
          match Expand(fs, body, fs.parent(path), stack + [path], check)
          case Err(e) => Err(e)
          case Ok(expanded) => Ok(EndWithNewline(expanded))
  }

  function Prepended(first: string, rest: Outcome): Outcome {
    match rest
    case Err(e) => Err(e)
    case Ok(text) => Ok(first + text)
  }

  // ----- The mutable include stack -----

  class IncludeStack {
    var paths: seq<string>

    constructor ()
      ensures paths == []
    {
      paths := [];
    }
  }

  /** One turn of the loop: what the line contributes, with the stack pushed and popped around an include. */
  method ExpandOneLine(fs: FileSystem, line: string, base: string, stack: IncludeStack) returns (r: Outcome)
    requires |stack.paths| < MAX_DEPTH
    modifies stack
    ensures r == ExpandLine(fs, line, base, old(stack.paths), true)
    ensures r.Ok? ==> stack.paths == old(stack.paths)
    ensures IsPrefixOf(old(stack.paths), stack.paths)
    decreases MAX_DEPTH - |stack.paths|, 0
  {
    var parsed := ParseSqlIncludeLine(line);
    if parsed.None? {
      return Ok(line + "\n");
    }
    var path := ResolveSqlIncludePath(fs, parsed.value.0, base, parsed.value.1);
    var canonical := fs.canonicalize(path);
    if canonical.None? {
      return Err(Unresolved(path));
    }
    if canonical.value in stack.paths {
      return Err(Recursive(canonical.value));
    }
    stack.paths := stack.paths + [canonical.value];
    var body := fs.read(canonical.value);
    if body.None? {
      return Err(Unreadable(canonical.value));
    }
    var included := ExpandSqlIncludes(fs, body.value, fs.parent(canonical.value), stack);
    if included.Err? {
      assert stack.paths[..|old(stack.paths)| + 1][..|old(stack.paths)|] == stack.paths[..|old(stack.paths)|];
      return included;
    }
    stack.paths := stack.paths[..|stack.paths| - 1];
    r := Ok(EndWithNewline(included.value));
  }

  /** The loop over the lines of one file. */
  method ExpandLineList(fs: FileSystem, lines: seq<string>, base: string, stack: IncludeStack) returns (r: Outcome)
    requires |stack.paths| < MAX_DEPTH
    modifies stack
    ensures r == ExpandLines(fs, lines, base, old(stack.paths), true)
    ensures r.Ok? ==> stack.paths == old(stack.paths)
    ensures IsPrefixOf(old(stack.paths), stack.paths)
    decreases MAX_DEPTH - |stack.paths|, 1
  {
    var expanded := "";
    ghost var all := ExpandLines(fs, lines, base, old(stack.paths), true);
    ghost var rest := all;
    assert lines[0..] == lines;
    PrependedNothing(all);
    for i := 0 to |lines|
      invariant stack.paths == old(stack.paths)
      invariant rest == ExpandLines(fs, lines[i..], base, old(stack.paths), true)
      invariant all == Prepended(expanded, rest)
    {
      assert lines[i..][1..] == lines[i + 1..];
      var one := ExpandOneLine(fs, lines[i], base, stack);
      if one.Err? {
        return one;
      }
      rest := ExpandLines(fs, lines[i + 1..], base, old(stack.paths), true);
      PrependedTwice(expanded, one.value, rest);
      expanded := expanded + one.value;
    }
    assert lines[|lines|..] == [];
    assert rest == Ok("") && expanded + "" == expanded;
    r := Ok(expanded);
  }

  /** Computes `Expand`, terminates on every file system, and restores the stack on success. */
  method ExpandSqlIncludes(fs: FileSystem, text: string, base: string, stack: IncludeStack) returns (r: Outcome)
    modifies stack
    ensures r == Expand(fs, text, base, old(stack.paths), true)
    ensures r.Ok? ==> stack.paths == old(stack.paths)
    ensures IsPrefixOf(old(stack.paths), stack.paths)
    decreases MAX_DEPTH - |stack.paths|, 2
  {
    if |stack.paths| >= MAX_DEPTH {
      return Err(TooDeep);
    }
    r := ExpandLineList(fs, Lines(text), base, stack);
  }

  lemma {:induction false} PrependedNothing(rest: Outcome)
    ensures Prepended("", rest) == rest
  {
    if rest.Ok? {
      assert "" + rest.value == rest.value;
    }
  }

  lemma {:induction false} PrependedTwice(a: string, b: string, rest: Outcome)
    ensures Prepended(a, Prepended(b, rest)) == Prepended(a + b, rest)
  {
    if rest.Ok? {
      assert a + (b + rest.value) == a + b + rest.value;
    }
  }
}
