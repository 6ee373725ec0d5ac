/**
  Expanded scripts (src/bin/oracle_compare_test_all.rs) hold no include line, and
  expanding one again gives it back exactly when no line of it ends in a carriage return.
 */
module IncludeFixedPoint {
  import opened Prelude
  import opened SqlBytes
  import opened Trimming
  import opened LineScanner
  import opened IncludeExpansion

  // ----- Texts made of whole lines -----

  function Unlines(lines: seq<string>): string {
    if lines == [] then "" else lines[0] + "\n" + Unlines(lines[1..])
  }

  /** What `str::lines` does to a line: one carriage return before the newline is dropped. */
  function StripCr(line: string): string {
    if line != "" && line[|line| - 1] == '\r' then line[..|line| - 1] else line
  }

  function StripAll(lines: seq<string>): (r: seq<string>)
    ensures |r| == |lines|
  {
    seq(|lines|, i requires 0 <= i < |lines| => StripCr(lines[i]))
  }

  predicate IsLine(line: string) {
    '\n' !in line
  }

  lemma {:induction false} UnlinesConcat(a: seq<string>, b: seq<string>)
    ensures Unlines(a + b) == Unlines(a) + Unlines(b)
    decreases |a|
  {
    if a == [] {
      assert a + b == b;
    } else {
      assert (a + b)[1..] == a[1..] + b;
      UnlinesConcat(a[1..], b);
    }
  }

  lemma {:induction false} UnlinesEndsWithNewline(lines: seq<string>)
    ensures lines != [] ==> Unlines(lines) != "" && Unlines(lines)[|Unlines(lines)| - 1] == '\n'
  {
    if |lines| > 1 {
      UnlinesEndsWithNewline(lines[1..]);
    }
  }

  predicate EndsWith(whole: string, k: nat, text: string) {
    |whole| == k + |text| && whole[k..] == text
  }

  lemma {:induction false} LineEndShift(whole: string, k: nat, text: string, s: nat, e: nat)
    requires EndsWith(whole, k, text) && s <= |text| && e == LineEnd(text, s)
    ensures LineEnd(whole, k + s) == k + e && (s < e ==> whole[k + e - 1] == text[e - 1])
  {
    forall j | k + s <= j < k + e
      ensures whole[j] != '\n'
    {
      assert whole[j] == whole[k..][j - k];
    }
    assert e < |text| ==> whole[k + e] == whole[k..][e];
    assert s < e ==> whole[k + e - 1] == whole[k..][e - 1];
    LineEndIs(whole, k + s, k + e);
  }

  lemma {:induction false} SliceShift(whole: string, k: nat, text: string, s: nat, e: nat)
    requires EndsWith(whole, k, text) && s <= e <= |text|
    ensures whole[k + s..k + e] == text[s..e]
  {
    forall i | 0 <= i < e - s
      ensures whole[k + s..k + e][i] == text[s..e][i]
    {
      assert whole[k..][s + i] == whole[k + (s + i)];
    }
  }

  lemma {:induction false} LineShift(whole: string, k: nat, text: string, s: nat) returns (line: string, next: nat)
    requires EndsWith(whole, k, text) && s <= |text|
    ensures next == NextLineStart(text, s) && line == text[s..s + LineLength(text, s)]
    ensures k + next == NextLineStart(whole, k + s) && line == whole[k + s..k + s + LineLength(whole, k + s)]
  {
    next, line := NextLineStart(text, s), text[s..s + LineLength(text, s)];
    LineEndShift(whole, k, text, s, LineEnd(text, s));
    SliceShift(whole, k, text, s, s + LineLength(text, s));
  }

  lemma {:induction false} LinesFromStep(text: string, s: nat, line: string, next: nat)
    requires s < |text| && next == NextLineStart(text, s) && line == text[s..s + LineLength(text, s)]
    ensures LinesFrom(text, s) == [line] + LinesFrom(text, next)
  {
  }

  lemma {:induction false} LinesFromShift(whole: string, k: nat, text: string, s: nat)
    requires EndsWith(whole, k, text) && s <= |text|
    ensures LinesFrom(whole, k + s) == LinesFrom(text, s)
    decreases |text| - s
  {
    if s < |text| {
      var line, next := LineShift(whole, k, text, s);
      LinesFromShift(whole, k, text, next);
      LinesFromStep(whole, k + s, line, k + next);
      LinesFromStep(text, s, line, next);
    }
  }

  lemma {:induction false} FirstLine(line: string, rest: string, text: string)
    requires IsLine(line) && text == line + "\n" + rest
    ensures NextLineStart(text, 0) == |line| + 1 <= |text| && LineLength(text, 0) == |StripCr(line)|
    ensures text[0..LineLength(text, 0)] == StripCr(line) && EndsWith(text, |line| + 1, rest)
  {
    LineEndIs(text, 0, |line|);
    assert text[|line| + 1..] == rest;
  }

  lemma {:induction false} LinesOfOneMore(line: string, rest: string)
    requires IsLine(line)
    ensures Lines(line + "\n" + rest) == [StripCr(line)] + Lines(rest)
  {
    var text := line + "\n" + rest;
    FirstLine(line, rest, text);
    LinesFromStep(text, 0, StripCr(line), |line| + 1);
    LinesFromShift(text, |line| + 1, rest, 0);
  }

  /** Cutting whole lines apart gives them back without their final carriage returns. */
  lemma {:induction false} LinesOfUnlines(lines: seq<string>)
    requires forall i :: 0 <= i < |lines| ==> IsLine(lines[i])
    ensures Lines(Unlines(lines)) == StripAll(lines)
  {
    if lines != [] {
      LinesOfOneMore(lines[0], Unlines(lines[1..]));
      LinesOfUnlines(lines[1..]);
      assert StripAll(lines) == [StripCr(lines[0])] + StripAll(lines[1..]);
    }
  }

  lemma {:induction false} LinesAreLines(text: string, s: nat)
    requires s <= |text|
    ensures forall i :: 0 <= i < |LinesFrom(text, s)| ==> IsLine(LinesFrom(text, s)[i])
    decreases |text| - s
  {
    if s < |text| {
      LinesAreLines(text, NextLineStart(text, s));
    }
  }

  // ----- A trailing carriage return never makes or breaks an include line -----

  lemma {:induction false} TrimStartThenCr(s: string)
    ensures TrimStart(s + "\r") == if TrimStart(s) == "" then "" else TrimStart(s) + "\r"
  {
    if s == "" {
      assert s + "\r" == "\r" && "\r"[1..] == "";
    } else {
      assert (s + "\r")[0] == s[0];
      if IsWhitespace(s[0]) {
        assert (s + "\r")[1..] == s[1..] + "\r";
        TrimStartThenCr(s[1..]);
      }
    }
  }

  lemma {:induction false} TrimIgnoresCr(s: string)
    ensures Trim(s + "\r") == Trim(s)
  {
    TrimStartThenCr(s);
    var t := TrimStart(s);
    assert (t + "\r")[..|t|] == t;
    assert TrimEnd(t + "\r") == TrimEnd(t);
  }

  lemma {:induction false} BeforeDashesThenCr(s: string)
    ensures BeforeDashes(s + "\r") == BeforeDashes(s) || BeforeDashes(s + "\r") == BeforeDashes(s) + "\r"
  {
    var t := s + "\r";
    if s == "" {
      assert t[1..] == "" && !StartsWith(t, "--");
      assert BeforeDashes(t) == ['\r'] + BeforeDashes("");
    } else if StartsWith(s, "--") {
      assert t[..2] == s[..2];
    } else {
      assert t[1..] == s[1..] + "\r" && t[0] == s[0];
      assert !StartsWith(t, "--") by {
        if |s| == 1 {
          assert t[..2][1] == '\r';
        } else {
          assert t[..2] == s[..2];
        }
      }
      BeforeDashesThenCr(s[1..]);
    }
  }

  lemma {:induction false} ParseIgnoresTrailingCr(line: string)
    ensures ParseSqlIncludeLine(line + "\r") == ParseSqlIncludeLine(line)
  {
    TrimStartThenCr(line);
    var t := TrimStart(line);
    if t != "" {
      var u := t + "\r";
      assert u[..1] == t[..1];
      if StartsWith(t, "@") {
        assert StartsWith(u, "@@") <==> StartsWith(t, "@@") by {
          if |t| == 1 {
            assert u[..2][1] == '\r';
          } else {
            assert u[..2] == t[..2];
          }
        }
        var n := if StartsWith(t, "@@") then 2 else 1;
        assert u[n..] == t[n..] + "\r";
        BeforeDashesThenCr(t[n..]);
        TrimIgnoresCr(BeforeDashes(t[n..]));
      }
    }
  }

  lemma {:induction false} ParseOfStripped(line: string)
    ensures ParseSqlIncludeLine(StripCr(line)) == ParseSqlIncludeLine(line)
  {
    if StripCr(line) != line {
      assert line == StripCr(line) + "\r";
      ParseIgnoresTrailingCr(StripCr(line));
    }
  }

  // ----- What an expansion is made of -----

  /** `lines` are whole lines, none of which is an include line. */
  ghost predicate NoIncludes(lines: seq<string>) {
    forall i :: 0 <= i < |lines| ==> IsLine(lines[i]) && ParseSqlIncludeLine(lines[i]).None?
  }

  /** A successful expansion is a list of whole lines without includes. */
  lemma {:induction false} ExpansionLines(fs: FileSystem, text: string, base: string, stack: seq<string>, check: bool)
    returns (lines: seq<string>)
    requires Expand(fs, text, base, stack, check).Ok?
    ensures NoIncludes(lines) && Expand(fs, text, base, stack, check) == Ok(Unlines(lines))
    decreases MAX_DEPTH - |stack|, 1, 0
  {
    LinesAreLines(text, 0);
    lines := LinesExpansion(fs, Lines(text), base, stack, check);
  }

  lemma {:induction false} LinesExpansion(fs: FileSystem, source: seq<string>, base: string, stack: seq<string>, check: bool)
    returns (lines: seq<string>)
    requires |stack| < MAX_DEPTH && ExpandLines(fs, source, base, stack, check).Ok?
    requires forall i :: 0 <= i < |source| ==> IsLine(source[i])
    ensures NoIncludes(lines) && ExpandLines(fs, source, base, stack, check) == Ok(Unlines(lines))
    decreases MAX_DEPTH - |stack|, 0, |source|
  {
    if source == [] {
      lines := [];
    } else {
      var first := LineExpansion(fs, source[0], base, stack, check);
      var rest := LinesExpansion(fs, source[1..], base, stack, check);
      UnlinesConcat(first, rest);
      lines := first + rest;
    }
  }

  /** The lines of an included file's expansion, which is made to end in a newline. */
  lemma {:induction false} WithNewline(expanded: seq<string>) returns (lines: seq<string>)
    requires NoIncludes(expanded)
    ensures NoIncludes(lines) && EndWithNewline(Unlines(expanded)) == Unlines(lines)
  {
    UnlinesEndsWithNewline(expanded);
    lines := expanded;
    if expanded == [] {
      lines := [""];
      UnlinesOfOne("");
    }
  }

  lemma {:induction false} LineExpansion(fs: FileSystem, line: string, base: string, stack: seq<string>, check: bool)
    returns (lines: seq<string>)
    requires |stack| < MAX_DEPTH && ExpandLine(fs, line, base, stack, check).Ok? && IsLine(line)
    ensures NoIncludes(lines) && ExpandLine(fs, line, base, stack, check) == Ok(Unlines(lines))
    decreases MAX_DEPTH - |stack|, 0, 0
  {
    match Target(fs, line, base) {
      case Some(Ok(path)) =>
        var expanded := ExpansionLines(fs, fs.read(path).value, fs.parent(path), stack + [path], check);
        lines := WithNewline(expanded);
      case _ =>
        lines := [line];
        UnlinesOfOne(line);
    }
  }

  lemma {:induction false} UnlinesOfOne(line: string)
    ensures Unlines([line]) == line + "\n"
  {
    assert [line][1..] == [];
    assert line + "\n" + "" == line + "\n";
  }

  /** No line of an expanded script is an include line. */
  lemma {:induction false} ExpansionHasNoIncludeLine(fs: FileSystem, text: string, base: string, stack: seq<string>, check: bool)
    requires Expand(fs, text, base, stack, check).Ok?
    ensures forall i :: 0 <= i < |Lines(Expand(fs, text, base, stack, check).value)| ==>
      ParseSqlIncludeLine(Lines(Expand(fs, text, base, stack, check).value)[i]).None?
  {
    var lines := ExpansionLines(fs, text, base, stack, check);
    LinesOfUnlines(lines);
    forall i | 0 <= i < |lines|
      ensures ParseSqlIncludeLine(StripAll(lines)[i]).None?
    {
      ParseOfStripped(lines[i]);
    }
  }

  // ----- Expanding twice -----

  lemma {:induction false} NothingToExpand(fs: FileSystem, lines: seq<string>, base: string, stack: seq<string>, check: bool)
    requires |stack| < MAX_DEPTH && forall i :: 0 <= i < |lines| ==> ParseSqlIncludeLine(lines[i]).None?
    ensures ExpandLines(fs, lines, base, stack, check) == Ok(Unlines(lines))
    decreases |lines|
  {
    if lines != [] {
      NothingToExpand(fs, lines[1..], base, stack, check);
    }
  }

  predicate HasCrLf(text: string) {
    exists i :: 0 <= i < |text| - 1 && text[i] == '\r' && text[i + 1] == '\n'
  }

  predicate EndsInCr(line: string) {
    line != "" && line[|line| - 1] == '\r'
  }

  lemma {:induction false} CrLfIffSomeLineEndsInCr(lines: seq<string>)
    requires forall i :: 0 <= i < |lines| ==> IsLine(lines[i])
    ensures HasCrLf(Unlines(lines)) <==> exists i :: 0 <= i < |lines| && EndsInCr(lines[i])
  {
    if lines != [] {
      var first, rest := lines[0], Unlines(lines[1..]);
      CrLfIffSomeLineEndsInCr(lines[1..]);
      CrLfInFirstLine(first, rest);
      assert (exists i :: 0 <= i < |lines| && EndsInCr(lines[i])) <==>
          EndsInCr(first) || exists i :: 0 <= i < |lines[1..]| && EndsInCr(lines[1..][i]) by {
        if i :| 0 < i < |lines| && EndsInCr(lines[i]) {
          assert EndsInCr(lines[1..][i - 1]);
        }
      }
    }
  }

  lemma {:induction false} CrLfInFirstLine(line: string, rest: string)
    requires IsLine(line)
    ensures HasCrLf(line + "\n" + rest) <==> EndsInCr(line) || HasCrLf(rest)
  {
    var text, n := line + "\n" + rest, |line| + 1;
    if EndsInCr(line) {
      assert text[|line| - 1] == '\r' && text[|line|] == '\n';
    }
    if i :| 0 <= i < |rest| - 1 && rest[i] == '\r' && rest[i + 1] == '\n' {
      assert text[n + i] == '\r' && text[n + i + 1] == '\n';
    }
    if i :| 0 <= i < |text| - 1 && text[i] == '\r' && text[i + 1] == '\n' {
      if i >= n {
        assert rest[i - n] == '\r' && rest[i - n + 1] == '\n';
      }
    }
  }

  /** Dropping carriage returns leaves the text alone exactly when there are none to drop. */
  lemma {:induction false} StrippingIsIdentityIff(lines: seq<string>)
    ensures |Unlines(StripAll(lines))| <= |Unlines(lines)|
    ensures Unlines(StripAll(lines)) == Unlines(lines) <==> forall i :: 0 <= i < |lines| ==> !EndsInCr(lines[i])
  {
    if lines != [] {
      StrippingIsIdentityIff(lines[1..]);
      assert StripAll(lines)[1..] == StripAll(lines[1..]);
      if EndsInCr(lines[0]) {
        assert |Unlines(StripAll(lines))| < |Unlines(lines)|;
      } else {
        var head := lines[0] + "\n";
        assert Unlines(StripAll(lines)) == head + Unlines(StripAll(lines[1..]));
        assert Unlines(lines) == head + Unlines(lines[1..]);
        SamePrefix(head, Unlines(StripAll(lines[1..])), Unlines(lines[1..]));
        if forall i :: 0 <= i < |lines[1..]| ==> !EndsInCr(lines[1..][i]) {
          assert forall i :: 0 < i < |lines| ==> lines[i] == lines[1..][i - 1];
        }
      }
    }
  }

  lemma {:induction false} SamePrefix(head: string, a: string, b: string)
    ensures head + a == head + b <==> a == b
  {
    assert (head + a)[|head|..] == a && (head + b)[|head|..] == b;
  }

  /**
    Expanding an expanded script again, on any file system and at any legal depth, succeeds
    and returns it unchanged if and only if it holds no carriage return before a newline.
   */
  lemma {:induction false} ReexpansionIsIdentityIff(fs: FileSystem, text: string, base: string, stack: seq<string>, check: bool,
                                 fs': FileSystem, base': string, stack': seq<string>, check': bool)
    requires Expand(fs, text, base, stack, check).Ok? && |stack'| < MAX_DEPTH
    ensures var once := Expand(fs, text, base, stack, check).value;
      && Expand(fs', once, base', stack', check').Ok?
      && (Expand(fs', once, base', stack', check') == Ok(once) <==> !HasCrLf(once))
  {
    var lines := ExpansionLines(fs, text, base, stack, check);
    var once := Unlines(lines);
    ExpansionHasNoIncludeLine(fs, text, base, stack, check);
    NothingToExpand(fs', Lines(once), base', stack', check');
    LinesOfUnlines(lines);
    StrippingIsIdentityIff(lines);
    CrLfIffSomeLineEndsInCr(lines);
  }
}
