/**
  Include lines (src/bin/oracle_compare_test_all.rs): whatever whitespace, semicolon and
  comment surround the path of an include, exactly the path is read, with four exceptions.
 */
module IncludeLines {
  import opened Prelude
  import opened SqlBytes
  import opened Trimming
  import opened IncludeExpansion

  /** Two dashes start a comment. */
  predicate HasDashes(s: string, k: nat) {
    k + 1 < |s| && s[k] == '-' && s[k + 1] == '-'
  }

  predicate NoDashes(s: string) {
    forall k :: 0 <= k < |s| ==> !HasDashes(s, k)
  }

  /** Anything without whitespace at its ends. */
  predicate IsPath(path: string) {
    path != "" && !IsWhitespace(path[0]) && !IsWhitespace(path[|path| - 1])
  }

  function Last(s: string): char
    requires s != ""
  {
    s[|s| - 1]
  }

  /** The parts of an include line around its path. */
  datatype Around = Around(indent: string, relative: bool, a: string, b: string, semicolon: bool, c: string, comment: string)

  predicate IsAround(l: Around) {
    && AllWhitespace(l.indent) && AllWhitespace(l.a) && AllWhitespace(l.b) && AllWhitespace(l.c)
    && (l.comment == "" || StartsWith(l.comment, "--"))
  }

  function At(relative: bool): string {
    if relative then "@@" else "@"
  }

  /** What stands behind the path and its whitespace. */
  function Behind(l: Around): string {
    l.b + (if l.semicolon then ";" else "") + l.c
  }

  function Spelled(l: Around, path: string): string {
    l.indent + (At(l.relative) + (l.a + path + Behind(l) + l.comment))
  }

  // ----- Comments -----

  /** What is in front of a comment is kept whole, if it holds no dashes and does not end in one. */
  lemma {:induction false} DashesEnd(body: string, comment: string)
    requires NoDashes(body) && (body != "" && comment != "" ==> Last(body) != '-')
    requires comment == "" || StartsWith(comment, "--")
    ensures BeforeDashes(body + comment) == body
    decreases |body|
  {
    var all := body + comment;
    if body == "" {
      assert all == comment;
    } else {
      assert !StartsWith(all, "--") by {
        assert !HasDashes(body, 0);
        if |body| > 1 {
          assert all[..2] == [body[0], body[1]];
        } else {
          assert |all| >= 2 ==> all[..2][0] == body[0];
        }
      }
      assert all[1..] == body[1..] + comment && all[0] == body[0];
      forall k | 0 <= k < |body[1..]|
        ensures !HasDashes(body[1..], k)
      {
        assert !HasDashes(body, k + 1);
      }
      DashesEnd(body[1..], comment);
      assert body == [body[0]] + body[1..];
    }
  }

  predicate HasNoDash(s: string) {
    forall k :: 0 <= k < |s| ==> s[k] != '-'
  }

  /** Text without any dash around a path brings no comment about. */
  lemma {:induction false} NoDashesAround(x: string, path: string, y: string)
    requires HasNoDash(x) && HasNoDash(y) && NoDashes(path)
    ensures NoDashes(x + path + y)
  {
    var all := x + path + y;
    forall k | 0 <= k < |all|
      ensures !HasDashes(all, k)
    {
      if |x| <= k < |x| + |path| {
        assert !HasDashes(path, k - |x|);
      }
    }
  }

  // ----- Reading a line -----

  lemma {:induction false} AtIsRead(relative: bool, rest: string)
    requires rest != ""
    ensures var trimmed := At(relative) + rest;
      && StartsWith(trimmed, "@")
      && (StartsWith(trimmed, "@@") <==> relative || rest[0] == '@')
      && trimmed[if relative then 2 else 1..] == rest
  {
    var trimmed := At(relative) + rest;
    assert trimmed[..1] == "@";
    if relative {
      assert trimmed[..2] == "@@";
    } else {
      assert trimmed[..2] == ['@', rest[0]];
    }
  }

  /** What the parser makes of the text behind the `@`. */
  function TargetText(rest: string): string {
    Trim(WithoutSemicolon(Trim(BeforeDashes(rest))))
  }

  lemma {:induction false} TargetIsRead(indent: string, relative: bool, rest: string, path: string)
    requires AllWhitespace(indent) && rest != "" && path != "" && (relative || rest[0] != '@')
    ensures ParseSqlIncludeLine(indent + (At(relative) + rest)) == Some((path, relative)) <==> TargetText(rest) == path
  {
    var trimmed := At(relative) + rest;
    assert !IsWhitespace('@');
    TrimStartSkips(indent, trimmed);
    AtIsRead(relative, rest);
    TrimOfNothing();
  }

  lemma {:induction false} TrimOfNothing()
    ensures Trim(WithoutSemicolon("")) == ""
  {
  }

  lemma {:induction false} DoubledAtIsRelative(indent: string, rest: string, path: string)
    requires AllWhitespace(indent) && rest != "" && rest[0] == '@'
    ensures ParseSqlIncludeLine(indent + (At(false) + rest)) != Some((path, false))
  {
    assert !IsWhitespace('@');
    TrimStartSkips(indent, At(false) + rest);
    AtIsRead(false, rest);
  }

  // ----- Targets -----

  lemma {:induction false} PathIsTrimmed(path: string, b: string)
    requires AllWhitespace(b) && IsPath(path)
    ensures Trim(path + b) == path
  {
    TrimSkips("", path, b);
    assert "" + path + b == path + b;
  }

  lemma {:induction false} TargetWithSemicolon(a: string, path: string, b: string, c: string)
    requires AllWhitespace(a) && AllWhitespace(b) && AllWhitespace(c) && IsPath(path)
    ensures Trim(WithoutSemicolon(Trim(a + path + (b + ";" + c)))) == path
  {
    var core := path + b + ";";
    assert a + path + (b + ";" + c) == a + core + c;
    TrimSkips(a, core, c);
    assert core[..|core| - 1] == path + b;
    PathIsTrimmed(path, b);
  }

  lemma {:induction false} TargetWithoutSemicolon(a: string, path: string, b: string, c: string)
    requires AllWhitespace(a) && AllWhitespace(b) && AllWhitespace(c) && IsPath(path)
    ensures Trim(WithoutSemicolon(Trim(a + path + (b + "" + c)))) == path <==> Last(path) != ';'
  {
    assert b + "" + c == b + c;
    TrimSkips(a, path, b + c);
    if Last(path) == ';' {
      TrimIsNoLonger(path[..|path| - 1]);
    } else {
      PathIsTrimmed(path, "");
      assert path + "" == path;
    }
  }

  /** A path that ends in a dash right before a comment loses it. */
  lemma {:induction false} GluedTargetIsShorter(a: string, path: string, comment: string)
    requires AllWhitespace(a) && IsPath(path) && NoDashes(path) && Last(path) == '-' && StartsWith(comment, "--")
    ensures TargetText(a + path + comment) != path
  {
    var n := |path| - 1;
    var shorter := path[..n];
    assert a + path + comment == a + shorter + ("-" + comment);
    assert StartsWith("-" + comment, "--") by {
      assert comment[..2] == "--" && ("-" + comment)[..2] == ['-', comment[0]] && comment[0] == comment[..2][0];
    }
    assert NoDashes(shorter) by {
      assert forall k :: 0 <= k < |shorter| ==> HasDashes(shorter, k) ==> HasDashes(path, k);
    }
    if n > 0 {
      assert !HasDashes(path, n - 1);
    }
    NoDashesAround(a, shorter, "");
    assert a + shorter + "" == a + shorter;
    assert a + shorter != "" ==> Last(a + shorter) != '-';
    DashesEnd(a + shorter, "-" + comment);
    SpaceInFront(a, shorter);
    TrimIsNoLonger(shorter);
    var target := Trim(a + shorter);
    TrimIsNoLonger(WithoutSemicolon(target));
  }

  // ----- What is read never holds two dashes -----

  lemma {:induction false} PartHasNoDashes(s: string, i: nat, j: nat)
    requires NoDashes(s) && i <= j <= |s|
    ensures NoDashes(s[i..j])
  {
    forall k | 0 <= k < j - i
      ensures !HasDashes(s[i..j], k)
    {
      assert !HasDashes(s, i + k);
    }
  }

  lemma {:induction false} NoDashesBefore(s: string)
    ensures NoDashes(BeforeDashes(s)) && BeforeDashes(s) <= s
  {
    if s != "" && !StartsWith(s, "--") {
      var before := BeforeDashes(s[1..]);
      NoDashesBefore(s[1..]);
      assert s == [s[0]] + s[1..];
      forall k | 0 <= k < 1 + |before|
        ensures !HasDashes([s[0]] + before, k)
      {
        if k == 0 {
          assert |s| > 1 ==> s[..2] == [s[0], s[1]];
        } else {
          assert !HasDashes(before, k - 1);
        }
      }
    }
  }

  lemma {:induction false} TrimStartIsPart(s: string) returns (i: nat)
    ensures i <= |s| && TrimStart(s) == s[i..]
  {
    if s != "" && IsWhitespace(s[0]) {
      var rest := TrimStartIsPart(s[1..]);
      i := rest + 1;
      assert s[1..][rest..] == s[i..];
    } else {
      i := 0;
    }
  }

  lemma {:induction false} TrimmedHasNoDashes(s: string)
    requires NoDashes(s)
    ensures NoDashes(Trim(s))
  {
    var i := TrimStartIsPart(s);
    PartHasNoDashes(s, i, |s|);
    assert s[i..|s|] == TrimStart(s);
    var end := |TrimEnd(TrimStart(s))|;
    PartHasNoDashes(TrimStart(s), 0, end);
    assert TrimStart(s)[0..end] == TrimEnd(TrimStart(s));
  }

  lemma {:induction false} TargetHasNoDashes(rest: string)
    ensures NoDashes(TargetText(rest))
  {
    NoDashesBefore(rest);
    TrimmedHasNoDashes(BeforeDashes(rest));
    var target := Trim(BeforeDashes(rest));
    PartHasNoDashes(target, 0, |WithoutSemicolon(target)|);
    assert WithoutSemicolon(target) == target[0..|WithoutSemicolon(target)|];
    TrimmedHasNoDashes(WithoutSemicolon(target));
  }

  // ----- The exact condition -----

  /**
    A path has no whitespace at its ends and holds no `--`; one that starts with `@` needs whitespace
    behind a single `@`, one that ends in `;` a semicolon, and one that ends in `-` no comment glued to it.
   */
  predicate StandsClear(l: Around, path: string) {
    && IsPath(path) && NoDashes(path)
    && (path[0] == '@' ==> l.relative || l.a != "")
    && (Last(path) == ';' ==> l.semicolon)
    && (Last(path) == '-' ==> l.comment == "" || Behind(l) != "")
  }

  lemma {:induction false} TargetOf(l: Around, path: string)
    requires IsAround(l) && IsPath(path) && NoDashes(path)
    ensures TargetText(l.a + path + Behind(l) + l.comment) == path <==>
      (Last(path) == ';' ==> l.semicolon) && (Last(path) == '-' ==> l.comment == "" || Behind(l) != "")
  {
    var body := l.a + path + Behind(l);
    if Last(path) == '-' && l.comment != "" && Behind(l) == "" {
      assert body + l.comment == l.a + path + l.comment;
      GluedTargetIsShorter(l.a, path, l.comment);
    } else {
      NoDashesAround(l.a, path, Behind(l));
      LastOfBody(l, path);
      DashesEnd(body, l.comment);
      if l.semicolon {
        TargetWithSemicolon(l.a, path, l.b, l.c);
      } else {
        TargetWithoutSemicolon(l.a, path, l.b, l.c);
      }
    }
  }

  lemma {:induction false} LastOfBody(l: Around, path: string)
    requires IsAround(l) && path != ""
    ensures HasNoDash(l.a) && HasNoDash(Behind(l))
    ensures var body := l.a + path + Behind(l); body != "" && (Last(body) == '-' ==> Behind(l) == "" && Last(path) == '-')
  {
    assert !IsWhitespace('-');
    var behind := Behind(l);
    assert behind != "" ==> Last(l.a + path + behind) == Last(behind);
    assert behind == "" ==> l.a + path + behind == l.a + path;
  }

  lemma {:induction false} PathIsReadIff(l: Around, path: string)
    requires IsAround(l) && IsPath(path)
    ensures ParseSqlIncludeLine(Spelled(l, path)) == Some((path, l.relative)) <==> StandsClear(l, path)
  {
    var rest := l.a + path + Behind(l) + l.comment;
    assert rest[0] == if l.a == "" then path[0] else l.a[0];
    assert !IsWhitespace('@');
    if !l.relative && rest[0] == '@' {
      DoubledAtIsRelative(l.indent, rest, path);
    } else {
      TargetIsRead(l.indent, l.relative, rest, path);
      if NoDashes(path) {
        TargetOf(l, path);
      } else {
        TargetHasNoDashes(rest);
      }
    }
  }

  /**
    An include line names exactly the text it was written for, whatever whitespace stands in front,
    around it and around an optional semicolon, and whatever comment behind, if and only if that text
    is a path and stands clear of what it could be mistaken for.
   */
  lemma {:induction false} IncludeLineNamesItsPathIff(l: Around, path: string)
    requires IsAround(l)
    ensures ParseSqlIncludeLine(Spelled(l, path)) == Some((path, l.relative)) <==> StandsClear(l, path)
  {
    if IsPath(path) {
      PathIsReadIff(l, path);
    }
  }

  lemma {:induction false} CutPathIsSpelled(l: Around)
    requires l == Around("", false, "", "", false, "", "--b")
    ensures Spelled(l, "a") == "@a--b"
  {
    assert Behind(l) == "" && l.a + "a" + "" + l.comment == "a--b";
    assert "" + ("@" + "a--b") == "@a--b";
  }

  lemma {:induction false} CutPathStandsClear(l: Around)
    requires l == Around("", false, "", "", false, "", "--b")
    ensures IsAround(l) && StandsClear(l, "a")
  {
    assert l.comment[..2] == "--";
  }

  lemma {:induction false} CutPathIsRead(l: Around, line: string)
    requires IsAround(l) && StandsClear(l, "a") && !l.relative && line == Spelled(l, "a")
    ensures ParseSqlIncludeLine(line) == Some(("a", false))
  {
    IncludeLineNamesItsPathIff(l, "a");
  }

  /** A line on which it does not: the path `a--b` is cut at its dashes. */
  lemma {:induction false} DashesCutThePath(line: string)
    requires line == "@a--b"
    ensures ParseSqlIncludeLine(line) == Some(("a", false))
  {
    var l := Around("", false, "", "", false, "", "--b");
    CutPathIsSpelled(l);
    CutPathStandsClear(l);
    CutPathIsRead(l, line);
  }
}
