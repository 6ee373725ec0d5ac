/** `str::trim` and its one-sided forms. */
module Trimming {
  import opened SqlBytes

  function TrimStart(s: string): (r: string)
    ensures r == [] || !IsWhitespace(r[0])
  {
    if s != "" && IsWhitespace(s[0]) then TrimStart(s[1..]) else s
  }

  function TrimEnd(s: string): (r: string)
    ensures r == [] || !IsWhitespace(r[|r| - 1])
    ensures r <= s
  {
    if s != "" && IsWhitespace(s[|s| - 1]) then TrimEnd(s[..|s| - 1]) else s
  }

  function Trim(s: string): (r: string)
    ensures r == [] || (!IsWhitespace(r[0]) && !IsWhitespace(r[|r| - 1]))
    ensures TrimEnd(TrimStart(r)) == r
  {
    var r := TrimEnd(TrimStart(s));
    assert r == [] || r[0] == TrimStart(s)[0];
    r
  }

  // ----- Whitespace around a text -----

  predicate AllWhitespace(s: string) {
    forall k :: 0 <= k < |s| ==> IsWhitespace(s[k])
  }

  lemma {:induction false} TrimStartSkips(space: string, rest: string)
    requires AllWhitespace(space) && (rest == "" || !IsWhitespace(rest[0]))
    ensures TrimStart(space + rest) == rest
  {
    if space == "" {
      assert space + rest == rest;
    } else {
      assert (space + rest)[1..] == space[1..] + rest;
      TrimStartSkips(space[1..], rest);
    }
  }

  lemma {:induction false} TrimEndSkips(rest: string, space: string)
    requires AllWhitespace(space) && (rest == "" || !IsWhitespace(rest[|rest| - 1]))
    ensures TrimEnd(rest + space) == rest
    decreases |space|
  {
    if space == "" {
      assert rest + space == rest;
    } else {
      var n := |space| - 1;
      assert (rest + space)[..|rest + space| - 1] == rest + space[..n];
      assert (rest + space)[|rest + space| - 1] == space[n];
      TrimEndSkips(rest, space[..n]);
    }
  }

  lemma {:induction false} TrimSkips(before: string, core: string, after: string)
    requires AllWhitespace(before) && AllWhitespace(after)
    requires core != "" && !IsWhitespace(core[0]) && !IsWhitespace(core[|core| - 1])
    ensures Trim(before + core + after) == core
  {
    assert before + core + after == before + (core + after);
    TrimStartSkips(before, core + after);
    TrimEndSkips(core, after);
  }

  lemma {:induction false} TrimStartIsNoLonger(s: string)
    ensures |TrimStart(s)| <= |s|
  {
    if s != "" && IsWhitespace(s[0]) {
      TrimStartIsNoLonger(s[1..]);
    }
  }

  lemma {:induction false} TrimIsNoLonger(s: string)
    ensures |Trim(s)| <= |s|
  {
    TrimStartIsNoLonger(s);
  }

  lemma {:induction false} SpaceInFront(space: string, s: string)
    requires AllWhitespace(space)
    ensures Trim(space + s) == Trim(s)
  {
    if space == "" {
      assert space + s == s;
    } else {
      assert (space + s)[1..] == space[1..] + s;
      SpaceInFront(space[1..], s);
    }
  }
}
