/**
  Significant parentheses of a line (src/sql_text.rs): which `(` and `)` count,
  how many closes lead the line, and the saturating depth they leave behind.
 */
module ParenProfile {
  import opened Prelude
  import opened SqlBytes

  // ----- Scanning a line -----

  datatype Token = Open | Close | Other

  datatype Move = Stop | Skip(next: nat, mode: Mode) | Emit(token: Token, next: nat, mode: Mode)

  predicate ScanState(b: string, i: nat, mode: Mode) {
    i <= |b| && mode.Ok() && !mode.LineComment?
  }

  /** What the scanner does at byte `i`; `leading` is `still_in_leading_close_run`. */
  function ProfileMove(b: string, i: nat, mode: Mode, leading: bool): (r: Move)
    requires ScanState(b, i, mode) && i < |b|
    ensures !r.Stop? ==> i < r.next && ScanState(b, r.next, r.mode)
  {
    if !mode.Plain? then
      var (j, m) := InsideStep(b, i, mode);
      Skip(j, m)
    else if leading && HasAt(b, i, "*/") then Skip(i + 2, Plain)
    else if SqlLineCommentPrefixLen(b, i).Some? then Stop
    else if StartsBlockComment(b, i) then Skip(i + 2, BlockComment)
    else if ParseDollarQuoteTag(b, i).Some? && !LooksLikeConditionalCompilationFlag(b, i) then
      Emit(Other, i + |ParseDollarQuoteTag(b, i).value|, DollarQuote(ParseDollarQuoteTag(b, i).value))
    else if QQuotePrefixAt(b, i).Some? then
      Emit(Other, i + QQuotePrefixAt(b, i).value.prefixLen, QQuote(QQuotePrefixAt(b, i).value.closing))
    else if b[i] == '\'' then Emit(Other, i + 1, SingleQuote)
    else if b[i] == '"' then Emit(Other, i + 1, DoubleQuote)
    else if b[i] == '`' then Emit(Other, i + 1, Backtick)
    else if IsAsciiWhitespace(b[i]) then Skip(i + 1, Plain)
    else Emit(if b[i] == '(' then Open else if b[i] == ')' then Close else Other, i + 1, Plain)
  }

  /** The significant tokens from byte `i` on: parentheses, and `Other` for anything else. */
  function Tokens(b: string, i: nat, mode: Mode, leading: bool): seq<Token>
    requires ScanState(b, i, mode)
    decreases |b| - i
  {
    if i == |b| then []
    else
      match ProfileMove(b, i, mode, leading)
      case Stop => []
      case Skip(j, m) => Tokens(b, j, m, leading)
      case Emit(token, j, m) => [token] + Tokens(b, j, m, leading && token.Close?)
  }

  function LineTokens(line: string): seq<Token> {
    Tokens(line, 0, Plain, true)
  }

  /** The parentheses among the tokens, in order. */
  function Events(tokens: seq<Token>): seq<Token> {
    if tokens == [] then []
    else (if tokens[0].Other? then [] else [tokens[0]]) + Events(tokens[1..])
  }

  /** How many tokens come before the first one that is not a close. */
  function LeadingCloses(tokens: seq<Token>): nat {
    if tokens == [] || !tokens[0].Close? then 0 else 1 + LeadingCloses(tokens[1..])
  }

  datatype Profile = Profile(events: seq<Token>, leadingCloseCount: nat)

  function Absorb(p: Profile, leading: bool, token: Token): Profile {
    match token
    case Open => p.(events := p.events + [Open])
    case Close => Profile(p.events + [Close], if leading then p.leadingCloseCount + 1 else p.leadingCloseCount)
    case Other => p
  }

  function AbsorbAll(p: Profile, leading: bool, tokens: seq<Token>): Profile
    decreases |tokens|
  {
    if tokens == [] then p else AbsorbAll(Absorb(p, leading, tokens[0]), leading && tokens[0].Close?, tokens[1..])
  }

  lemma {:induction false} AbsorbAllCollects(p: Profile, leading: bool, tokens: seq<Token>)
    ensures AbsorbAll(p, leading, tokens)
      == Profile(p.events + Events(tokens), p.leadingCloseCount + if leading then LeadingCloses(tokens) else 0)
    decreases |tokens|
  {
    if tokens == [] {
      assert p.events + [] == p.events;
    } else {
      var q := Absorb(p, leading, tokens[0]);
      AbsorbAllCollects(q, leading && tokens[0].Close?, tokens[1..]);
      var first := if tokens[0].Other? then [] else [tokens[0]];
      assert q.events == p.events + first;
      assert (p.events + first) + Events(tokens[1..]) == p.events + (first + Events(tokens[1..]));
    }
  }

  method SignificantParenProfile(line: string) returns (profile: Profile)
    ensures profile == Profile(Events(LineTokens(line)), LeadingCloses(LineTokens(line)))
  {
    AbsorbAllCollects(Profile([], 0), true, LineTokens(line));
    var i, mode, leading := 0, Plain, true;
    profile := Profile([], 0);
    while i < |line|
      invariant ScanState(line, i, mode)
      invariant AbsorbAll(profile, leading, Tokens(line, i, mode, leading)) == AbsorbAll(Profile([], 0), true, LineTokens(line))
      decreases |line| - i
    {
      match ProfileMove(line, i, mode, leading) {
        case Stop =>
          break;
        case Skip(next, m) =>
          i, mode := next, m;
        case Emit(token, next, m) =>
          assert Tokens(line, i, mode, leading)[1..] == Tokens(line, next, m, leading && token.Close?);
          match token {
            case Open =>
              leading := false;
              profile := profile.(events := profile.events + [Open]);
            case Close =>
              if leading {
                profile := profile.(leadingCloseCount := profile.leadingCloseCount + 1);
              }
              profile := profile.(events := profile.events + [Close]);
            case Other =>
              leading := false;
          }
          i, mode := next, m;
      }
    }
  }

  /** The leading closes are the first events, and the event after them does not extend the run. */
  lemma {:induction false} LeadingClosesAreFirstEvents(tokens: seq<Token>)
    ensures LeadingCloses(tokens) <= |Events(tokens)|
    ensures forall k :: 0 <= k < LeadingCloses(tokens) ==> Events(tokens)[k] == Close
    ensures var n := LeadingCloses(tokens);
      n <= |tokens| && (n < |tokens| ==> tokens[n] != Close) && forall k :: 0 <= k < n ==> tokens[k] == Close
  {
    if tokens != [] && tokens[0].Close? {
      LeadingClosesAreFirstEvents(tokens[1..]);
      assert Events(tokens) == [Close] + Events(tokens[1..]);
    }
  }

  // ----- Depth -----

  function DepthStep(depth: nat, event: Token): nat {
    match event
    case Open => if depth >= USIZE_MAX then USIZE_MAX else depth + 1
    case Close => if depth == 0 then 0 else depth - 1
    case Other => depth
  }

  function DepthAfter(depth: nat, events: seq<Token>): nat {
    if events == [] then depth else DepthStep(DepthAfter(depth, events[..|events| - 1]), events[|events| - 1])
  }

  method SignificantParenDepthAfterProfile(start: nat, events: seq<Token>) returns (depth: nat)
    ensures depth == DepthAfter(start, events)
  {
    depth := start;
    for i := 0 to |events|
      invariant depth == DepthAfter(start, events[..i])
    {
      assert events[..i + 1][..i] == events[..i];
      match events[i] {
        case Open => depth := if depth >= USIZE_MAX then USIZE_MAX else depth + 1;
        case Close => depth := if depth == 0 then 0 else depth - 1;
        case Other =>
      }
    }
    assert events[..|events|] == events;
  }

  /** Opens minus closes, without any saturation. */
  function Net(events: seq<Token>): int {
    if events == [] then 0
    else Net(events[..|events| - 1]) + match events[|events| - 1] case Open => 1 case Close => -1 case Other => 0
  }

  lemma {:induction false} NetOfSuffix(events: seq<Token>, k: nat)
    requires k < |events|
    ensures Net(events[k..]) == Net(events[..|events| - 1][k..])
      + match events[|events| - 1] case Open => 1 case Close => -1 case Other => 0
  {
    assert events[k..][..|events| - k - 1] == events[..|events| - 1][k..];
  }

  /** `r` is the larger of `depth` plus the net of all events and the greatest net of any suffix. */
  ghost predicate IsReflectedDepth(depth: nat, events: seq<Token>, r: int) {
    && depth + Net(events) <= r
    && (forall k :: 0 <= k <= |events| ==> Net(events[k..]) <= r)
    && (r == depth + Net(events) || exists k :: 0 <= k <= |events| && Net(events[k..]) == r)
  }

  /** The depth with no upper limit: an unmatched close is all that is forgotten. */
  function Walk(depth: nat, events: seq<Token>): nat {
    if events == [] then depth
    else
      var before := Walk(depth, events[..|events| - 1]);
      match events[|events| - 1]
      case Open => before + 1
      case Close => if before == 0 then 0 else before - 1
      case Other => before
  }

  /** Saturating at zero forgets exactly the worst prefix: the walk is reflected at zero. */
  lemma {:induction false} WalkIsReflected(depth: nat, events: seq<Token>)
    ensures IsReflectedDepth(depth, events, Walk(depth, events))
  {
    if events == [] {
      assert events[0..] == [];
    } else {
      var n := |events| - 1;
      var before := events[..n];
      WalkIsReflected(depth, before);
      var r := Walk(depth, events);
      forall k | 0 <= k <= |events|
        ensures Net(events[k..]) <= r
      {
        if k < |events| {
          NetOfSuffix(events, k);
        } else {
          assert events[k..] == [];
        }
      }
      assert events[|events|..] == [];
      if Walk(depth, before) != depth + Net(before) {
        var k :| 0 <= k <= n && Net(before[k..]) == Walk(depth, before);
        NetOfSuffix(events, k);
        assert Net(events[k..]) == r || Net(events[|events|..]) == r;
      } else {
        assert r == depth + Net(events) || Net(events[|events|..]) == r;
      }
    }
  }

  /** Whenever the unlimited walk passes the largest `usize`, it comes back to zero later. */
  ghost predicate OverflowsAreForgotten(depth: nat, events: seq<Token>) {
    forall k :: 0 <= k <= |events| && Walk(depth, events[..k]) > USIZE_MAX ==>
      exists j :: k < j <= |events| && Walk(depth, events[..j]) == 0
  }

  lemma {:induction false} DepthAtMostWalk(depth: nat, events: seq<Token>)
    requires depth <= USIZE_MAX
    ensures DepthAfter(depth, events) <= USIZE_MAX && DepthAfter(depth, events) <= Walk(depth, events)
  {
    if events != [] {
      DepthAtMostWalk(depth, events[..|events| - 1]);
    }
  }

  /** Unless the last event leads to zero, it can only add one more overflow. */
  lemma {:induction false} OverflowsOneMore(depth: nat, events: seq<Token>)
    requires events != [] && Walk(depth, events) > 0
    ensures OverflowsAreForgotten(depth, events) <==>
      OverflowsAreForgotten(depth, events[..|events| - 1]) && Walk(depth, events) <= USIZE_MAX
  {
    var before := events[..|events| - 1];
    assert events[..|events|] == events;
    if OverflowsAreForgotten(depth, events) {
      forall k | 0 <= k <= |before| && Walk(depth, before[..k]) > USIZE_MAX
        ensures exists j :: k < j <= |before| && Walk(depth, before[..j]) == 0
      {
        assert before[..k] == events[..k];
        var j :| k < j <= |events| && Walk(depth, events[..j]) == 0;
        assert before[..j] == events[..j];
      }
    }
    if OverflowsAreForgotten(depth, before) && Walk(depth, events) <= USIZE_MAX {
      forall k | 0 <= k <= |events| && Walk(depth, events[..k]) > USIZE_MAX
        ensures exists j :: k < j <= |events| && Walk(depth, events[..j]) == 0
      {
        assert before[..k] == events[..k];
        var j :| k < j <= |before| && Walk(depth, before[..j]) == 0;
        assert events[..j] == before[..j];
      }
    }
  }

  lemma {:induction false} ForgottenAtZero(depth: nat, events: seq<Token>)
    requires Walk(depth, events) == 0
    ensures OverflowsAreForgotten(depth, events)
  {
    assert events[..|events|] == events;
  }

  lemma {:induction false} DepthIsWalkIff(depth: nat, events: seq<Token>)
    requires depth <= USIZE_MAX
    ensures DepthAfter(depth, events) == Walk(depth, events) <==> OverflowsAreForgotten(depth, events)
  {
    DepthAtMostWalk(depth, events);
    if Walk(depth, events) == 0 {
      ForgottenAtZero(depth, events);
    } else if events == [] {
      assert events[..0] == [];
    } else {
      DepthAtMostWalk(depth, events[..|events| - 1]);
      DepthIsWalkIff(depth, events[..|events| - 1]);
      OverflowsOneMore(depth, events);
    }
  }

  /**
    The saturating depth is the larger of the net of all events above the start and the
    greatest net of a suffix, if and only if every overflow past the largest `usize` is
    followed by a return to zero.
   */
  lemma {:induction false} DepthIsReflectedIff(depth: nat, events: seq<Token>)
    requires depth <= USIZE_MAX
    ensures IsReflectedDepth(depth, events, DepthAfter(depth, events)) <==> OverflowsAreForgotten(depth, events)
  {
    WalkIsReflected(depth, events);
    DepthIsWalkIff(depth, events);
    if IsReflectedDepth(depth, events, DepthAfter(depth, events)) {
      ReflectedDepthIsUnique(depth, events, DepthAfter(depth, events), Walk(depth, events));
    }
  }

  lemma {:induction false} ReflectedDepthIsUnique(depth: nat, events: seq<Token>, a: int, b: int)
    requires IsReflectedDepth(depth, events, a) && IsReflectedDepth(depth, events, b)
    ensures a == b
  {
  }

  /** No line has enough parentheses to overflow from a depth that leaves room for all of them. */
  lemma {:induction false} DepthIsReflectedWalk(depth: nat, events: seq<Token>)
    requires depth + |events| <= USIZE_MAX
    ensures IsReflectedDepth(depth, events, DepthAfter(depth, events))
  {
    forall k | 0 <= k <= |events|
      ensures Walk(depth, events[..k]) <= USIZE_MAX
    {
      WalkIsBounded(depth, events[..k]);
    }
    DepthIsReflectedIff(depth, events);
  }

  lemma {:induction false} WalkIsBounded(depth: nat, events: seq<Token>)
    ensures Walk(depth, events) <= depth + |events|
  {
    if events != [] {
      WalkIsBounded(depth, events[..|events| - 1]);
    }
  }

  /** At the limit an open is lost and its close is not, so the depth ends one too low. */
  lemma {:induction false} SaturationLosesAnOpen()
    ensures DepthAfter(USIZE_MAX, [Open, Close]) == USIZE_MAX - 1
    ensures !IsReflectedDepth(USIZE_MAX, [Open, Close], USIZE_MAX - 1)
  {
    var events := [Open, Close];
    assert events[..1] == [Open] && [Open][..0] == [];
    assert DepthAfter(USIZE_MAX, [Open]) == USIZE_MAX;
    assert Net([Open]) == 1 && Net(events) == 0;
  }

  /** Depths over concatenated profiles compose. */
  lemma {:induction false} DepthComposes(depth: nat, a: seq<Token>, b: seq<Token>)
    ensures DepthAfter(depth, a + b) == DepthAfter(DepthAfter(depth, a), b)
  {
    if b == [] {
      assert a + b == a;
    } else {
      assert (a + b)[..|a + b| - 1] == a + b[..|b| - 1];
      DepthComposes(depth, a, b[..|b| - 1]);
    }
  }
}
