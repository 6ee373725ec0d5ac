/**
  The bounded cache in front of the MySQL-syntax classifier (src/sql_text.rs):
  its two critical sections, and what one insertion leaves in it.
 */
module MysqlCompatCache {
  import opened Prelude

  const MAX_ENTRIES: nat := 64
  const MAX_SQL_BYTES: nat := 2 * 1024 * 1024
  const MIN_SQL_LEN: nat := 256

  datatype Entry = Entry(sql: string, mysqlCompatible: bool)

  /** `entries[0]` is the front of the deque. */
  datatype Cache = Cache(entries: seq<Entry>, totalSqlBytes: nat)

  predicate ShouldCache(sql: string) {
    MIN_SQL_LEN <= |sql| <= MAX_SQL_BYTES
  }

  function SaturatingAdd(a: nat, b: nat): nat {
    if a + b > USIZE_MAX then USIZE_MAX else a + b
  }

  function SaturatingSub(a: nat, b: nat): nat {
    if a < b then 0 else a - b
  }

  function TotalBytes(entries: seq<Entry>): nat {
    if entries == [] then 0 else TotalBytes(entries[..|entries| - 1]) + |entries[|entries| - 1].sql|
  }

  // ----- The two critical sections, on values -----

  function Position(entries: seq<Entry>, sql: string): (r: Option<nat>)
    ensures r.Some? ==> r.value < |entries| && entries[r.value].sql == sql && forall j :: 0 <= j < r.value ==> entries[j].sql != sql
    ensures r.None? ==> forall j :: 0 <= j < |entries| ==> entries[j].sql != sql
  {
    if entries == [] then None
    else if entries[0].sql == sql then Some(0)
    else
      match Position(entries[1..], sql)
      case None => None
      case Some(k) => assert forall j :: 0 < j < |entries| ==> entries[j] == entries[1..][j - 1]; Some(k + 1)
  }

  function RemoveAt(entries: seq<Entry>, i: nat): seq<Entry>
    requires i < |entries|
  {
    entries[..i] + entries[i + 1..]
  }

  datatype LookupOutcome = Hit(flag: bool) | Fallback | Miss

  /** `VecDeque::remove`: nothing when the index is out of range. */
  function TryRemove(entries: seq<Entry>, i: nat): Option<(Entry, seq<Entry>)> {
    if i < |entries| then Some((entries[i], RemoveAt(entries, i))) else None
  }

  function LookedUp(c: Cache, sql: string): (Cache, LookupOutcome) {
    match Position(c.entries, sql)
    case None => (c, Miss)
    case Some(i) =>
      match TryRemove(c.entries, i)
      case None => (c, Fallback)
      case Some((entry, rest)) => (c.(entries := [entry] + rest), Hit(entry.mysqlCompatible))
  }

  predicate OverLimit(c: Cache) {
    |c.entries| > MAX_ENTRIES || c.totalSqlBytes > MAX_SQL_BYTES
  }

  function Evicted(c: Cache): Cache
    decreases |c.entries|
  {
    if !OverLimit(c) || c.entries == [] then c
    else
      var n := |c.entries| - 1;
      Evicted(Cache(c.entries[..n], SaturatingSub(c.totalSqlBytes, |c.entries[n].sql|)))
  }

  /** The new most-recently-used order, before eviction: the old copy goes, the new entry leads. */
  function WithNewFront(c: Cache, sql: string, flag: bool): Cache {
    match Position(c.entries, sql)
    case Some(i) => Cache([Entry(sql, flag)] + RemoveAt(c.entries, i), c.totalSqlBytes)
    case None => Cache([Entry(sql, flag)] + c.entries, SaturatingAdd(c.totalSqlBytes, |sql|))
  }

  function Inserted(c: Cache, sql: string, flag: bool): Cache {
    Evicted(WithNewFront(c, sql, flag))
  }

  // ----- The mutable cache -----

  method FindPosition(entries: seq<Entry>, sql: string) returns (r: Option<nat>)
    ensures r == Position(entries, sql)
  {
    for i := 0 to |entries|
      invariant forall j :: 0 <= j < i ==> entries[j].sql != sql
    {
      if entries[i].sql == sql {
        return Some(i);
      }
    }
    r := None;
  }

  class CacheState {
    var entries: seq<Entry>
    var totalSqlBytes: nat

    function Value(): Cache
      reads this
    {
      Cache(entries, totalSqlBytes)
    }

    constructor ()
      ensures Value() == Cache([], 0)
    {
      entries, totalSqlBytes := [], 0;
    }

    method Lookup(sql: string) returns (outcome: LookupOutcome)
      modifies this
      ensures (Value(), outcome) == LookedUp(old(Value()), sql)
      ensures outcome != Fallback
    {
      var hitIdx := FindPosition(entries, sql);
      if hitIdx.Some? {
        var removed := TryRemove(entries, hitIdx.value);
        if removed.None? {
          return Fallback;
        }
        var (entry, rest) := removed.value;
        entries := [entry] + rest;
        return Hit(entry.mysqlCompatible);
      }
      outcome := Miss;
    }

    method Insert(sql: string, flag: bool)
      modifies this
      ensures Value() == Inserted(old(Value()), sql, flag)
    {
      var existing := FindPosition(entries, sql);
      if existing.Some? {
        entries := RemoveAt(entries, existing.value);
      } else {
        totalSqlBytes := SaturatingAdd(totalSqlBytes, |sql|);
      }
      entries := [Entry(sql, flag)] + entries;
      assert Value() == WithNewFront(old(Value()), sql, flag);
      EvictToLimits();
    }

    method EvictToLimits()
      modifies this
      ensures Value() == Evicted(old(Value()))
    {
      ghost var evicted := Evicted(Value());
      while |entries| > MAX_ENTRIES || totalSqlBytes > MAX_SQL_BYTES
        invariant Evicted(Value()) == evicted
        decreases |entries|
      {
        if |entries| == 0 {
          break;
        }
        var removed := entries[|entries| - 1];
        entries := entries[..|entries| - 1];
        totalSqlBytes := SaturatingSub(totalSqlBytes, |removed.sql|);
      }
    }
  }

  // ----- What one insertion leaves -----

  predicate Distinct(entries: seq<Entry>) {
    forall i, j :: 0 <= i < j < |entries| ==> entries[i].sql != entries[j].sql
  }

  predicate Fits(entries: seq<Entry>) {
    |entries| <= MAX_ENTRIES && TotalBytes(entries) <= MAX_SQL_BYTES
  }

  predicate Valid(c: Cache) {
    && Distinct(c.entries)
    && c.totalSqlBytes == TotalBytes(c.entries)
    && Fits(c.entries)
  }

  ghost predicate LongestFittingPrefix(p: seq<Entry>, order: seq<Entry>) {
    && IsPrefixOf(p, order)
    && Fits(p)
    && forall n :: 0 <= n <= |order| && Fits(order[..n]) ==> n <= |p|
  }

  lemma {:induction false} TotalBytesConcat(a: seq<Entry>, b: seq<Entry>)
    ensures TotalBytes(a + b) == TotalBytes(a) + TotalBytes(b)
  {
    if b == [] {
      assert a + b == a;
    } else {
      assert (a + b)[..|a + b| - 1] == a + b[..|b| - 1];
      TotalBytesConcat(a, b[..|b| - 1]);
    }
  }

  lemma {:induction false} TotalBytesWithout(entries: seq<Entry>, i: nat)
    requires i < |entries|
    ensures TotalBytes(RemoveAt(entries, i)) + |entries[i].sql| == TotalBytes(entries)
  {
    assert entries == entries[..i] + ([entries[i]] + entries[i + 1..]);
    TotalBytesConcat(entries[..i], [entries[i]] + entries[i + 1..]);
    TotalBytesConcat([entries[i]], entries[i + 1..]);
    TotalBytesConcat(entries[..i], entries[i + 1..]);
    assert [entries[i]][..0] == [];
  }

  /** Eviction keeps the longest prefix that fits, and its byte total stays the true sum. */
  lemma {:induction false} EvictedIsLongestFittingPrefix(c: Cache)
    requires c.totalSqlBytes == TotalBytes(c.entries)
    ensures Evicted(c).totalSqlBytes == TotalBytes(Evicted(c).entries)
    ensures LongestFittingPrefix(Evicted(c).entries, c.entries)
    decreases |c.entries|
  {
    if OverLimit(c) && c.entries != [] {
      var n := |c.entries| - 1;
      var shorter := Cache(c.entries[..n], SaturatingSub(c.totalSqlBytes, |c.entries[n].sql|));
      EvictedIsLongestFittingPrefix(shorter);
      LongestAlsoOfLonger(Evicted(shorter).entries, c.entries);
    } else {
      assert c.entries[..|c.entries|] == c.entries;
    }
  }

  /** An order that does not fit has the longest fitting prefix of the order without its last entry. */
  lemma {:induction false} LongestAlsoOfLonger(p: seq<Entry>, order: seq<Entry>)
    requires order != [] && !Fits(order) && LongestFittingPrefix(p, order[..|order| - 1])
    ensures LongestFittingPrefix(p, order)
  {
    var shorter := order[..|order| - 1];
    assert order[..|p|] == shorter[..|p|];
    forall n | 0 <= n <= |order| && Fits(order[..n])
      ensures n <= |p|
    {
      assert order[..|order|] == order;
      assert n < |order| && shorter[..n] == order[..n];
    }
  }

  /** The state of the eviction loop once `n` entries are left. */
  function EvictedTo(c: Cache, n: nat): (r: Cache)
    requires n <= |c.entries|
    ensures r.entries == c.entries[..n]
    decreases |c.entries| - n
  {
    if n == |c.entries| then c
    else
      var before := EvictedTo(c, n + 1);
      Cache(before.entries[..n], SaturatingSub(before.totalSqlBytes, |before.entries[n].sql|))
  }

  lemma {:induction false} EvictedToOnce(c: Cache, n: nat)
    requires n < |c.entries|
    ensures var last := |c.entries| - 1;
      EvictedTo(c, n) == EvictedTo(Cache(c.entries[..last], SaturatingSub(c.totalSqlBytes, |c.entries[last].sql|)), n)
    decreases |c.entries| - n
  {
    if n + 1 < |c.entries| {
      EvictedToOnce(c, n + 1);
    }
  }

  /** Eviction only goes through these states. */
  lemma {:induction false} EvictionStops(c: Cache)
    ensures |Evicted(c).entries| <= |c.entries| && Evicted(c) == EvictedTo(c, |Evicted(c).entries|)
    decreases |c.entries|
  {
    if OverLimit(c) && c.entries != [] {
      var last := |c.entries| - 1;
      EvictionStops(Cache(c.entries[..last], SaturatingSub(c.totalSqlBytes, |c.entries[last].sql|)));
      EvictedToOnce(c, |Evicted(c).entries|);
    }
  }

  /** In each of them the byte total is the true sum, so taking the last entry off it never saturates. */
  lemma {:induction false} EvictionTotalsAreExact(c: Cache, n: nat)
    requires c.totalSqlBytes == TotalBytes(c.entries) && n <= |c.entries|
    ensures EvictedTo(c, n).totalSqlBytes == TotalBytes(c.entries[..n])
    ensures n > 0 ==> |c.entries[n - 1].sql| <= EvictedTo(c, n).totalSqlBytes
    decreases |c.entries| - n
  {
    if n == |c.entries| {
      assert c.entries[..n] == c.entries;
    } else {
      EvictionTotalsAreExact(c, n + 1);
      assert c.entries[..n + 1][..n] == c.entries[..n];
    }
  }

  lemma {:induction false} WithNewFrontKeepsBooks(c: Cache, sql: string, flag: bool)
    requires Valid(c) && ShouldCache(sql)
    ensures c.totalSqlBytes + |sql| <= USIZE_MAX
    ensures var front := WithNewFront(c, sql, flag);
      Distinct(front.entries) && front.totalSqlBytes == TotalBytes(front.entries)
  {
    var front := WithNewFront(c, sql, flag);
    var newest := [Entry(sql, flag)];
    assert newest[..0] == [];
    match Position(c.entries, sql) {
      case Some(i) =>
        TotalBytesWithout(c.entries, i);
        TotalBytesConcat(newest, RemoveAt(c.entries, i));
      case None =>
        TotalBytesConcat(newest, c.entries);
    }
  }

  /**
    After an insertion the cache is exactly the longest prefix of the most-recently-used
    order that fits both limits, and the new entry is in it because of the size gate.
   */
  lemma {:induction false} InsertedIsLongestFittingPrefix(c: Cache, sql: string, flag: bool)
    requires Valid(c) && ShouldCache(sql)
    ensures Valid(Inserted(c, sql, flag))
    ensures LongestFittingPrefix(Inserted(c, sql, flag).entries, WithNewFront(c, sql, flag).entries)
    ensures Inserted(c, sql, flag).entries != [] && Inserted(c, sql, flag).entries[0] == Entry(sql, flag)
  {
    WithNewFrontKeepsBooks(c, sql, flag);
    var front := WithNewFront(c, sql, flag);
    EvictedIsLongestFittingPrefix(front);
    assert front.entries[..1] == [Entry(sql, flag)];
    assert [Entry(sql, flag)][..0] == [];
    assert Fits(front.entries[..1]);
  }

  lemma {:induction false} LookedUpKeepsValid(c: Cache, sql: string)
    requires Valid(c)
    ensures Valid(LookedUp(c, sql).0)
    ensures LookedUp(c, sql).1 != Fallback
  {
    match Position(c.entries, sql) {
      case None =>
      case Some(i) =>
        var entry := [c.entries[i]];
        TotalBytesWithout(c.entries, i);
        TotalBytesConcat(entry, RemoveAt(c.entries, i));
        assert entry[..0] == [];
    }
  }

  /** A lookup reorders the deque and never changes what it holds. */
  lemma {:induction false} LookupOnlyReorders(c: Cache, sql: string)
    ensures multiset(LookedUp(c, sql).0.entries) == multiset(c.entries)
  {
    match Position(c.entries, sql) {
      case None =>
      case Some(i) =>
        assert c.entries == c.entries[..i] + [c.entries[i]] + c.entries[i + 1..];
    }
  }
}
