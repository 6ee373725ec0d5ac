/**
  Every interleaving of any number of calls to the cached classifier (src/sql_text.rs).
  A call takes the lock twice, to look up and to insert, and classifies between
  the two with the lock free, so calls interleave at those atomic steps.  The
  classifier is an arbitrary function `f` throughout.
 */
module CacheInterleavings {
  import opened Prelude
  import opened MysqlCompatCache

  type Classifier = string -> bool

  datatype DatabaseType = Oracle | MySQL | MariaDB

  datatype Source = FromPreference | NotCached | FromHit | FromFallback | FromInsert

  datatype Phase = Ready | Missed | Classified(flag: bool) | Done(answer: bool, source: Source)

  datatype Call = Call(sql: string, preferred: Option<DatabaseType>, phase: Phase)

  /** `uses` logs the atomic steps that used a cached statement, oldest first. */
  datatype Machine = Machine(cache: Cache, calls: seq<Call>, uses: seq<string>)

  datatype Action = Arrive(sql: string, preferred: Option<DatabaseType>) | Advance(call: nat)

  const INITIAL := Machine(Cache([], 0), [], [])

  function CallAt(s: Machine, i: nat, phase: Phase): Machine
    requires i < |s.calls|
  {
    s.(calls := s.calls[i := s.calls[i].(phase := phase)])
  }

  /** The next atomic step of call `i`. */
  function Advanced(f: Classifier, s: Machine, i: nat): Machine
    requires i < |s.calls|
  {
    var call := s.calls[i];
    match call.phase
    case Ready =>
      if call.preferred.Some? then CallAt(s, i, Done(!call.preferred.value.Oracle?, FromPreference))
      else if !ShouldCache(call.sql) then CallAt(s, i, Done(f(call.sql), NotCached))
      else
        var (cache, outcome) := LookedUp(s.cache, call.sql);
        (match outcome
         case Hit(flag) => CallAt(s.(cache := cache, uses := s.uses + [call.sql]), i, Done(flag, FromHit))
         case Fallback => CallAt(s.(cache := cache), i, Done(f(call.sql), FromFallback))
         case Miss => CallAt(s.(cache := cache), i, Missed))
    case Missed => CallAt(s, i, Classified(f(call.sql)))
    case Classified(flag) =>
      CallAt(s.(cache := Inserted(s.cache, call.sql, flag), uses := s.uses + [call.sql]), i, Done(flag, FromInsert))
    case Done(_, _) => s
  }

  function Next(f: Classifier, s: Machine, a: Action): Machine {
    match a
    case Arrive(sql, preferred) => s.(calls := s.calls + [Call(sql, preferred, Ready)])
    case Advance(i) => if i < |s.calls| then Advanced(f, s, i) else s
  }

  function Run(f: Classifier, schedule: seq<Action>): Machine {
    if schedule == [] then INITIAL
    else Next(f, Run(f, schedule[..|schedule| - 1]), schedule[|schedule| - 1])
  }

  /** What a call must answer, whatever the cache holds. */
  function Expected(f: Classifier, call: Call): bool {
    match call.preferred
    case Some(Oracle) => false
    case Some(MySQL) => true
    case Some(MariaDB) => true
    case None => f(call.sql)
  }

  predicate CallOk(f: Classifier, call: Call) {
    match call.phase
    case Ready => true
    case Missed => call.preferred.None? && ShouldCache(call.sql)
    case Classified(flag) => call.preferred.None? && ShouldCache(call.sql) && flag == f(call.sql)
    case Done(answer, source) => answer == Expected(f, call) && source != FromFallback
  }

  predicate FlagsOk(f: Classifier, entries: seq<Entry>) {
    forall i :: 0 <= i < |entries| ==> entries[i].mysqlCompatible == f(entries[i].sql)
  }

  /** The moment of the last use of `sql`, or -1. */
  function LastUse(uses: seq<string>, sql: string): (r: int)
    ensures -1 <= r < |uses|
  {
    if uses == [] then -1
    else if uses[|uses| - 1] == sql then |uses| - 1
    else LastUse(uses[..|uses| - 1], sql)
  }

  predicate Cached(entries: seq<Entry>, sql: string) {
    exists i :: 0 <= i < |entries| && entries[i].sql == sql
  }

  /** Deque order is order of last use, and nothing used more recently than a cached entry is missing. */
  ghost predicate OrderedByLastUse(entries: seq<Entry>, uses: seq<string>) {
    && (forall i, j :: 0 <= i < j < |entries| ==> LastUse(uses, entries[i].sql) > LastUse(uses, entries[j].sql))
    && (forall i :: 0 <= i < |entries| ==> LastUse(uses, entries[i].sql) >= 0)
    && (forall i, sql :: 0 <= i < |entries| && !Cached(entries, sql) ==> LastUse(uses, sql) < LastUse(uses, entries[i].sql))
  }

  ghost predicate Inv(f: Classifier, s: Machine) {
    && Valid(s.cache)
    && FlagsOk(f, s.cache.entries)
    && OrderedByLastUse(s.cache.entries, s.uses)
    && CallsOk(f, s.calls)
  }

  predicate CallsOk(f: Classifier, calls: seq<Call>) {
    forall i :: 0 <= i < |calls| ==> CallOk(f, calls[i])
  }

  lemma {:induction false} LastUseAppend(uses: seq<string>, used: string)
    ensures forall sql :: LastUse(uses + [used], sql) == if sql == used then |uses| else LastUse(uses, sql)
  {
    assert (uses + [used])[..|uses|] == uses;
  }

  /** `rest` is what stays behind when a use of `used` is about to move it to the front. */
  ghost predicate OrderedApartFrom(rest: seq<Entry>, uses: seq<string>, used: string) {
    && (forall i, j :: 0 <= i < j < |rest| ==> LastUse(uses, rest[i].sql) > LastUse(uses, rest[j].sql))
    && (forall i :: 0 <= i < |rest| ==> rest[i].sql != used && LastUse(uses, rest[i].sql) >= 0)
    && (forall i, sql :: 0 <= i < |rest| && !Cached(rest, sql) && sql != used ==> LastUse(uses, sql) < LastUse(uses, rest[i].sql))
  }

  lemma {:induction false} OrderedWithout(entries: seq<Entry>, uses: seq<string>, i: nat)
    requires Distinct(entries) && OrderedByLastUse(entries, uses) && i < |entries|
    ensures OrderedApartFrom(RemoveAt(entries, i), uses, entries[i].sql)
  {
    var rest := RemoveAt(entries, i);
    forall k | 0 <= k < |rest|
      ensures rest[k] == entries[if k < i then k else k + 1]
    {
    }
    forall j, k | 0 <= j < k < |rest|
      ensures LastUse(uses, rest[j].sql) > LastUse(uses, rest[k].sql)
    {
      var j', k' := if j < i then j else j + 1, if k < i then k else k + 1;
      assert LastUse(uses, entries[j'].sql) > LastUse(uses, entries[k'].sql);
    }
    forall k, sql | 0 <= k < |rest| && !Cached(rest, sql) && sql != entries[i].sql
      ensures LastUse(uses, sql) < LastUse(uses, rest[k].sql)
    {
      MissingIsOlder(entries, uses, i, k, sql);
    }
  }

  lemma {:induction false} MissingIsOlder(entries: seq<Entry>, uses: seq<string>, i: nat, k: nat, sql: string)
    requires OrderedByLastUse(entries, uses) && i < |entries| && k < |entries| - 1
    requires !Cached(RemoveAt(entries, i), sql) && sql != entries[i].sql
    ensures LastUse(uses, sql) < LastUse(uses, RemoveAt(entries, i)[k].sql)
  {
    MissingBefore(entries, i, sql);
    assert RemoveAt(entries, i)[k] == entries[if k < i then k else k + 1];
  }

  lemma {:induction false} MissingBefore(entries: seq<Entry>, i: nat, sql: string)
    requires i < |entries| && sql != entries[i].sql
    requires !Cached(RemoveAt(entries, i), sql)
    ensures !Cached(entries, sql)
  {
    var rest := RemoveAt(entries, i);
    assert forall k :: 0 <= k < |entries| && k != i ==> entries[k] == rest[if k < i then k else k - 1];
  }

  /** Putting the used statement in front restores the order, once that use is logged. */
  lemma {:induction false} UseMovesToFront(rest: seq<Entry>, uses: seq<string>, newest: Entry)
    requires OrderedApartFrom(rest, uses, newest.sql)
    ensures OrderedByLastUse([newest] + rest, uses + [newest.sql])
  {
    var moved, logged := [newest] + rest, uses + [newest.sql];
    LastUseAppend(uses, newest.sql);
    forall i | 0 <= i < |moved|
      ensures moved[i] == if i == 0 then newest else rest[i - 1]
    {
    }
    forall i, j | 0 <= i < j < |moved|
      ensures LastUse(logged, moved[i].sql) > LastUse(logged, moved[j].sql)
    {
    }
    forall i, sql | 0 <= i < |moved| && !Cached(moved, sql)
      ensures LastUse(logged, sql) < LastUse(logged, moved[i].sql)
    {
      NotAmongMoved(newest, rest, sql);
    }
  }

  lemma {:induction false} NotAmongMoved(newest: Entry, rest: seq<Entry>, sql: string)
    requires !Cached([newest] + rest, sql)
    ensures !Cached(rest, sql) && sql != newest.sql
  {
    var moved := [newest] + rest;
    assert moved[0] == newest;
    assert forall k :: 0 <= k < |rest| ==> rest[k] == moved[k + 1];
  }

  lemma {:induction false} EvictionKeepsOrder(order: seq<Entry>, kept: seq<Entry>, uses: seq<string>)
    requires OrderedByLastUse(order, uses)
    requires IsPrefixOf(kept, order)
    ensures OrderedByLastUse(kept, uses)
  {
    assert forall i :: 0 <= i < |kept| ==> kept[i] == order[i];
  }

  lemma {:induction false} FlagsAfterLookup(f: Classifier, c: Cache, sql: string)
    requires FlagsOk(f, c.entries)
    ensures FlagsOk(f, LookedUp(c, sql).0.entries)
    ensures LookedUp(c, sql).1.Hit? ==> LookedUp(c, sql).1.flag == f(sql)
  {
  }

  lemma {:induction false} FlagsAfterInsert(f: Classifier, c: Cache, sql: string)
    requires Valid(c) && ShouldCache(sql)
    requires FlagsOk(f, c.entries)
    ensures FlagsOk(f, Inserted(c, sql, f(sql)).entries)
  {
    InsertedIsLongestFittingPrefix(c, sql, f(sql));
    var kept, order := Inserted(c, sql, f(sql)).entries, WithNewFront(c, sql, f(sql)).entries;
    assert forall i :: 0 <= i < |kept| ==> kept[i] == order[i];
  }

  lemma {:induction false} OrderAfterHit(c: Cache, sql: string, uses: seq<string>)
    requires Valid(c) && OrderedByLastUse(c.entries, uses)
    requires LookedUp(c, sql).1.Hit?
    ensures OrderedByLastUse(LookedUp(c, sql).0.entries, uses + [sql])
  {
    var i := Position(c.entries, sql).value;
    OrderedWithout(c.entries, uses, i);
    UseMovesToFront(RemoveAt(c.entries, i), uses, c.entries[i]);
  }

  lemma {:induction false} OrderAfterInsert(c: Cache, sql: string, flag: bool, uses: seq<string>)
    requires Valid(c) && ShouldCache(sql) && OrderedByLastUse(c.entries, uses)
    ensures OrderedByLastUse(Inserted(c, sql, flag).entries, uses + [sql])
  {
    match Position(c.entries, sql) {
      case Some(i) =>
        OrderedWithout(c.entries, uses, i);
        UseMovesToFront(RemoveAt(c.entries, i), uses, Entry(sql, flag));
      case None =>
        UseMovesToFront(c.entries, uses, Entry(sql, flag));
    }
    InsertedIsLongestFittingPrefix(c, sql, flag);
    EvictionKeepsOrder(WithNewFront(c, sql, flag).entries, Inserted(c, sql, flag).entries, uses + [sql]);
  }

  lemma {:induction false} LookupKeepsInv(f: Classifier, s: Machine, i: nat)
    requires Inv(f, s) && i < |s.calls|
    requires s.calls[i].phase.Ready? && s.calls[i].preferred.None? && ShouldCache(s.calls[i].sql)
    ensures Inv(f, Advanced(f, s, i))
  {
    var sql := s.calls[i].sql;
    LookedUpKeepsValid(s.cache, sql);
    FlagsAfterLookup(f, s.cache, sql);
    var (cache, outcome) := LookedUp(s.cache, sql);
    if outcome.Hit? {
      OrderAfterHit(s.cache, sql, s.uses);
      assert Advanced(f, s, i) == Machine(cache, s.calls[i := s.calls[i].(phase := Done(outcome.flag, FromHit))], s.uses + [sql]);
    } else {
      assert cache == s.cache && outcome.Miss?;
      assert Advanced(f, s, i) == Machine(cache, s.calls[i := s.calls[i].(phase := Missed)], s.uses);
    }
  }

  lemma {:induction false} InsertKeepsInv(f: Classifier, s: Machine, i: nat)
    requires Inv(f, s) && i < |s.calls|
    requires s.calls[i].phase.Classified?
    ensures Inv(f, Advanced(f, s, i))
  {
    var call := s.calls[i];
    assert CallOk(f, call);
    InsertedIsLongestFittingPrefix(s.cache, call.sql, call.phase.flag);
    FlagsAfterInsert(f, s.cache, call.sql);
    OrderAfterInsert(s.cache, call.sql, call.phase.flag, s.uses);
  }

  lemma {:induction false} AdvanceKeepsInv(f: Classifier, s: Machine, i: nat)
    requires Inv(f, s) && i < |s.calls|
    ensures Inv(f, Advanced(f, s, i))
  {
    var call := s.calls[i];
    assert CallOk(f, call);
    if call.phase.Ready? && call.preferred.None? && ShouldCache(call.sql) {
      LookupKeepsInv(f, s, i);
    } else if call.phase.Classified? {
      InsertKeepsInv(f, s, i);
    }
  }

  /**
    Safety over every interleaving: keys stay distinct, the byte total is the true sum,
    both limits hold between atomic steps, every stored flag and every answer is the
    classifier's, the fallback is never taken, and deque order is order of last use.
   */
  lemma {:induction false} EveryInterleavingIsSafe(f: Classifier, schedule: seq<Action>)
    ensures Inv(f, Run(f, schedule))
  {
    if schedule != [] {
      var n := |schedule| - 1;
      EveryInterleavingIsSafe(f, schedule[..n]);
      var s := Run(f, schedule[..n]);
      match schedule[n] {
        case Arrive(_, _) =>
        case Advance(i) =>
          if i < |s.calls| {
            AdvanceKeepsInv(f, s, i);
          }
      }
    }
  }

  /** A finished call of any interleaving answered as if there were no cache. */
  lemma {:induction false} CacheIsTransparent(f: Classifier, schedule: seq<Action>, i: nat)
    requires i < |Run(f, schedule).calls|
    requires Run(f, schedule).calls[i].phase.Done?
    ensures Run(f, schedule).calls[i].phase.answer == Expected(f, Run(f, schedule).calls[i])
  {
    EveryInterleavingIsSafe(f, schedule);
    assert CallOk(f, Run(f, schedule).calls[i]);
  }

  /**
    In every reachable state the next insertion's byte arithmetic is exact: adding the new
    statement does not saturate, and neither does taking off any entry in the eviction loop,
    which only goes through the states listed here.
   */
  lemma {:induction false} SaturationIsUnreachable(f: Classifier, schedule: seq<Action>, sql: string, flag: bool)
    requires ShouldCache(sql)
    ensures var cache := Run(f, schedule).cache;
      var front := WithNewFront(cache, sql, flag);
      && SaturatingAdd(cache.totalSqlBytes, |sql|) == cache.totalSqlBytes + |sql|
      && (forall n :: 0 < n <= |front.entries| ==>
        && EvictedTo(front, n).totalSqlBytes == TotalBytes(front.entries[..n])
        && |front.entries[n - 1].sql| <= EvictedTo(front, n).totalSqlBytes)
      && |Inserted(cache, sql, flag).entries| <= |front.entries|
      && Inserted(cache, sql, flag) == EvictedTo(front, |Inserted(cache, sql, flag).entries|)
  {
    EveryInterleavingIsSafe(f, schedule);
    var cache := Run(f, schedule).cache;
    var front := WithNewFront(cache, sql, flag);
    WithNewFrontKeepsBooks(cache, sql, flag);
    forall n | 0 < n <= |front.entries|
      ensures EvictedTo(front, n).totalSqlBytes == TotalBytes(front.entries[..n])
      ensures |front.entries[n - 1].sql| <= EvictedTo(front, n).totalSqlBytes
    {
      EvictionTotalsAreExact(front, n);
    }
    EvictionStops(front);
  }

  /** `mysql_compatibility_for_sql` as one uninterrupted call on the mutable cache. */
  method MysqlCompatibilityForSql(f: Classifier, cache: CacheState, sql: string, preferred: Option<DatabaseType>)
    returns (answer: bool)
    requires Valid(cache.Value()) && FlagsOk(f, cache.entries)
    modifies cache
    ensures Valid(cache.Value()) && FlagsOk(f, cache.entries)
    ensures answer == Expected(f, Call(sql, preferred, Ready))
    ensures preferred.Some? || !ShouldCache(sql) ==> cache.Value() == old(cache.Value())
    ensures preferred.None? && ShouldCache(sql) ==> cache.entries != [] && cache.entries[0] == Entry(sql, f(sql))
  {
    if preferred.Some? {
      return match preferred.value case Oracle => false case MySQL => true case MariaDB => true;
    }
    if !ShouldCache(sql) {
      return f(sql);
    }
    LookedUpKeepsValid(cache.Value(), sql);
    FlagsAfterLookup(f, cache.Value(), sql);
    var outcome := cache.Lookup(sql);
    match outcome {
      case Hit(flag) => return flag;
      case Fallback => return f(sql);
      case Miss =>
    }
    var flag := f(sql);
    InsertedIsLongestFittingPrefix(cache.Value(), sql, flag);
    FlagsAfterInsert(f, cache.Value(), sql);
    cache.Insert(sql, flag);
    answer := flag;
  }
}
