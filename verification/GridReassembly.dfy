/**
  Reassembling result grids from progress events (src/bin/oracle_compare_test_all.rs).
  Events of different statements may interleave; the grids depend only on what each
  statement saw and on the order in which selects finished.
 */
module GridReassembly {
  import opened Prelude
  import Trimming

  type Row = seq<string>

  datatype QueryResult = QueryResult(sql: string, columnNames: seq<string>, rows: seq<Row>, isSelect: bool, success: bool)

  datatype Progress =
    | Operation(progress: Progress)
    | SelectStart(index: nat, columns: seq<string>)
    | Rows(index: nat, rows: seq<Row>)
    | StatementFinished(index: nat, result: QueryResult)
    | OtherProgress

  datatype Grid = Grid(sql: string, columns: seq<string>, rows: seq<Row>)

  /** `progress_inner`: the event inside any number of operation wrappers. */
  function Inner(event: Progress): Progress {
    match event
    case Operation(progress) => Inner(progress)
    case _ => event
  }

  predicate FinishesSelect(event: Progress) {
    Inner(event).StatementFinished? && Inner(event).result.success && Inner(event).result.isSelect
  }

  /** The statement an event belongs to, if any. */
  function IndexOf(event: Progress): Option<nat> {
    match Inner(event)
    case SelectStart(index, _) => Some(index)
    case Rows(index, _) => Some(index)
    case StatementFinished(index, _) => Some(index)
    case _ => None
  }

  // ----- What one statement has pending -----

  datatype Pending = Pending(columns: Option<seq<string>>, rows: Option<seq<Row>>)

  const NOTHING := Pending(None, None)

  function GetOr<T>(o: Option<T>, default: T): T {
    if o.Some? then o.value else default
  }

  /** What an event of statement `i` leaves pending for it. */
  function Observe(p: Pending, i: nat, event: Progress): Pending {
    match Inner(event)
    case SelectStart(index, columns) => if index == i then p.(columns := Some(columns)) else p
    case Rows(index, rows) => if index == i then p.(rows := Some(GetOr(p.rows, []) + rows)) else p
    case StatementFinished(index, _) => if index == i && FinishesSelect(event) then NOTHING else p
    case _ => p
  }

  function PendingFor(events: seq<Progress>, i: nat): Pending {
    if events == [] then NOTHING else Observe(PendingFor(events[..|events| - 1], i), i, events[|events| - 1])
  }

  function GridOf(p: Pending, result: QueryResult): Grid {
    Grid(Trimming.Trim(result.sql), GetOr(p.columns, result.columnNames), GetOr(p.rows, result.rows))
  }

  /** The grids in the order in which their selects finished. */
  function GridsOf(events: seq<Progress>): seq<Grid> {
    if events == [] then []
    else
      var n := |events| - 1;
      GridsOf(events[..n]) + if FinishesSelect(events[n])
        then [GridOf(PendingFor(events[..n], Inner(events[n]).index), Inner(events[n]).result)] else []
  }

  // ----- The loop over two maps -----

  function PendingIn(columns: map<nat, seq<string>>, rows: map<nat, seq<Row>>, i: nat): Pending {
    Pending(if i in columns then Some(columns[i]) else None, if i in rows then Some(rows[i]) else None)
  }

  method Grids(progress: seq<Progress>) returns (snapshots: seq<Grid>)
    ensures snapshots == GridsOf(progress)
  {
    var columnsByIndex: map<nat, seq<string>> := map[];
    var rowsByIndex: map<nat, seq<Row>> := map[];
    snapshots := [];
    for k := 0 to |progress|
      invariant snapshots == GridsOf(progress[..k])
      invariant forall i: nat :: PendingIn(columnsByIndex, rowsByIndex, i) == PendingFor(progress[..k], i)
    {
      assert progress[..k + 1][..k] == progress[..k];
      var event := Inner(progress[k]);
      match event {
        case SelectStart(index, columns) =>
          columnsByIndex := columnsByIndex[index := columns];
        case Rows(index, rows) =>
          rowsByIndex := rowsByIndex[index := (if index in rowsByIndex then rowsByIndex[index] else []) + rows];
        case StatementFinished(index, result) =>
          if result.success && result.isSelect {
            assert PendingIn(columnsByIndex, rowsByIndex, index) == PendingFor(progress[..k], index);
            var columns := if index in columnsByIndex then columnsByIndex[index] else result.columnNames;
            var rows := if index in rowsByIndex then rowsByIndex[index] else result.rows;
            columnsByIndex := columnsByIndex - {index};
            rowsByIndex := rowsByIndex - {index};
            snapshots := snapshots + [Grid(Trimming.Trim(result.sql), columns, rows)];
          }
        case _ =>
      }
    }
    assert progress[..|progress|] == progress;
  }

  // ----- Rows and columns, from the events themselves -----

  predicate IsBatchOf(event: Progress, i: nat) {
    Inner(event).Rows? && Inner(event).index == i
  }

  /** The row batches of statement `i`, joined in order. */
  function JoinedBatches(events: seq<Progress>, i: nat): seq<Row> {
    if events == [] then []
    else
      var n := |events| - 1;
      JoinedBatches(events[..n], i) + if IsBatchOf(events[n], i) then Inner(events[n]).rows else []
  }

  predicate HasBatch(events: seq<Progress>, i: nat) {
    exists k :: 0 <= k < |events| && IsBatchOf(events[k], i)
  }

  /** The last columns announced for statement `i`. */
  function LastColumns(events: seq<Progress>, i: nat): Option<seq<string>> {
    if events == [] then None
    else
      var event := Inner(events[|events| - 1]);
      if event.SelectStart? && event.index == i then Some(event.columns) else LastColumns(events[..|events| - 1], i)
  }

  predicate FinishesSelectOf(event: Progress, i: nat) {
    FinishesSelect(event) && Inner(event).index == i
  }

  /** What the events after the last successful select amount to. */
  function SinceLastSelect(after: seq<Progress>, i: nat): Pending {
    Pending(LastColumns(after, i), if HasBatch(after, i) then Some(JoinedBatches(after, i)) else None)
  }

  lemma {:induction false} SinceLastSelectStep(after: seq<Progress>, i: nat)
    requires after != [] && !FinishesSelectOf(after[|after| - 1], i)
    ensures SinceLastSelect(after, i) == Observe(SinceLastSelect(after[..|after| - 1], i), i, after[|after| - 1])
  {
    var n := |after| - 1;
    assert HasBatch(after, i) <==> HasBatch(after[..n], i) || IsBatchOf(after[n], i) by {
      assert forall k :: 0 <= k < n ==> after[..n][k] == after[k];
    }
    if !HasBatch(after[..n], i) {
      NoBatchNoRows(after[..n], i);
    }
    assert JoinedBatches(after[..n], i) + [] == JoinedBatches(after[..n], i);
  }

  lemma {:induction false} NoBatchNoRows(events: seq<Progress>, i: nat)
    requires !HasBatch(events, i)
    ensures JoinedBatches(events, i) == []
  {
    if events != [] {
      var n := |events| - 1;
      assert !IsBatchOf(events[n], i);
      assert !HasBatch(events[..n], i) by {
        assert forall k :: 0 <= k < n ==> events[..n][k] == events[k];
      }
      NoBatchNoRows(events[..n], i);
    }
  }

  /**
    With `before` ending in the last successful select of statement `i` (or empty), what is
    pending is exactly what came after it: the last announced columns, and all row batches
    in order, or no rows at all if there was no batch.
   */
  lemma {:induction false} PendingIsSinceLastSelect(before: seq<Progress>, after: seq<Progress>, i: nat)
    requires before == [] || FinishesSelectOf(before[|before| - 1], i)
    requires forall k :: 0 <= k < |after| ==> !FinishesSelectOf(after[k], i)
    ensures PendingFor(before + after, i) == SinceLastSelect(after, i)
    decreases |after|
  {
    if after == [] {
      assert before + after == before;
    } else {
      var n := |after| - 1;
      assert (before + after)[..|before| + n] == before + after[..n];
      PendingIsSinceLastSelect(before, after[..n], i);
      SinceLastSelectStep(after, i);
    }
  }

  // ----- Independence from interleaving -----

  /** What statement `i` saw: its own events, in order. */
  function Own(events: seq<Progress>, i: nat): seq<Progress> {
    if events == [] then []
    else Own(events[..|events| - 1], i) + if IndexOf(events[|events| - 1]) == Some(i) then [events[|events| - 1]] else []
  }

  /** The successful selects, in the order in which they finished. */
  function Finishes(events: seq<Progress>): seq<Progress> {
    if events == [] then []
    else Finishes(events[..|events| - 1]) + if FinishesSelect(events[|events| - 1]) then [events[|events| - 1]] else []
  }

  lemma {:induction false} PendingNeedsOwnEventsOnly(events: seq<Progress>, i: nat)
    ensures PendingFor(Own(events, i), i) == PendingFor(events, i)
  {
    if events != [] {
      var n := |events| - 1;
      PendingNeedsOwnEventsOnly(events[..n], i);
      var own := Own(events[..n], i);
      if IndexOf(events[n]) == Some(i) {
        assert (own + [events[n]])[..|own|] == own;
      } else {
        assert Own(events, i) == own;
      }
    }
  }

  /** How many of the finished selects belong to statement `i`. */
  function FinishCount(events: seq<Progress>, i: nat): nat {
    if events == [] then 0
    else FinishCount(events[..|events| - 1], i) + if FinishesSelectOf(events[|events| - 1], i) then 1 else 0
  }

  /** The events of a statement before its select number `n` finished. */
  function BeforeFinish(own: seq<Progress>, i: nat, n: nat): seq<Progress> {
    if own == [] then []
    else
      var m := |own| - 1;
      if FinishCount(own[..m], i) > n || (FinishCount(own[..m], i) == n && FinishesSelectOf(own[m], i))
      then BeforeFinish(own[..m], i, n) else own
  }

  /** The pending state in which select `finish` of the views was snapshotted, as the `n`-th of its statement. */
  function SnapshotFromView(own: seq<Progress>, finish: Progress, n: nat): Grid
    requires FinishesSelect(finish)
  {
    var i := Inner(finish).index;
    GridOf(PendingFor(BeforeFinish(own, i, n), i), Inner(finish).result)
  }

  /** The grids, computed from the separate views of the statements and the order of finishes alone. */
  ghost function GridsFromViews(own: nat -> seq<Progress>, finishes: seq<Progress>): seq<Grid>
    requires AllFinish(finishes)
  {
    if finishes == [] then []
    else
      var n := |finishes| - 1;
      assert FinishesSelect(finishes[n]);
      var i := Inner(finishes[n]).index;
      GridsFromViews(own, finishes[..n]) + [SnapshotFromView(own(i), finishes[n], FinishCount(finishes[..n], i))]
  }

  predicate AllFinish(events: seq<Progress>) {
    forall k :: 0 <= k < |events| ==> FinishesSelect(events[k])
  }

  lemma {:induction false} FinishesAllFinish(events: seq<Progress>)
    ensures AllFinish(Finishes(events))
  {
    if events != [] {
      FinishesAllFinish(events[..|events| - 1]);
    }
  }

  lemma {:induction false} FinishCountOfOwn(events: seq<Progress>, i: nat)
    ensures FinishCount(Own(events, i), i) == FinishCount(events, i)
  {
    if events != [] {
      var n := |events| - 1;
      var own := Own(events[..n], i);
      FinishCountOfOwn(events[..n], i);
      if IndexOf(events[n]) == Some(i) {
        FinishCountSnoc(own, events[n], i);
      } else {
        assert Own(events, i) == own;
      }
    }
  }

  lemma {:induction false} FinishCountOfFinishes(events: seq<Progress>, i: nat)
    ensures FinishCount(Finishes(events), i) == FinishCount(events, i)
  {
    if events != [] {
      var n := |events| - 1;
      var finishes := Finishes(events[..n]);
      FinishCountOfFinishes(events[..n], i);
      if FinishesSelect(events[n]) {
        FinishCountSnoc(finishes, events[n], i);
      } else {
        assert Finishes(events) == finishes;
      }
    }
  }

  lemma {:induction false} FinishCountsAgree(events: seq<Progress>, i: nat)
    ensures FinishCount(Own(events, i), i) == FinishCount(Finishes(events), i)
  {
    FinishCountOfOwn(events, i);
    FinishCountOfFinishes(events, i);
  }

  lemma {:induction false} FinishCountSnoc(events: seq<Progress>, event: Progress, i: nat)
    ensures FinishCount(events + [event], i) == FinishCount(events, i) + if FinishesSelectOf(event, i) then 1 else 0
  {
    assert (events + [event])[..|events|] == events;
  }

  lemma {:induction false} FinishCountPrefix(finishes: seq<Progress>, k: nat, i: nat)
    requires k <= |finishes|
    ensures FinishCount(finishes[..k], i) <= FinishCount(finishes, i)
    decreases |finishes|
  {
    if k < |finishes| {
      assert finishes[..|finishes| - 1][..k] == finishes[..k];
      FinishCountPrefix(finishes[..|finishes| - 1], k, i);
    } else {
      assert finishes[..k] == finishes;
    }
  }

  /** Later events of a statement do not change what it saw before an earlier select finished. */
  lemma {:induction false} BeforeFinishIsStable(own: seq<Progress>, event: Progress, i: nat, n: nat)
    requires FinishCount(own, i) > n || (FinishCount(own, i) == n && FinishesSelectOf(event, i))
    ensures BeforeFinish(own + [event], i, n) == BeforeFinish(own, i, n)
    ensures FinishCount(own, i) == n ==> BeforeFinish(own, i, n) == own
  {
    assert (own + [event])[..|own|] == own;
  }

  /** Two families of views agree on all snapshots of `finishes` when they agree before each finish. */
  lemma {:induction false} GridsFromSameViews(own: nat -> seq<Progress>, own': nat -> seq<Progress>, finishes: seq<Progress>)
    requires AllFinish(finishes)
    requires forall i: nat, n: nat :: n < FinishCount(finishes, i) ==> BeforeFinish(own(i), i, n) == BeforeFinish(own'(i), i, n)
    ensures GridsFromViews(own, finishes) == GridsFromViews(own', finishes)
    decreases |finishes|
  {
    if finishes != [] {
      var m := |finishes| - 1;
      forall i: nat
        ensures FinishCount(finishes[..m], i) <= FinishCount(finishes, i)
      {
        FinishCountPrefix(finishes, m, i);
      }
      GridsFromSameViews(own, own', finishes[..m]);
      assert FinishesSelect(finishes[m]);
    }
  }

  ghost function Views(events: seq<Progress>): nat -> seq<Progress> {
    (i: nat) => Own(events, i)
  }

  lemma {:induction false} EarlierViewsStay(before: seq<Progress>, last: Progress, i: nat, n: nat)
    requires n < FinishCount(Finishes(before), i)
    ensures BeforeFinish(Own(before, i), i, n) == BeforeFinish(Own(before + [last], i), i, n)
  {
    var own := Own(before, i);
    assert (before + [last])[..|before|] == before;
    FinishCountsAgree(before, i);
    if IndexOf(last) == Some(i) {
      BeforeFinishIsStable(own, last, i, n);
    } else {
      assert Own(before + [last], i) == own;
    }
  }

  lemma {:induction false} EarlierGridsStay(before: seq<Progress>, last: Progress)
    requires AllFinish(Finishes(before))
    ensures GridsFromViews(Views(before), Finishes(before)) == GridsFromViews(Views(before + [last]), Finishes(before))
  {
    forall i: nat, n: nat | n < FinishCount(Finishes(before), i)
      ensures BeforeFinish(Views(before)(i), i, n) == BeforeFinish(Views(before + [last])(i), i, n)
    {
      EarlierViewsStay(before, last, i, n);
    }
    GridsFromSameViews(Views(before), Views(before + [last]), Finishes(before));
  }

  lemma {:induction false} FinishesSnoc(before: seq<Progress>, last: Progress)
    ensures Finishes(before + [last]) == Finishes(before) + if FinishesSelect(last) then [last] else []
    ensures GridsOf(before + [last]) == GridsOf(before) + if FinishesSelect(last)
      then [GridOf(PendingFor(before, Inner(last).index), Inner(last).result)] else []
  {
    assert (before + [last])[..|before|] == before;
  }

  /** Reassembly sees only the views of the statements and the order of finishes. */
  lemma {:induction false} ViewsDetermineGrids(events: seq<Progress>)
    ensures AllFinish(Finishes(events))
    ensures GridsOf(events) == GridsFromViews(Views(events), Finishes(events))
  {
    FinishesAllFinish(events);
    if events != [] {
      var m := |events| - 1;
      var before, last := events[..m], events[m];
      assert events == before + [last];
      ViewsDetermineGrids(before);
      EarlierGridsStay(before, last);
      FinishesSnoc(before, last);
      if FinishesSelect(last) {
        LastSnapshot(before, last);
        assert Finishes(events)[..|Finishes(before)|] == Finishes(before);
      } else {
        assert Finishes(events) == Finishes(before);
      }
    }
  }

  lemma {:induction false} LastSnapshot(before: seq<Progress>, last: Progress)
    requires FinishesSelect(last)
    ensures var i := Inner(last).index;
      SnapshotFromView(Own(before + [last], i), last, FinishCount(Finishes(before), i)) == GridOf(PendingFor(before, i), Inner(last).result)
  {
    var i := Inner(last).index;
    assert (before + [last])[..|before|] == before;
    FinishCountsAgree(before, i);
    BeforeFinishIsStable(Own(before, i), last, i, FinishCount(Own(before, i), i));
    PendingNeedsOwnEventsOnly(before, i);
  }

  /**
    Interleaving does not matter: two event streams in which every statement saw the same
    events, and selects finished in the same order, give the same grids.
   */
  lemma {:induction false} InterleavingDoesNotMatter(a: seq<Progress>, b: seq<Progress>)
    requires forall i: nat :: Own(a, i) == Own(b, i)
    requires Finishes(a) == Finishes(b)
    ensures GridsOf(a) == GridsOf(b)
  {
    ViewsDetermineGrids(a);
    ViewsDetermineGrids(b);
    forall i: nat, n: nat
      ensures BeforeFinish(Views(a)(i), i, n) == BeforeFinish(Views(b)(i), i, n)
    {
      assert Own(a, i) == Own(b, i);
    }
    GridsFromSameViews(Views(a), Views(b), Finishes(a));
  }

  lemma {:induction false} OwnConcat(a: seq<Progress>, b: seq<Progress>, i: nat)
    ensures Own(a + b, i) == Own(a, i) + Own(b, i)
    decreases |b|
  {
    if b == [] {
      assert a + b == a;
    } else {
      assert (a + b)[..|a + b| - 1] == a + b[..|b| - 1];
      OwnConcat(a, b[..|b| - 1], i);
    }
  }

  lemma {:induction false} FinishesConcat(a: seq<Progress>, b: seq<Progress>)
    ensures Finishes(a + b) == Finishes(a) + Finishes(b)
    decreases |b|
  {
    if b == [] {
      assert a + b == a;
    } else {
      assert (a + b)[..|a + b| - 1] == a + b[..|b| - 1];
      FinishesConcat(a, b[..|b| - 1]);
    }
  }

  lemma {:induction false} PairViews(x: Progress, y: Progress, i: nat)
    requires IndexOf(x) != Some(i) || IndexOf(y) != Some(i)
    ensures Own([x, y], i) == Own([y, x], i)
  {
    assert [x, y][..1] == [x] && [y, x][..1] == [y] && [x][..0] == [] && [y][..0] == [];
  }

  lemma {:induction false} PairFinishes(x: Progress, y: Progress)
    requires !(FinishesSelect(x) && FinishesSelect(y))
    ensures Finishes([x, y]) == Finishes([y, x])
  {
    assert [x, y][..1] == [x] && [y, x][..1] == [y] && [x][..0] == [] && [y][..0] == [];
  }

  /** Swapping neighbours of different statements, unless both finish a select, changes nothing. */
  lemma {:induction false} AdjacentSwap(before: seq<Progress>, x: Progress, y: Progress, after: seq<Progress>)
    requires IndexOf(x).None? || IndexOf(x) != IndexOf(y)
    requires !(FinishesSelect(x) && FinishesSelect(y))
    ensures GridsOf(before + [x, y] + after) == GridsOf(before + [y, x] + after)
  {
    forall i: nat
      ensures Own(before + [x, y] + after, i) == Own(before + [y, x] + after, i)
    {
      OwnConcat(before + [x, y], after, i);
      OwnConcat(before, [x, y], i);
      OwnConcat(before + [y, x], after, i);
      OwnConcat(before, [y, x], i);
      PairViews(x, y, i);
    }
    FinishesConcat(before + [x, y], after);
    FinishesConcat(before, [x, y]);
    FinishesConcat(before + [y, x], after);
    FinishesConcat(before, [y, x]);
    PairFinishes(x, y);
    InterleavingDoesNotMatter(before + [x, y] + after, before + [y, x] + after);
  }
}
