/**
  Regrouping the flat list of tables that SQL*Plus prints into nested cursor grids
  (scripts/verify_oracle_cli.py).  Which texts mark a nested cursor is decided by an
  arbitrary predicate `marks`.
 */
module CursorGrids {
  import opened Prelude

  // ----- Production grids, printed tables, rebuilt grids -----

  /** A production cell; a cell may hold a nested grid as JSON text or directly. */
  datatype Cell = Plain(text: string) | CursorText(text: string, grid: Grid) | CursorDict(grid: Grid) | OtherCell {
    function Nested(): Option<Grid> {
      match this
      case CursorText(_, grid) => Some(grid)
      case CursorDict(grid) => Some(grid)
      case _ => None
    }
  }

  datatype Row = Row(cells: seq<Cell>)

  datatype Grid = Grid(columns: seq<string>, rows: seq<Row>)

  /** A table as SQL*Plus printed it; no columns stands for `no rows selected`. */
  datatype Table = Table(columns: Option<seq<string>>, rows: seq<seq<string>>)

  datatype OutCell = Text(text: string) | Rebuilt(grid: OutGrid)

  datatype OutGrid = OutGrid(columns: seq<string>, rows: seq<seq<OutCell>>)

  datatype Error = EndedEarly | ColumnCount | ExtraRows | RowCellCount | IndexError | Unclaimed

  type Marks = string -> bool

  predicate IsPlaceholder(table: Table) {
    table.columns.None? && table.rows == []
  }

  function Texts(row: seq<string>): seq<OutCell> {
    seq(|row|, i requires 0 <= i < |row| => Text(row[i]))
  }

  // ----- Consuming a grid, on values -----

  function ConsumeGrid(marks: Marks, e: Grid, official: seq<Table>, start: nat): (r: Result<(OutGrid, nat), Error>)
    requires start <= |official|
    ensures r.Ok? ==> start <= r.value.1 <= |official|
    decreases e, 3, 0
  {
    var i := if e.rows == [] && start < |official| && IsPlaceholder(official[start]) then start + 1 else start;
    ConsumeTables(marks, e, official, i, [])
  }

  function ConsumeTables(marks: Marks, e: Grid, official: seq<Table>, i: nat, rows: seq<seq<OutCell>>)
    : (r: Result<(OutGrid, nat), Error>)
    requires i <= |official|
    ensures r.Ok? ==> i <= r.value.1 <= |official|
    decreases e, 2, |official| - i
  {
    if |rows| >= |e.rows| then Ok((OutGrid(e.columns, rows), i))
    else if i == |official| then Err(EndedEarly)
    else if official[i].columns.None? || |official[i].columns.value| != |e.columns| then Err(ColumnCount)
    else
      match ConsumeRows(marks, e, official, i + 1, official[i].rows, rows)
      case Err(error) => Err(error)
      case Ok((rows', i')) => ConsumeTables(marks, e, official, i', rows')
  }

  function ConsumeRows(marks: Marks, e: Grid, official: seq<Table>, i: nat, printed: seq<seq<string>>, rows: seq<seq<OutCell>>)
    : (r: Result<(seq<seq<OutCell>>, nat), Error>)
    requires i <= |official|
    ensures r.Ok? ==> i <= r.value.1 <= |official|
    decreases e, 1, |printed|
  {
    if printed == [] then Ok((rows, i))
    else if |rows| >= |e.rows| then Err(ExtraRows)
    else if |printed[0]| != |e.columns| then Err(RowCellCount)
    else
      match ConsumeCells(marks, e, |rows|, 0, official, i, printed[0], Texts(printed[0]))
      case Err(error) => Err(error)
      case Ok((row, i')) => ConsumeRows(marks, e, official, i', printed[1..], rows + [row])
  }

  /** The cells of expected row `n` from cell `k` on; `row` is the row rebuilt so far. */
  function ConsumeCells(
    marks: Marks, e: Grid, n: nat, k: nat, official: seq<Table>, i: nat, printed: seq<string>, row: seq<OutCell>)
    : (r: Result<(seq<OutCell>, nat), Error>)
    requires i <= |official| && n < |e.rows| && k <= |e.rows[n].cells| && |row| == |printed|
    ensures r.Ok? ==> i <= r.value.1 <= |official|
    decreases e, 0, |e.rows[n].cells| - k
  {
    if k == |e.rows[n].cells| then Ok((row, i))
    else
      var nested := e.rows[n].cells[k].Nested();
      if nested.None? then ConsumeCells(marks, e, n, k + 1, official, i, printed, row)
      else if k >= |printed| then Err(IndexError)
      else if !marks(printed[k]) then ConsumeCells(marks, e, n, k + 1, official, i, printed, row)
      else
        NestedIsSmaller(e, n, k);
        match ConsumeGrid(marks, nested.value, official, i)
        case Err(error) => Err(error)
        case Ok((grid, i')) => ConsumeCells(marks, e, n, k + 1, official, i', printed, row[k := Rebuilt(grid)])
  }

  lemma {:induction false} NestedIsSmaller(e: Grid, n: nat, k: nat)
    requires n < |e.rows| && k < |e.rows[n].cells| && e.rows[n].cells[k].Nested().Some?
    ensures e.rows[n].cells[k].Nested().value < e
  {
    assert e.rows[n] < e;
    assert e.rows[n].cells[k] < e.rows[n];
  }

  // ----- The loops -----

  method RebuildRow(marks: Marks, e: Grid, n: nat, official: seq<Table>, start: nat, printed: seq<string>)
    returns (r: Result<(seq<OutCell>, nat), Error>)
    requires start <= |official| && n < |e.rows|
    ensures r == ConsumeCells(marks, e, n, 0, official, start, printed, Texts(printed))
    decreases e, 0
  {
    var row := Texts(printed);
    var index: nat := start;
    for k := 0 to |e.rows[n].cells|
      invariant index <= |official| && |row| == |printed|
      invariant ConsumeCells(marks, e, n, k, official, index, printed, row)
        == ConsumeCells(marks, e, n, 0, official, start, printed, Texts(printed))
    {
      var nested := e.rows[n].cells[k].Nested();
      if nested.None? {
        continue;
      }
      if k >= |printed| {
        return Err(IndexError);
      }
      if !marks(printed[k]) {
        continue;
      }
      NestedIsSmaller(e, n, k);
      var consumed := ConsumeSqlplusCursorGrid(marks, nested.value, official, index);
      if consumed.Err? {
        return Err(consumed.error);
      }
      row, index := row[k := Rebuilt(consumed.value.0)], consumed.value.1;
    }
    r := Ok((row, index));
  }

  method RebuildTable(
    marks: Marks, e: Grid, official: seq<Table>, start: nat, printed: seq<seq<string>>, before: seq<seq<OutCell>>)
    returns (r: Result<(seq<seq<OutCell>>, nat), Error>)
    requires start <= |official|
    ensures r == ConsumeRows(marks, e, official, start, printed, before)
    decreases e, 1
  {
    var rows := before;
    var index: nat := start;
    for k := 0 to |printed|
      invariant index <= |official|
      invariant ConsumeRows(marks, e, official, index, printed[k..], rows) == ConsumeRows(marks, e, official, start, printed, before)
    {
      assert printed[k..][1..] == printed[k + 1..];
      if |rows| >= |e.rows| {
        return Err(ExtraRows);
      }
      if |printed[k]| != |e.columns| {
        return Err(RowCellCount);
      }
      var rebuilt := RebuildRow(marks, e, |rows|, official, index, printed[k]);
      if rebuilt.Err? {
        return Err(rebuilt.error);
      }
      rows, index := rows + [rebuilt.value.0], rebuilt.value.1;
    }
    r := Ok((rows, index));
  }

  /** `consume_sqlplus_cursor_grid`. */
  method ConsumeSqlplusCursorGrid(
    marks: Marks, e: Grid, official: seq<Table>, start: nat)
    returns (r: Result<(OutGrid, nat), Error>)
    requires start <= |official|
    ensures r == ConsumeGrid(marks, e, official, start)
    decreases e, 2
  {
    var rows: seq<seq<OutCell>> := [];
    var index: nat := start;
    if e.rows == [] && index < |official| && IsPlaceholder(official[index]) {
      index := index + 1;
    }
    while |rows| < |e.rows|
      invariant index <= |official|
      invariant ConsumeTables(marks, e, official, index, rows) == ConsumeGrid(marks, e, official, start)
      decreases |official| - index
    {
      if index >= |official| {
        return Err(EndedEarly);
      }
      var table := official[index];
      if table.columns.None? || |table.columns.value| != |e.columns| {
        return Err(ColumnCount);
      }
      index := index + 1;
      var more := RebuildTable(marks, e, official, index, table.rows, rows);
      if more.Err? {
        return Err(more.error);
      }
      rows, index := more.value.0, more.value.1;
    }
    r := Ok((OutGrid(e.columns, rows), index));
  }

  // ----- Normalizing a whole comparison -----

  predicate HasCursor(grid: Grid) {
    exists n, k :: 0 <= n < |grid.rows| && 0 <= k < |grid.rows[n].cells| && grid.rows[n].cells[k].CursorText?
  }

  datatype Normal = Printed(table: Table) | Regrouped(grid: OutGrid)

  /** The next normalized grid and the index after the tables it claims. */
  function ClaimNext(marks: Marks, grid: Grid, official: seq<Table>, i: nat): (r: Result<(Normal, nat), Error>)
    requires i <= |official|
    ensures r.Ok? ==> i <= r.value.1 <= |official|
  {
    if !HasCursor(grid) then
      if i == |official| then Err(EndedEarly) else Ok((Printed(official[i]), i + 1))
    else
      match ConsumeGrid(marks, grid, official, i)
      case Err(error) => Err(error)
      case Ok((rebuilt, i')) => Ok((Regrouped(rebuilt), i'))
  }

  function NormalizeFrom(
    marks: Marks, production: seq<Grid>, official: seq<Table>, i: nat, done: seq<Normal>): Result<seq<Normal>, Error>
    requires i <= |official|
    decreases |production|
  {
    if production == [] then (if i == |official| then Ok(done) else Err(Unclaimed))
    else
      match ClaimNext(marks, production[0], official, i)
      case Err(error) => Err(error)
      case Ok((normal, i')) => NormalizeFrom(marks, production[1..], official, i', done + [normal])
  }

  /** `normalize_sqlplus_cursor_grids`. */
  method NormalizeSqlplusCursorGrids(
    marks: Marks, production: seq<Grid>, official: seq<Table>)
    returns (r: Result<seq<Normal>, Error>)
    ensures r == NormalizeFrom(marks, production, official, 0, [])
  {
    var normalized: seq<Normal> := [];
    var index: nat := 0;
    assert production[0..] == production;
    for k := 0 to |production|
      invariant index <= |official|
      invariant NormalizeFrom(marks, production[k..], official, index, normalized) == NormalizeFrom(marks, production, official, 0, [])
    {
      assert production[k..][1..] == production[k + 1..];
      if !HasCursor(production[k]) {
        if index >= |official| {
          return Err(EndedEarly);
        }
        normalized, index := normalized + [Printed(official[index])], index + 1;
        continue;
      }
      var consumed := ConsumeSqlplusCursorGrid(marks, production[k], official, index);
      if consumed.Err? {
        return Err(consumed.error);
      }
      normalized, index := normalized + [Regrouped(consumed.value.0)], consumed.value.1;
    }
    r := if index == |official| then Ok(normalized) else Err(Unclaimed);
  }
}
