/**
  Unflatten undoes flatten (scripts/verify_oracle_cli.py): consuming the printed form
  of a nested grid rebuilds it and stops at its end.
 */
module CursorTheorems {
  import opened Prelude
  import opened CursorGrids

  // ----- How SQL*Plus prints a nested grid -----

  /** A printed cell is text, or a cursor marker whose grid is printed after the table. */
  datatype PCell = PText(text: string) | PCursor(marker: string, grid: PGrid)

  datatype PRow = PRow(cells: seq<PCell>)

  /** Some rows of the grid under one heading. */
  datatype PTable = PTable(columns: seq<string>, rows: seq<PRow>)

  /** A grid: the tables its rows are grouped into, or a placeholder for an empty grid. */
  datatype PGrid = PGrid(columns: seq<string>, placeholder: bool, tables: seq<PTable>)

  function CellText(cell: PCell): string {
    match cell
    case PText(text) => text
    case PCursor(marker, _) => marker
  }

  function RowText(row: PRow): seq<string> {
    seq(|row.cells|, i requires 0 <= i < |row.cells| => CellText(row.cells[i]))
  }

  function TableText(rows: seq<PRow>): seq<seq<string>> {
    seq(|rows|, i requires 0 <= i < |rows| => RowText(rows[i]))
  }

  const PLACEHOLDER := Table(None, [])

  /** Depth first: a table, then the grids of its cursors row by row and cell by cell, then the next table. */
  function Flatten(p: PGrid): seq<Table>
    decreases p
  {
    (if p.placeholder then [PLACEHOLDER] else []) + FlattenTables(p.tables)
  }

  function FlattenTables(tables: seq<PTable>): seq<Table>
    decreases tables
  {
    if tables == [] then []
    else [Table(Some(tables[0].columns), TableText(tables[0].rows))] + FlattenRows(tables[0].rows) + FlattenTables(tables[1..])
  }

  function FlattenRows(rows: seq<PRow>): seq<Table>
    decreases rows
  {
    if rows == [] then [] else FlattenCells(rows[0].cells) + FlattenRows(rows[1..])
  }

  function FlattenCells(cells: seq<PCell>): seq<Table>
    decreases cells
  {
    if cells == [] then []
    else (if cells[0].PCursor? then Flatten(cells[0].grid) else []) + FlattenCells(cells[1..])
  }

  /** The grid that was printed. */
  function Rebuild(p: PGrid): OutGrid
    decreases p
  {
    OutGrid(p.columns, RebuildTables(p.tables))
  }

  function RebuildTables(tables: seq<PTable>): seq<seq<OutCell>>
    decreases tables
  {
    if tables == [] then [] else RebuildRows(tables[0].rows) + RebuildTables(tables[1..])
  }

  function RebuildRows(rows: seq<PRow>): (r: seq<seq<OutCell>>)
    ensures |r| == |rows|
    decreases rows
  {
    if rows == [] then [] else [RebuildCells(rows[0].cells)] + RebuildRows(rows[1..])
  }

  function RebuildCell(cell: PCell): OutCell
    decreases cell
  {
    if cell.PCursor? then Rebuilt(Rebuild(cell.grid)) else Text(cell.text)
  }

  function RebuildCells(cells: seq<PCell>): (r: seq<OutCell>)
    ensures |r| == |cells|
    decreases cells
  {
    if cells == [] then [] else [RebuildCell(cells[0])] + RebuildCells(cells[1..])
  }

  // ----- Printed forms of a production grid -----

  /**
    `p` prints the rows of `e` in order, grouped into tables in any way, with a grid after
    a marker wherever `e` nests one and the marker is there.  A strict printing puts a
    placeholder for every empty grid; otherwise an empty grid may leave no trace.
   */
  ghost predicate Prints(marks: Marks, strict: bool, e: Grid, p: PGrid)
    decreases p
  {
    && p.columns == e.columns
    && (p.placeholder ==> e.rows == [])
    && (strict && e.rows == [] ==> p.placeholder)
    && PrintsTables(marks, strict, e, 0, p.tables)
  }

  ghost predicate PrintsTables(marks: Marks, strict: bool, e: Grid, n: nat, tables: seq<PTable>)
    decreases tables
  {
    if tables == [] then n == |e.rows|
    else
      && n < |e.rows|
      && |tables[0].columns| == |e.columns|
      && PrintsRows(marks, strict, e, n, tables[0].rows)
      && PrintsTables(marks, strict, e, n + |tables[0].rows|, tables[1..])
  }

  ghost predicate PrintsRows(marks: Marks, strict: bool, e: Grid, n: nat, rows: seq<PRow>)
    decreases rows
  {
    rows != [] ==>
      && n < |e.rows|
      && |rows[0].cells| == |e.columns|
      && PrintsCells(marks, strict, e.rows[n].cells, rows[0].cells)
      && PrintsRows(marks, strict, e, n + 1, rows[1..])
  }

  ghost predicate PrintsCells(marks: Marks, strict: bool, expected: seq<Cell>, cells: seq<PCell>)
    decreases cells
  {
    if cells == [] then forall k :: 0 <= k < |expected| ==> expected[k].Nested().None?
    else
      && PrintsCell(marks, strict, if expected == [] then None else expected[0].Nested(), cells[0])
      && PrintsCells(marks, strict, if expected == [] then [] else expected[1..], cells[1..])
  }

  ghost predicate PrintsCell(marks: Marks, strict: bool, nested: Option<Grid>, cell: PCell)
    decreases cell
  {
    match cell
    case PText(text) => nested.Some? ==> !marks(text)
    case PCursor(marker, grid) => nested.Some? && marks(marker) && Prints(marks, strict, nested.value, grid)
  }

  /** `part` is what stands at `i`. */
  predicate At(official: seq<Table>, i: nat, part: seq<Table>) {
    i + |part| <= |official| && official[i..i + |part|] == part
  }

  lemma {:induction false} AtSplit(official: seq<Table>, i: nat, a: seq<Table>, b: seq<Table>)
    ensures At(official, i, a + b) <==> At(official, i, a) && At(official, i + |a|, b)
  {
    if At(official, i, a + b) {
      assert official[i..i + |a|] == (a + b)[..|a|];
      assert official[i + |a|..i + |a| + |b|] == (a + b)[|a|..];
    }
    if At(official, i, a) && At(official, i + |a|, b) {
      assert official[i..i + |a| + |b|] == official[i..i + |a|] + official[i + |a|..i + |a| + |b|];
    }
  }

  /** The tables printed for one cell. */
  function OwnTables(cell: PCell): seq<Table> {
    if cell.PCursor? then Flatten(cell.grid) else []
  }

  // ----- Which empty grids take a placeholder -----

  predicate PlaceholderNext(official: seq<Table>, i: nat) {
    i < |official| && IsPlaceholder(official[i])
  }

  /** In `p`, printed at `i`, a grid without rows has a placeholder exactly when one is next. */
  predicate Eager(p: PGrid, official: seq<Table>, i: nat)
    decreases p
  {
    && (p.tables == [] ==> (p.placeholder <==> PlaceholderNext(official, i)))
    && EagerTables(p.tables, official, if p.placeholder then i + 1 else i)
  }

  predicate EagerTables(tables: seq<PTable>, official: seq<Table>, i: nat)
    decreases tables
  {
    tables != [] ==>
      && EagerRows(tables[0].rows, official, i + 1)
      && EagerTables(tables[1..], official, i + 1 + |FlattenRows(tables[0].rows)|)
  }

  predicate EagerRows(rows: seq<PRow>, official: seq<Table>, i: nat)
    decreases rows
  {
    rows != [] ==>
      && EagerCells(rows[0].cells, official, i)
      && EagerRows(rows[1..], official, i + |FlattenCells(rows[0].cells)|)
  }

  predicate EagerCells(cells: seq<PCell>, official: seq<Table>, i: nat)
    decreases cells
  {
    cells != [] ==>
      && (cells[0].PCursor? ==> Eager(cells[0].grid, official, i))
      && EagerCells(cells[1..], official, i + |OwnTables(cells[0])|)
  }

  /** Strict printings are eager wherever they stand. */
  lemma {:induction false} StrictIsEager(marks: Marks, e: Grid, p: PGrid, official: seq<Table>, i: nat)
    requires Prints(marks, true, e, p) && At(official, i, Flatten(p))
    ensures Prints(marks, false, e, p) && Eager(p, official, i)
    decreases p
  {
    if p.placeholder {
      AtSplit(official, i, [PLACEHOLDER], FlattenTables(p.tables));
      assert official[i] == official[i..i + 1][0] == PLACEHOLDER;
      StrictTables(marks, e, 0, p.tables, official, i + 1);
    } else {
      assert Flatten(p) == FlattenTables(p.tables);
      StrictTables(marks, e, 0, p.tables, official, i);
    }
  }

  lemma {:induction false} StrictTables(marks: Marks, e: Grid, n: nat, tables: seq<PTable>, official: seq<Table>, i: nat)
    requires PrintsTables(marks, true, e, n, tables) && At(official, i, FlattenTables(tables))
    ensures PrintsTables(marks, false, e, n, tables) && EagerTables(tables, official, i)
    decreases tables
  {
    if tables != [] {
      FirstTableStands(tables, official, i);
      StrictRows(marks, e, n, tables[0].rows, official, i + 1);
      StrictTables(marks, e, n + |tables[0].rows|, tables[1..], official, i + 1 + |FlattenRows(tables[0].rows)|);
    }
  }

  lemma {:induction false} StrictRows(marks: Marks, e: Grid, n: nat, rows: seq<PRow>, official: seq<Table>, i: nat)
    requires PrintsRows(marks, true, e, n, rows) && At(official, i, FlattenRows(rows))
    ensures PrintsRows(marks, false, e, n, rows) && EagerRows(rows, official, i)
    decreases rows
  {
    if rows != [] {
      var own := FlattenCells(rows[0].cells);
      AtSplit(official, i, own, FlattenRows(rows[1..]));
      StrictCells(marks, e.rows[n].cells, rows[0].cells, official, i);
      StrictRows(marks, e, n + 1, rows[1..], official, i + |own|);
    }
  }

  lemma {:induction false} StrictCells(marks: Marks, expected: seq<Cell>, cells: seq<PCell>, official: seq<Table>, i: nat)
    requires PrintsCells(marks, true, expected, cells) && At(official, i, FlattenCells(cells))
    ensures PrintsCells(marks, false, expected, cells) && EagerCells(cells, official, i)
    decreases cells
  {
    if cells != [] {
      var own := OwnTables(cells[0]);
      AtSplit(official, i, own, FlattenCells(cells[1..]));
      if cells[0].PCursor? {
        StrictIsEager(marks, expected[0].Nested().value, cells[0].grid, official, i);
      }
      StrictCells(marks, if expected == [] then [] else expected[1..], cells[1..], official, i + |own|);
    }
  }

  // ----- Unflatten undoes flatten -----

  /** The row after cell `k`: rebuilt so far, still the printed texts beyond. */
  function PartialRow(cells: seq<PCell>, k: nat): (r: seq<OutCell>)
    requires k <= |cells|
    ensures |r| == |cells|
  {
    RebuildCells(cells[..k]) + Texts(RowText(PRow(cells)))[k..]
  }

  lemma {:induction false} RebuildCellsAt(cells: seq<PCell>, k: nat)
    requires k < |cells|
    ensures RebuildCells(cells)[k] == RebuildCell(cells[k])
    decreases k
  {
    if k > 0 {
      RebuildCellsAt(cells[1..], k - 1);
    }
  }

  lemma {:induction false} RebuildCellsPrefix(cells: seq<PCell>, k: nat)
    requires k <= |cells|
    ensures RebuildCells(cells[..k]) == RebuildCells(cells)[..k]
  {
    forall j | 0 <= j < k
      ensures RebuildCells(cells[..k])[j] == RebuildCells(cells)[j]
    {
      RebuildCellsAt(cells[..k], j);
      RebuildCellsAt(cells, j);
    }
  }

  lemma {:induction false} PartialRowStep(cells: seq<PCell>, k: nat)
    requires k < |cells|
    ensures PartialRow(cells, k + 1) == PartialRow(cells, k)[k := RebuildCell(cells[k])]
    ensures cells[k].PText? ==> PartialRow(cells, k + 1) == PartialRow(cells, k)
  {
    RebuildCellsPrefix(cells, k);
    RebuildCellsPrefix(cells, k + 1);
    RebuildCellsAt(cells, k);
    assert Texts(RowText(PRow(cells)))[k] == Text(CellText(cells[k]));
  }

  lemma {:induction false} PartialRowEnds(cells: seq<PCell>)
    ensures PartialRow(cells, 0) == Texts(RowText(PRow(cells)))
    ensures PartialRow(cells, |cells|) == RebuildCells(cells)
  {
    assert cells[..0] == [] && cells[..|cells|] == cells;
  }

  lemma {:induction false} ConsumeNoMoreCells(marks: Marks, e: Grid, n: nat, k: nat, official: seq<Table>, i: nat,
                                              printed: seq<string>, row: seq<OutCell>)
    requires i <= |official| && n < |e.rows| && k <= |e.rows[n].cells| && |row| == |printed| <= k
    ensures (forall j :: k <= j < |e.rows[n].cells| ==> e.rows[n].cells[j].Nested().None?)
      <==> ConsumeCells(marks, e, n, k, official, i, printed, row).Ok?
    ensures ConsumeCells(marks, e, n, k, official, i, printed, row).Ok? ==>
      ConsumeCells(marks, e, n, k, official, i, printed, row) == Ok((row, i))
    decreases |e.rows[n].cells| - k
  {
    if k < |e.rows[n].cells| && e.rows[n].cells[k].Nested().None? {
      ConsumeNoMoreCells(marks, e, n, k + 1, official, i, printed, row);
    }
  }

  /** Cells beyond the expected row are all text. */
  lemma {:induction false} TextTail(marks: Marks, strict: bool, cells: seq<PCell>, k: nat)
    requires k <= |cells| && PrintsCells(marks, strict, [], cells[k..])
    ensures PartialRow(cells, k) == RebuildCells(cells) && FlattenCells(cells[k..]) == []
    decreases |cells| - k
  {
    if k == |cells| {
      PartialRowEnds(cells);
    } else {
      assert cells[k..][1..] == cells[k + 1..];
      TextTail(marks, strict, cells, k + 1);
      PartialRowStep(cells, k);
    }
  }

  /** If the cells after cell `k` give the whole row, so do the cells from `k` on. */
  lemma {:induction false} ConsumeOneCell(
    marks: Marks, e: Grid, n: nat, k: nat, cells: seq<PCell>, official: seq<Table>, i: nat, i': nat, result: (seq<OutCell>, nat))
    requires n < |e.rows| && k < |cells| && k < |e.rows[n].cells| && i <= |official| && i' <= |official|
    requires PrintsCell(marks, false, e.rows[n].cells[k].Nested(), cells[k])
    requires cells[k].PText? ==> i' == i
    requires cells[k].PCursor? ==>
      ConsumeGrid(marks, e.rows[n].cells[k].Nested().value, official, i) == Ok((Rebuild(cells[k].grid), i'))
    requires ConsumeCells(marks, e, n, k + 1, official, i', RowText(PRow(cells)), PartialRow(cells, k + 1)) == Ok(result)
    ensures ConsumeCells(marks, e, n, k, official, i, RowText(PRow(cells)), PartialRow(cells, k)) == Ok(result)
  {
    PartialRowStep(cells, k);
    assert RowText(PRow(cells))[k] == CellText(cells[k]);
  }

  lemma {:induction false} ConsumeLastCells(
    marks: Marks, e: Grid, n: nat, k: nat, cells: seq<PCell>, official: seq<Table>, i: nat)
    requires n < |e.rows| && k <= |cells| && k <= |e.rows[n].cells| && i <= |official|
    requires k == |cells| || k == |e.rows[n].cells|
    requires PrintsCells(marks, false, e.rows[n].cells[k..], cells[k..])
    ensures ConsumeCells(marks, e, n, k, official, i, RowText(PRow(cells)), PartialRow(cells, k)) == Ok((RebuildCells(cells), i))
    ensures FlattenCells(cells[k..]) == []
  {
    var expected := e.rows[n].cells;
    if k == |expected| {
      assert expected[k..] == [];
      TextTail(marks, false, cells, k);
    } else {
      PartialRowEnds(cells);
      assert forall j :: k <= j < |expected| ==> expected[j] == expected[k..][j - k];
      ConsumeNoMoreCells(marks, e, n, k, official, i, RowText(PRow(cells)), PartialRow(cells, k));
    }
  }

  /** The cells from `k` on are printed, and the tables from `i` up to `end` are theirs. */
  ghost predicate CellsStand(marks: Marks, expected: seq<Cell>, cells: seq<PCell>, k: nat, official: seq<Table>, i: nat, end: nat)
    requires k <= |cells| && k <= |expected|
  {
    && PrintsCells(marks, false, expected[k..], cells[k..]) && EagerCells(cells[k..], official, i)
    && At(official, i, FlattenCells(cells[k..])) && end == i + |FlattenCells(cells[k..])|
  }

  ghost predicate CellStands(marks: Marks, nested: Option<Grid>, cell: PCell, official: seq<Table>, i: nat, end: nat) {
    && PrintsCell(marks, false, nested, cell) && (cell.PCursor? ==> Eager(cell.grid, official, i))
    && At(official, i, OwnTables(cell)) && end == i + |OwnTables(cell)|
  }

  lemma {:induction false} PrintsCellsStep(marks: Marks, expected: seq<Cell>, cells: seq<PCell>, k: nat)
    requires k < |cells| && k < |expected| && PrintsCells(marks, false, expected[k..], cells[k..])
    ensures PrintsCell(marks, false, expected[k].Nested(), cells[k])
    ensures PrintsCells(marks, false, expected[k + 1..], cells[k + 1..])
  {
    assert cells[k..][1..] == cells[k + 1..] && expected[k..][1..] == expected[k + 1..];
    assert cells[k..][0] == cells[k] && expected[k..][0] == expected[k];
  }

  lemma {:induction false} EagerCellsStep(cells: seq<PCell>, k: nat, official: seq<Table>, i: nat)
    requires k < |cells| && EagerCells(cells[k..], official, i)
    ensures cells[k].PCursor? ==> Eager(cells[k].grid, official, i)
    ensures EagerCells(cells[k + 1..], official, i + |OwnTables(cells[k])|)
  {
    assert cells[k..][0] == cells[k] && cells[k..][1..] == cells[k + 1..];
  }

  lemma {:induction false} FlattenCellsStep(cells: seq<PCell>, k: nat)
    requires k < |cells|
    ensures FlattenCells(cells[k..]) == OwnTables(cells[k]) + FlattenCells(cells[k + 1..])
  {
    assert cells[k..][0] == cells[k] && cells[k..][1..] == cells[k + 1..];
  }

  lemma {:induction false} CellsStandStep(
    marks: Marks, expected: seq<Cell>, cells: seq<PCell>, k: nat, official: seq<Table>, i: nat, end: nat) returns (i': nat)
    requires k < |cells| && k < |expected| && CellsStand(marks, expected, cells, k, official, i, end)
    ensures CellStands(marks, expected[k].Nested(), cells[k], official, i, i')
    ensures CellsStand(marks, expected, cells, k + 1, official, i', end)
  {
    i' := i + |OwnTables(cells[k])|;
    PrintsCellsStep(marks, expected, cells, k);
    EagerCellsStep(cells, k, official, i);
    FlattenCellsStep(cells, k);
    AtSplit(official, i, OwnTables(cells[k]), FlattenCells(cells[k + 1..]));
  }

  lemma {:induction false} ConsumePrintedCells(
    marks: Marks, e: Grid, n: nat, k: nat, cells: seq<PCell>, official: seq<Table>, i: nat, end: nat)
    requires n < |e.rows| && k <= |cells| && k <= |e.rows[n].cells| && i <= |official|
    requires CellsStand(marks, e.rows[n].cells, cells, k, official, i, end)
    ensures ConsumeCells(marks, e, n, k, official, i, RowText(PRow(cells)), PartialRow(cells, k)) == Ok((RebuildCells(cells), end))
    decreases cells, 1 + |cells| - k
  {
    if k == |e.rows[n].cells| || k == |cells| {
      ConsumeLastCells(marks, e, n, k, cells, official, i);
    } else {
      var i' := CellsStandStep(marks, e.rows[n].cells, cells, k, official, i, end);
      ConsumePrintedCells(marks, e, n, k + 1, cells, official, i', end);
      if cells[k].PCursor? {
        ConsumePrintedCell(marks, e.rows[n].cells[k].Nested().value, cells[k], official, i, i');
      }
      ConsumeOneCell(marks, e, n, k, cells, official, i, i', (RebuildCells(cells), end));
    }
  }

  lemma {:induction false} ConsumePrintedCell(marks: Marks, nested: Grid, cell: PCell, official: seq<Table>, i: nat, end: nat)
    requires CellStands(marks, Some(nested), cell, official, i, end) && cell.PCursor?
    ensures end <= |official| && ConsumeGrid(marks, nested, official, i) == Ok((Rebuild(cell.grid), end))
    decreases cell
  {
    ConsumePrintedGrid(marks, nested, cell.grid, official, i);
  }

  lemma {:induction false} ConsumePrintedRows(
    marks: Marks, e: Grid, rows: seq<PRow>, official: seq<Table>, i: nat, done: seq<seq<OutCell>>)
    requires PrintsRows(marks, false, e, |done|, rows) && At(official, i, FlattenRows(rows)) && EagerRows(rows, official, i)
    ensures ConsumeRows(marks, e, official, i, TableText(rows), done) == Ok((done + RebuildRows(rows), i + |FlattenRows(rows)|))
    decreases rows
  {
    if rows == [] {
      assert done + [] == done;
    } else {
      var cells := rows[0].cells;
      var own := FlattenCells(cells);
      AtSplit(official, i, own, FlattenRows(rows[1..]));
      assert TableText(rows)[0] == RowText(rows[0]) && rows[0] == PRow(cells);
      assert TableText(rows)[1..] == TableText(rows[1..]);
      assert e.rows[|done|].cells[0..] == e.rows[|done|].cells && cells[0..] == cells;
      PartialRowEnds(cells);
      ConsumePrintedCells(marks, e, |done|, 0, cells, official, i, i + |own|);
      var row := RebuildCells(cells);
      ConsumePrintedRows(marks, e, rows[1..], official, i + |own|, done + [row]);
      Regroup(done, [row], RebuildRows(rows[1..]));
    }
  }

  /** Where the first printed table and everything nested in it stand. */
  lemma {:induction false} FirstTableStands(tables: seq<PTable>, official: seq<Table>, i: nat)
    requires tables != [] && At(official, i, FlattenTables(tables))
    ensures i < |official| && official[i] == Table(Some(tables[0].columns), TableText(tables[0].rows))
    ensures At(official, i + 1, FlattenRows(tables[0].rows))
    ensures At(official, i + 1 + |FlattenRows(tables[0].rows)|, FlattenTables(tables[1..]))
    ensures |FlattenTables(tables)| == 1 + |FlattenRows(tables[0].rows)| + |FlattenTables(tables[1..])|
  {
    var head := [Table(Some(tables[0].columns), TableText(tables[0].rows))];
    var own, rest := FlattenRows(tables[0].rows), FlattenTables(tables[1..]);
    assert FlattenTables(tables) == head + own + rest;
    AtSplit(official, i, head + own, rest);
    AtSplit(official, i, head, own);
    assert official[i] == official[i..i + 1][0] == head[0];
  }

  lemma {:induction false} ConsumeOneTable(
    marks: Marks, e: Grid, official: seq<Table>, i: nat, i': nat, done: seq<seq<OutCell>>, more: seq<seq<OutCell>>, result: (OutGrid, nat))
    requires |done| < |e.rows| && i < |official| && i' <= |official|
    requires official[i].columns.Some? && |official[i].columns.value| == |e.columns|
    requires ConsumeRows(marks, e, official, i + 1, official[i].rows, done) == Ok((done + more, i'))
    requires ConsumeTables(marks, e, official, i', done + more) == Ok(result)
    ensures ConsumeTables(marks, e, official, i, done) == Ok(result)
  {
  }

  lemma {:induction false} ConsumePrintedTables(
    marks: Marks, e: Grid, tables: seq<PTable>, official: seq<Table>, i: nat, done: seq<seq<OutCell>>, result: (OutGrid, nat))
    requires PrintsTables(marks, false, e, |done|, tables) && At(official, i, FlattenTables(tables))
    requires EagerTables(tables, official, i)
    requires result == (OutGrid(e.columns, done + RebuildTables(tables)), i + |FlattenTables(tables)|)
    ensures ConsumeTables(marks, e, official, i, done) == Ok(result)
    decreases tables
  {
    if tables == [] {
      assert done + [] == done;
    } else {
      FirstTableStands(tables, official, i);
      var more, i' := RebuildRows(tables[0].rows), i + 1 + |FlattenRows(tables[0].rows)|;
      ConsumePrintedRows(marks, e, tables[0].rows, official, i + 1, done);
      Regroup(done, more, RebuildTables(tables[1..]));
      ConsumePrintedTables(marks, e, tables[1..], official, i', done + more, result);
      ConsumeOneTable(marks, e, official, i, i', done, more, result);
    }
  }

  lemma {:induction false} ConsumePrintedGrid(marks: Marks, e: Grid, p: PGrid, official: seq<Table>, i: nat)
    requires Prints(marks, false, e, p) && At(official, i, Flatten(p)) && Eager(p, official, i)
    ensures ConsumeGrid(marks, e, official, i) == Ok((Rebuild(p), i + |Flatten(p)|))
    decreases p
  {
    var result := (Rebuild(p), i + |Flatten(p)|);
    assert [] + RebuildTables(p.tables) == RebuildTables(p.tables);
    if p.placeholder {
      AtSplit(official, i, [PLACEHOLDER], FlattenTables(p.tables));
      assert official[i] == official[i..i + 1][0] == PLACEHOLDER;
      ConsumePrintedTables(marks, e, p.tables, official, i + 1, [], result);
    } else {
      assert Flatten(p) == FlattenTables(p.tables);
      ConsumePrintedTables(marks, e, p.tables, official, i, [], result);
    }
  }

  /**
    Unflatten undoes flatten: wherever a strict printing of a production grid stands among
    the printed tables, whatever is before and after it, consuming there rebuilds exactly
    the printed grid and stops exactly behind it.
   */
  lemma {:induction false} UnflattenUndoesFlatten(marks: Marks, e: Grid, p: PGrid, before: seq<Table>, after: seq<Table>)
    requires Prints(marks, true, e, p)
    ensures ConsumeGrid(marks, e, before + Flatten(p) + after, |before|) == Ok((Rebuild(p), |before| + |Flatten(p)|))
  {
    var official := before + Flatten(p) + after;
    assert official[|before|..|before| + |Flatten(p)|] == Flatten(p);
    StrictIsEager(marks, e, p, official, |before|);
    ConsumePrintedGrid(marks, e, p, official, |before|);
  }
}
