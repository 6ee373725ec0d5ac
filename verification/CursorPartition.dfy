/**
  The converse (scripts/verify_oracle_cli.py): whatever is consumed is a printing of
  the production grid, and a successful normalization cuts the printed tables into
  consecutive blocks, one per production grid.
 */
module CursorPartition {
  import opened Prelude
  import opened CursorGrids
  import opened CursorTheorems

  /** The tables from `i` up to `j` are `part`. */
  predicate Spans(official: seq<Table>, i: nat, j: nat, part: seq<Table>) {
    j == i + |part| && At(official, i, part)
  }

  lemma {:induction false} SpansConcat(official: seq<Table>, i: nat, j: nat, k: nat, a: seq<Table>, b: seq<Table>)
    requires Spans(official, i, j, a) && Spans(official, j, k, b)
    ensures Spans(official, i, k, a + b)
  {
    AtSplit(official, i, a, b);
  }

  /** `p` prints `e`, its tables are those from `i` up to `j`, and its empty grids took the placeholders that were next. */
  ghost predicate PrintedHere(marks: Marks, e: Grid, official: seq<Table>, i: nat, j: nat, p: PGrid) {
    Prints(marks, false, e, p) && Spans(official, i, j, Flatten(p)) && Eager(p, official, i)
  }

  // ----- Cells -----

  lemma {:induction false} TextsAreCells(texts: seq<string>) returns (cells: seq<PCell>)
    ensures RowText(PRow(cells)) == texts && |cells| == |texts|
    ensures RebuildCells(cells) == Texts(texts) && FlattenCells(cells) == []
    ensures forall marks: Marks, strict: bool :: PrintsCells(marks, strict, [], cells)
    ensures forall official: seq<Table>, i: nat :: EagerCells(cells, official, i)
    decreases |texts|
  {
    if texts == [] {
      cells := [];
    } else {
      var rest := TextsAreCells(texts[1..]);
      cells := [PText(texts[0])] + rest;
      assert cells[1..] == rest;
      assert RowText(PRow(cells)) == texts by {
        assert forall j :: 0 < j < |texts| ==> RowText(PRow(cells))[j] == RowText(PRow(rest))[j - 1];
      }
      assert Texts(texts) == [Text(texts[0])] + Texts(texts[1..]);
    }
  }

  lemma {:induction false} ConsCell(cell: PCell, rest: seq<PCell>, printed: seq<string>)
    requires printed != [] && CellText(cell) == printed[0] && RowText(PRow(rest)) == printed[1..]
    ensures RowText(PRow([cell] + rest)) == printed
    ensures RebuildCells([cell] + rest) == [RebuildCell(cell)] + RebuildCells(rest)
    ensures FlattenCells([cell] + rest) == OwnTables(cell) + FlattenCells(rest)
  {
    var cells := [cell] + rest;
    assert cells[1..] == rest;
    assert forall j :: 0 < j < |printed| ==> RowText(PRow(cells))[j] == RowText(PRow(rest))[j - 1];
  }

  /** What consuming the cells from `k` on amounts to: printed cells that explain the tables taken and the row built. */
  ghost predicate ExplainsCells(marks: Marks, expected: seq<Cell>, official: seq<Table>, i: nat, j: nat,
                                printed: seq<string>, row: seq<OutCell>, cells: seq<PCell>) {
    && RowText(PRow(cells)) == printed && |cells| == |printed|
    && PrintsCells(marks, false, expected, cells) && EagerCells(cells, official, i)
    && Spans(official, i, j, FlattenCells(cells))
    && row == RebuildCells(cells)
  }

  lemma {:induction false} NoExpectedCells(
    marks: Marks, official: seq<Table>, i: nat, printed: seq<string>)
    returns (cells: seq<PCell>)
    requires i <= |official|
    ensures ExplainsCells(marks, [], official, i, i, printed, Texts(printed), cells)
  {
    cells := TextsAreCells(printed);
    assert official[i..i + 0] == [];
  }

  lemma {:induction false} ExplainOneMore(marks: Marks, expected: seq<Cell>, official: seq<Table>, i: nat, i': nat, j: nat,
                                          printed: seq<string>, row: seq<OutCell>, cell: PCell, rest: seq<PCell>)
    requires expected != [] && printed != [] && row != []
    requires ExplainsCells(marks, expected[1..], official, i', j, printed[1..], row[1..], rest)
    requires CellText(cell) == printed[0] && row[0] == RebuildCell(cell)
    requires PrintsCell(marks, false, expected[0].Nested(), cell) && (cell.PCursor? ==> Eager(cell.grid, official, i))
    requires Spans(official, i, i', OwnTables(cell))
    ensures ExplainsCells(marks, expected, official, i, j, printed, row, [cell] + rest)
  {
    ConsCell(cell, rest, printed);
    ConsPrintedCell(marks, expected, cell, rest, official, i, i');
    SpansConcat(official, i, i', j, OwnTables(cell), FlattenCells(rest));
    assert row == [row[0]] + row[1..];
  }

  lemma {:induction false} ConsPrintedCell(
    marks: Marks, expected: seq<Cell>, cell: PCell, rest: seq<PCell>, official: seq<Table>, i: nat, i': nat)
    requires expected != [] && PrintsCell(marks, false, expected[0].Nested(), cell) && PrintsCells(marks, false, expected[1..], rest)
    requires (cell.PCursor? ==> Eager(cell.grid, official, i)) && EagerCells(rest, official, i') && i' == i + |OwnTables(cell)|
    ensures PrintsCells(marks, false, expected, [cell] + rest) && EagerCells([cell] + rest, official, i)
  {
    assert ([cell] + rest)[1..] == rest;
  }

  /** Whatever `ConsumeCells` does to the cells before `k` it leaves alone. */
  lemma {:induction false} CellsConsumedArePrinted(marks: Marks, e: Grid, n: nat, k: nat, official: seq<Table>, i: nat,
                                                   printed: seq<string>, row: seq<OutCell>) returns (cells: seq<PCell>)
    requires i <= |official| && n < |e.rows| && k <= |e.rows[n].cells| && k <= |printed| == |row|
    requires row[k..] == Texts(printed[k..])
    requires ConsumeCells(marks, e, n, k, official, i, printed, row).Ok?
    ensures var (out, j) := ConsumeCells(marks, e, n, k, official, i, printed, row).value;
      |out| == |row| && out[..k] == row[..k]
      && ExplainsCells(marks, e.rows[n].cells[k..], official, i, j, printed[k..], out[k..], cells)
    decreases e, 0, |e.rows[n].cells| - k
  {
    var expected := e.rows[n].cells;
    if k == |expected| {
      assert expected[k..] == [];
      cells := NoExpectedCells(marks, official, i, printed[k..]);
    } else if k == |printed| {
      ConsumeNoMoreCells(marks, e, n, k, official, i, printed, row);
      cells := [];
      assert official[i..i + 0] == [];
      assert forall j :: 0 <= j < |expected[k..]| ==> expected[k..][j] == expected[k + j];
    } else {
      var nested := expected[k].Nested();
      RowTail(row, printed, k);
      if nested.None? || !marks(printed[k]) {
        cells := CellsConsumedArePrinted(marks, e, n, k + 1, official, i, printed, row);
        assert official[i..i + 0] == [];
        var (out, j) := ConsumeCells(marks, e, n, k, official, i, printed, row).value;
        ExplainCellAt(marks, expected, k, official, i, i, j, printed, row, out, PText(printed[k]), cells);
        cells := [PText(printed[k])] + cells;
      } else {
        NestedIsSmaller(e, n, k);
        var p := GridConsumedIsPrinted(marks, nested.value, official, i);
        var (grid, i') := ConsumeGrid(marks, nested.value, official, i).value;
        var row' := row[k := Rebuilt(grid)];
        assert row'[k + 1..] == row[k + 1..] && row'[..k] == row[..k];
        cells := CellsConsumedArePrinted(marks, e, n, k + 1, official, i', printed, row');
        var (out, j) := ConsumeCells(marks, e, n, k, official, i, printed, row).value;
        ExplainCellAt(marks, expected, k, official, i, i', j, printed, row', out, PCursor(printed[k], p), cells);
        cells := [PCursor(printed[k], p)] + cells;
      }
    }
  }

  lemma {:induction false} RowTail(row: seq<OutCell>, printed: seq<string>, k: nat)
    requires k < |printed| == |row| && row[k..] == Texts(printed[k..])
    ensures row[k] == Text(printed[k]) && row[k + 1..] == Texts(printed[k + 1..])
  {
    assert row[k] == row[k..][0];
    assert row[k + 1..] == row[k..][1..];
  }

  /** The explanation from cell `k + 1` on, extended by the cell at `k`. */
  lemma {:induction false} ExplainCellAt(marks: Marks, expected: seq<Cell>, k: nat, official: seq<Table>, i: nat, i': nat, j: nat,
                                         printed: seq<string>, row: seq<OutCell>, out: seq<OutCell>, cell: PCell, rest: seq<PCell>)
    requires k < |expected| && k < |printed| == |row| == |out|
    requires out[..k + 1] == row[..k + 1]
    requires ExplainsCells(marks, expected[k + 1..], official, i', j, printed[k + 1..], out[k + 1..], rest)
    requires CellText(cell) == printed[k] && row[k] == RebuildCell(cell)
    requires PrintsCell(marks, false, expected[k].Nested(), cell) && (cell.PCursor? ==> Eager(cell.grid, official, i))
    requires Spans(official, i, i', OwnTables(cell))
    ensures out[..k] == row[..k]
    ensures ExplainsCells(marks, expected[k..], official, i, j, printed[k..], out[k..], [cell] + rest)
  {
    assert expected[k..][1..] == expected[k + 1..] && printed[k..][1..] == printed[k + 1..];
    assert out[..k] == out[..k + 1][..k] && out[k] == out[..k + 1][k] == row[k] && row[..k] == row[..k + 1][..k];
    assert out[k..][1..] == out[k + 1..];
    ExplainOneMore(marks, expected[k..], official, i, i', j, printed[k..], out[k..], cell, rest);
  }

  // ----- Rows, tables, grids -----

  lemma {:induction false} RowsConsumedArePrinted(
    marks: Marks, e: Grid, official: seq<Table>, i: nat, printed: seq<seq<string>>, done: seq<seq<OutCell>>)
    returns (rows: seq<PRow>)
    requires i <= |official| && ConsumeRows(marks, e, official, i, printed, done).Ok?
    ensures var (all, j) := ConsumeRows(marks, e, official, i, printed, done).value;
      && TableText(rows) == printed && |rows| == |printed|
      && PrintsRows(marks, false, e, |done|, rows) && EagerRows(rows, official, i)
      && Spans(official, i, j, FlattenRows(rows))
      && all == done + RebuildRows(rows)
    decreases e, 1, |printed|
  {
    if printed == [] {
      rows := [];
      assert official[i..i + 0] == [] && done + [] == done;
    } else {
      var first := printed[0];
      assert Texts(first)[0..] == Texts(first) && first[0..] == first;
      var cells := CellsConsumedArePrinted(marks, e, |done|, 0, official, i, first, Texts(first));
      var (row, i') := ConsumeCells(marks, e, |done|, 0, official, i, first, Texts(first)).value;
      assert row[0..] == row && e.rows[|done|].cells[0..] == e.rows[|done|].cells;
      var rest := RowsConsumedArePrinted(marks, e, official, i', printed[1..], done + [row]);
      var (all, j) := ConsumeRows(marks, e, official, i, printed, done).value;
      rows := [PRow(cells)] + rest;
      assert rows[1..] == rest;
      SpansConcat(official, i, i', j, FlattenCells(cells), FlattenRows(rest));
      EagerRowsCons(cells, rest, official, i, i');
      TableTextCons(PRow(cells), rest, printed);
      Regroup(done, [row], RebuildRows(rest));
    }
  }

  lemma {:induction false} TableTextCons(row: PRow, rest: seq<PRow>, printed: seq<seq<string>>)
    requires printed != [] && RowText(row) == printed[0] && TableText(rest) == printed[1..]
    ensures TableText([row] + rest) == printed
  {
    assert forall j :: 0 < j < |printed| ==> TableText([row] + rest)[j] == TableText(rest)[j - 1];
  }

  lemma {:induction false} TablesConsumedArePrinted(marks: Marks, e: Grid, official: seq<Table>, i: nat, done: seq<seq<OutCell>>)
    returns (tables: seq<PTable>)
    requires i <= |official| && |done| <= |e.rows| && ConsumeTables(marks, e, official, i, done).Ok?
    ensures var (grid, j) := ConsumeTables(marks, e, official, i, done).value;
      && PrintsTables(marks, false, e, |done|, tables) && EagerTables(tables, official, i)
      && Spans(official, i, j, FlattenTables(tables))
      && grid == OutGrid(e.columns, done + RebuildTables(tables))
    decreases e, 2, |official| - i
  {
    if |done| == |e.rows| {
      tables := [];
      assert official[i..i + 0] == [] && done + [] == done;
    } else {
      var table := official[i];
      var rows := RowsConsumedArePrinted(marks, e, official, i + 1, table.rows, done);
      var (all, i') := ConsumeRows(marks, e, official, i + 1, table.rows, done).value;
      RowsStayInGrid(marks, e, |done|, rows);
      var rest := TablesConsumedArePrinted(marks, e, official, i', all);
      var (grid, j) := ConsumeTables(marks, e, official, i, done).value;
      tables := [PTable(table.columns.value, rows)] + rest;
      assert |all| == |done| + |rows|;
      ConsTable(marks, e, |done|, |all|, official, i, i', j, PTable(table.columns.value, rows), rest);
      EagerTablesCons(PTable(table.columns.value, rows), rest, official, i, i');
      Regroup(done, RebuildRows(rows), RebuildTables(rest));
    }
  }

  lemma {:induction false} ConsTable(
    marks: Marks, e: Grid, n: nat, m: nat, official: seq<Table>, i: nat, i': nat, j: nat, table: PTable, rest: seq<PTable>)
    requires n < |e.rows| && |table.columns| == |e.columns| && PrintsRows(marks, false, e, n, table.rows)
    requires m == n + |table.rows| && PrintsTables(marks, false, e, m, rest)
    requires i < |official| && official[i] == Table(Some(table.columns), TableText(table.rows))
    requires Spans(official, i + 1, i', FlattenRows(table.rows)) && Spans(official, i', j, FlattenTables(rest))
    ensures PrintsTables(marks, false, e, n, [table] + rest) && Spans(official, i, j, FlattenTables([table] + rest))
    ensures RebuildTables([table] + rest) == RebuildRows(table.rows) + RebuildTables(rest)
  {
    assert ([table] + rest)[1..] == rest && official[i..i + 1] == [official[i]];
    SpansConcat(official, i, i + 1, i', [official[i]], FlattenRows(table.rows));
    SpansConcat(official, i, i', j, [official[i]] + FlattenRows(table.rows), FlattenTables(rest));
  }

  lemma {:induction false} EagerTablesCons(table: PTable, rest: seq<PTable>, official: seq<Table>, i: nat, i': nat)
    requires EagerRows(table.rows, official, i + 1) && EagerTables(rest, official, i') && i' == i + 1 + |FlattenRows(table.rows)|
    ensures EagerTables([table] + rest, official, i)
  {
    assert ([table] + rest)[1..] == rest;
  }

  lemma {:induction false} EagerRowsCons(cells: seq<PCell>, rest: seq<PRow>, official: seq<Table>, i: nat, i': nat)
    requires EagerCells(cells, official, i) && EagerRows(rest, official, i') && i' == i + |FlattenCells(cells)|
    ensures EagerRows([PRow(cells)] + rest, official, i)
  {
    assert ([PRow(cells)] + rest)[1..] == rest;
  }

  lemma {:induction false} RowsStayInGrid(marks: Marks, e: Grid, n: nat, rows: seq<PRow>)
    requires n <= |e.rows| && PrintsRows(marks, false, e, n, rows)
    ensures n + |rows| <= |e.rows|
    decreases |rows|
  {
    if rows != [] {
      RowsStayInGrid(marks, e, n + 1, rows[1..]);
    }
  }

  /** Whatever is consumed for a grid is a printing of it, and the result is the grid that was printed. */
  lemma {:induction false} GridConsumedIsPrinted(marks: Marks, e: Grid, official: seq<Table>, i: nat) returns (p: PGrid)
    requires i <= |official| && ConsumeGrid(marks, e, official, i).Ok?
    ensures var (grid, j) := ConsumeGrid(marks, e, official, i).value;
      PrintedHere(marks, e, official, i, j, p) && grid == Rebuild(p)
    decreases e, 3, 0
  {
    var placeholder := e.rows == [] && PlaceholderNext(official, i);
    var first := if placeholder then i + 1 else i;
    var tables := TablesConsumedArePrinted(marks, e, official, first, []);
    var (grid, j) := ConsumeGrid(marks, e, official, i).value;
    p := PGrid(e.columns, placeholder, tables);
    GridStands(official, i, first, j, p);
    assert [] + RebuildTables(tables) == RebuildTables(tables);
  }

  lemma {:induction false} GridStands(official: seq<Table>, i: nat, first: nat, j: nat, p: PGrid)
    requires p.placeholder ==> PlaceholderNext(official, i)
    requires first == (if p.placeholder then i + 1 else i) <= |official| && Spans(official, first, j, FlattenTables(p.tables))
    ensures Spans(official, i, j, Flatten(p))
  {
    assert official[i..first] == if p.placeholder then [PLACEHOLDER] else [];
    SpansConcat(official, i, first, j, official[i..first], FlattenTables(p.tables));
  }

  /** Consuming a grid succeeds, with this result and up to here, if and only if that grid is what is printed up to here. */
  lemma {:induction false} ConsumedIffPrintedHere(marks: Marks, e: Grid, official: seq<Table>, i: nat, grid: OutGrid, j: nat)
    requires i <= |official|
    ensures ConsumeGrid(marks, e, official, i) == Ok((grid, j)) <==>
      exists p :: PrintedHere(marks, e, official, i, j, p) && grid == Rebuild(p)
  {
    if ConsumeGrid(marks, e, official, i) == Ok((grid, j)) {
      var p := GridConsumedIsPrinted(marks, e, official, i);
    }
    forall p | PrintedHere(marks, e, official, i, j, p)
      ensures ConsumeGrid(marks, e, official, i) == Ok((Rebuild(p), j))
    {
      ConsumePrintedGrid(marks, e, p, official, i);
    }
  }

  // ----- A normalization partitions the printed tables -----

  /** The tables one production grid claims, and what they become. */
  ghost predicate Claims(marks: Marks, grid: Grid, block: seq<Table>, normal: Normal) {
    if !HasCursor(grid) then |block| == 1 && normal == Printed(block[0])
    else exists p :: Prints(marks, false, grid, p) && block == Flatten(p) && normal == Regrouped(Rebuild(p))
  }

  function Concat(blocks: seq<seq<Table>>): seq<Table> {
    if blocks == [] then [] else blocks[0] + Concat(blocks[1..])
  }

  lemma {:induction false} NextClaim(marks: Marks, grid: Grid, official: seq<Table>, i: nat) returns (block: seq<Table>)
    requires i <= |official| && ClaimNext(marks, grid, official, i).Ok?
    ensures var (normal, j) := ClaimNext(marks, grid, official, i).value;
      Claims(marks, grid, block, normal) && Spans(official, i, j, block)
  {
    if HasCursor(grid) {
      var p := GridConsumedIsPrinted(marks, grid, official, i);
      block := Flatten(p);
    } else {
      block := official[i..i + 1];
    }
  }

  /**
    A successful normalization cuts the printed tables into consecutive blocks, one per
    production grid in order, with none skipped, shared or left over; every block is a
    printing of its grid (or the grid's single table) and its result is what was printed.
   */
  lemma {:induction false} NormalizationPartitions(
    marks: Marks, production: seq<Grid>, official: seq<Table>, i: nat, done: seq<Normal>)
    returns (blocks: seq<seq<Table>>)
    requires i <= |official| && NormalizeFrom(marks, production, official, i, done).Ok?
    ensures var normalized := NormalizeFrom(marks, production, official, i, done).value;
      && |blocks| == |production| && |normalized| == |done| + |production| && normalized[..|done|] == done
      && Concat(blocks) == official[i..]
      && forall k :: 0 <= k < |production| ==> Claims(marks, production[k], blocks[k], normalized[|done| + k])
    decreases |production|
  {
    if production == [] {
      blocks := [];
    } else {
      var block := NextClaim(marks, production[0], official, i);
      var (normal, i') := ClaimNext(marks, production[0], official, i).value;
      var rest := NormalizationPartitions(marks, production[1..], official, i', done + [normal]);
      var normalized := NormalizeFrom(marks, production, official, i, done).value;
      blocks := [block] + rest;
      assert blocks[1..] == rest;
      assert official[i..] == official[i..i'] + official[i'..];
      assert normalized[..|done|] == normalized[..|done| + 1][..|done|];
      assert normalized[|done|] == normalized[..|done| + 1][|done|];
      forall k | 0 < k < |production|
        ensures Claims(marks, production[k], blocks[k], normalized[|done| + k])
      {
        assert production[k] == production[1..][k - 1] && blocks[k] == rest[k - 1];
        assert |done + [normal]| + (k - 1) == |done| + k;
      }
    }
  }

  // ----- And every such cut is what a normalization finds -----

  ghost predicate ClaimsHere(marks: Marks, grid: Grid, official: seq<Table>, i: nat, j: nat, normal: Normal) {
    if !HasCursor(grid) then i < |official| && j == i + 1 && normal == Printed(official[i])
    else exists p :: PrintedHere(marks, grid, official, i, j, p) && normal == Regrouped(Rebuild(p))
  }

  lemma {:induction false} ClaimedIff(marks: Marks, grid: Grid, official: seq<Table>, i: nat, j: nat, normal: Normal)
    requires i <= |official|
    ensures ClaimNext(marks, grid, official, i) == Ok((normal, j)) <==> ClaimsHere(marks, grid, official, i, j, normal)
  {
    if HasCursor(grid) {
      if normal.Regrouped? {
        ConsumedIffPrintedHere(marks, grid, official, i, normal.grid, j);
      }
    }
  }

  /** From `i` on the tables are cut at `ends` into what the grids claim, one after the other, with none left over. */
  ghost predicate CutsAt(
    marks: Marks, production: seq<Grid>, official: seq<Table>, i: nat, ends: seq<nat>, normals: seq<Normal>)
    decreases |production|
  {
    && |ends| == |normals| == |production|
    && if production == [] then i == |official|
       else
         && ClaimsHere(marks, production[0], official, i, ends[0], normals[0])
         && CutsAt(marks, production[1..], official, ends[0], ends[1..], normals[1..])
  }

  lemma {:induction false} NormalizedIsCut(marks: Marks, production: seq<Grid>, official: seq<Table>, i: nat, done: seq<Normal>)
    returns (ends: seq<nat>, normals: seq<Normal>)
    requires i <= |official| && NormalizeFrom(marks, production, official, i, done).Ok?
    ensures CutsAt(marks, production, official, i, ends, normals)
    ensures NormalizeFrom(marks, production, official, i, done) == Ok(done + normals)
    decreases |production|
  {
    if production == [] {
      ends, normals := [], [];
      assert done + [] == done;
    } else {
      var (normal, j) := ClaimNext(marks, production[0], official, i).value;
      ClaimedIff(marks, production[0], official, i, j, normal);
      var moreEnds, more := NormalizedIsCut(marks, production[1..], official, j, done + [normal]);
      ends, normals := [j] + moreEnds, [normal] + more;
      assert ends[1..] == moreEnds && normals[1..] == more;
      Regroup(done, [normal], more);
    }
  }

  lemma {:induction false} CutIsNormalized(
    marks: Marks, production: seq<Grid>, official: seq<Table>, i: nat, done: seq<Normal>, ends: seq<nat>, normals: seq<Normal>)
    requires i <= |official| && CutsAt(marks, production, official, i, ends, normals)
    ensures NormalizeFrom(marks, production, official, i, done) == Ok(done + normals)
    decreases |production|
  {
    if production == [] {
      assert done + normals == done;
    } else {
      ClaimedIff(marks, production[0], official, i, ends[0], normals[0]);
      CutIsNormalized(marks, production[1..], official, ends[0], done + [normals[0]], ends[1..], normals[1..]);
      assert done + normals == done + [normals[0]] + normals[1..];
    }
  }

  /**
    A normalization succeeds with these results if and only if the printed tables can be cut into
    consecutive blocks, one per production grid, each of which prints its grid.
   */
  lemma {:induction false} NormalizedIffCut(
    marks: Marks, production: seq<Grid>, official: seq<Table>, i: nat, done: seq<Normal>, normals: seq<Normal>)
    requires i <= |official|
    ensures NormalizeFrom(marks, production, official, i, done) == Ok(done + normals) <==>
      exists ends :: CutsAt(marks, production, official, i, ends, normals)
  {
    if NormalizeFrom(marks, production, official, i, done) == Ok(done + normals) {
      var ends, found := NormalizedIsCut(marks, production, official, i, done);
      assert found == (done + found)[|done|..] == (done + normals)[|done|..] == normals;
    }
    if exists ends :: CutsAt(marks, production, official, i, ends, normals) {
      var ends :| CutsAt(marks, production, official, i, ends, normals);
      CutIsNormalized(marks, production, official, i, done, ends, normals);
      assert exists ends :: CutsAt(marks, production, official, i, ends, normals);
    }
  }
}
