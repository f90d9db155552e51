/**
 * Fill rates of the workbook processor. A data row is a row with at least
 * DataRowMinCells non-blank cells; the fill rate of a column is measured over
 * the data rows only, so that trailing footnote rows do not distort it, and
 * over all rows when the sheet has no data row at all.
 */
module FillRates {
  import opened Text
  import opened Ratios
  import opened Model
  import opened Seqs

  /** Rows with fewer non-blank cells than this are footnote, blank or annotation rows. */
  const DataRowMinCells: nat := 4

  /** A cell whose trimmed text is non-empty. */
  predicate NonBlank(cell: string) {
    Trim(cell) != ""
  }

  /** The number of non-blank cells among cells. */
  function NonEmptyCount(cells: seq<string>): (n: nat)
    ensures n <= |cells|
  {
    if cells == [] then 0
    else NonEmptyCount(cells[..|cells| - 1]) + (if NonBlank(cells[|cells| - 1]) then 1 else 0)
  }

  /** Appending a cell adds one to the count exactly when the cell is non-blank. */
  lemma NonEmptyCountSnoc(cells: seq<string>, cell: string)
    ensures NonEmptyCount(cells + [cell]) == NonEmptyCount(cells) + (if NonBlank(cell) then 1 else 0)
  {
    assert (cells + [cell])[..|cells|] == cells;
  }

  /** nonEmptyCellCount: one pass over the row's cell values. */
  method NonEmptyCellCount(row: RowData) returns (count: nat)
    ensures count == NonEmptyCount(row.cellValues)
  {
    var cells := row.cellValues;
    count := 0;
    for i := 0 to |cells|
      invariant count == NonEmptyCount(cells[..i])
    {
      assert cells[..i + 1][..i] == cells[..i];
      if NonBlank(cells[i]) {
        count := count + 1;
      }
    }
    assert cells[..|cells|] == cells;
  }

  /** Enough non-blank cells to count as car data. */
  predicate IsDataRow(row: RowData)
    ensures IsDataRow(row) ==> |row.cellValues| >= DataRowMinCells
  {
    NonEmptyCount(row.cellValues) >= DataRowMinCells
  }

  /** A row with fewer than DataRowMinCells cells can never be a data row. */
  lemma ShortRowIsNotData(row: RowData)
    requires |row.cellValues| < DataRowMinCells
    ensures !IsDataRow(row)
  {
  }

  /** The number of rows whose cell at col (padded with "") is non-blank. */
  function ColumnCount(rows: seq<RowData>, col: nat): (n: nat)
    ensures n <= |rows|
  {
    if rows == [] then 0
    else ColumnCount(rows[..|rows| - 1], col) + (if NonBlank(rows[|rows| - 1].GetCell(col)) then 1 else 0)
  }

  /** A column counts no row exactly when it is blank in every row. */
  lemma {:induction false} ColumnCountZero(rows: seq<RowData>, col: nat)
    ensures ColumnCount(rows, col) == 0 <==> forall i :: 0 <= i < |rows| ==> !NonBlank(rows[i].GetCell(col))
  {
    if rows != [] {
      var init := rows[..|rows| - 1];
      ColumnCountZero(init, col);
      assert forall i :: 0 <= i < |init| ==> init[i] == rows[i];
    }
  }

  /** countNonEmptyCells: one pass over the rows. */
  method CountNonEmptyCells(rows: seq<RowData>, columnIndex: nat) returns (count: nat)
    ensures count == ColumnCount(rows, columnIndex)
  {
    count := 0;
    for i := 0 to |rows|
      invariant count == ColumnCount(rows[..i], columnIndex)
    {
      assert rows[..i + 1][..i] == rows[..i];
      if NonBlank(rows[i].GetCell(columnIndex)) {
        count := count + 1;
      }
    }
    assert rows[..|rows|] == rows;
  }

  /** The data rows of rows, in order. */
  function DataRows(rows: seq<RowData>): (data: seq<RowData>)
    ensures |data| <= |rows|
    ensures forall r :: r in data <==> r in rows && IsDataRow(r)
  {
    if rows == [] then []
    else DataRows(rows[..|rows| - 1]) + (if IsDataRow(rows[|rows| - 1]) then [rows[|rows| - 1]] else [])
  }

  /**
   * fillRate: 0 for no rows; the share of all rows filled at col when no row
   * is a data row; otherwise the share of the data rows filled at col.
   */
  function FillRate(rows: seq<RowData>, col: nat): (f: real)
    ensures 0.0 <= f <= 1.0
  {
    if |rows| == 0 then 0.0
    else
      var data := DataRows(rows);
      if data == [] then Share(ColumnCount(rows, col), |rows|)
      else Share(ColumnCount(data, col), |data|)
  }

  /** A sheet made only of data rows is measured over all of them. */
  lemma {:induction false} AllDataRows(rows: seq<RowData>)
    requires forall i :: 0 <= i < |rows| ==> IsDataRow(rows[i])
    ensures DataRows(rows) == rows
  {
    if rows != [] {
      InitLast(rows);
      AllDataRows(rows[..|rows| - 1]);
    }
  }

  /** Trailing footnote rows do not change any fill rate once a data row exists. */
  lemma FootnoteRowIgnored(rows: seq<RowData>, footnote: RowData, col: nat)
    requires DataRows(rows) != [] && !IsDataRow(footnote)
    ensures FillRate(rows + [footnote], col) == FillRate(rows, col)
  {
    var extended := rows + [footnote];
    assert extended[..|extended| - 1] == rows;
    assert DataRows(extended) == DataRows(rows);
  }

  /** A column blank in every data row has fill rate 0. */
  lemma BlankInDataRowsMeansZero(rows: seq<RowData>, col: nat)
    requires DataRows(rows) != []
    requires forall i :: 0 <= i < |rows| && IsDataRow(rows[i]) ==> !NonBlank(rows[i].GetCell(col))
    ensures FillRate(rows, col) == 0.0
  {
    var data := DataRows(rows);
    forall i | 0 <= i < |data| ensures !NonBlank(data[i].GetCell(col)) {
      assert data[i] in data;
    }
    ColumnCountZero(data, col);
    ShareExtremes(0, |data|);
  }

  /** A column filled in every data row has fill rate 1. */
  lemma FilledInDataRowsMeansOne(rows: seq<RowData>, col: nat)
    requires DataRows(rows) != []
    requires forall i :: 0 <= i < |rows| && IsDataRow(rows[i]) ==> NonBlank(rows[i].GetCell(col))
    ensures FillRate(rows, col) == 1.0
  {
    var data := DataRows(rows);
    forall i | 0 <= i < |data| ensures NonBlank(data[i].GetCell(col)) {
      assert data[i] in data;
    }
    ColumnCountFull(data, col);
    ShareExtremes(|data|, |data|);
  }

  lemma {:induction false} ColumnCountFull(rows: seq<RowData>, col: nat)
    requires forall i :: 0 <= i < |rows| ==> NonBlank(rows[i].GetCell(col))
    ensures ColumnCount(rows, col) == |rows|
  {
    if rows != [] {
      var init := rows[..|rows| - 1];
      assert forall i :: 0 <= i < |init| ==> init[i] == rows[i];
      ColumnCountFull(init, col);
    }
  }
}
