/**
 * Bounded fill-down of the group columns. The source sheets leave the car
 * name and the common (model) name blank in rows that repeat the value above;
 * the processor writes the most recent non-blank value into those cells, but
 * only up to the last data row, so trailing footnote rows stay as they are.
 */
module FillDown {
  import opened Text
  import opened Model
  import opened Constants
  import opened FillRates

  /** The last data row below n, or -1 when there is none. */
  function LastDataRowBelow(rows: seq<RowData>, n: nat): (r: int)
    requires n <= |rows|
    ensures -1 <= r < n
    ensures r >= 0 ==> IsDataRow(rows[r])
    ensures forall k :: r < k < n ==> !IsDataRow(rows[k])
  {
    if n == 0 then -1
    else if IsDataRow(rows[n - 1]) then n - 1
    else LastDataRowBelow(rows, n - 1)
  }

  /**
   * findLastDataRowIndex: the last row with at least DataRowMinCells
   * non-blank cells; the last row of all when no row qualifies.
   */
  function LastDataRow(rows: seq<RowData>): (r: int)
    ensures -1 <= r < |rows|
    ensures rows != [] ==> 0 <= r
    ensures (exists k :: 0 <= k < |rows| && IsDataRow(rows[k])) ==>
              IsDataRow(rows[r]) && forall k :: r < k < |rows| ==> !IsDataRow(rows[k])
    ensures (forall k :: 0 <= k < |rows| ==> !IsDataRow(rows[k])) ==> r == |rows| - 1
  {
    var r := LastDataRowBelow(rows, |rows|);
    if r >= 0 then r else |rows| - 1
  }

  /** findLastDataRowIndex: scan upwards from the last row, stop at the first data row. */
  method FindLastDataRowIndex(rows: seq<RowData>) returns (index: int)
    ensures index == LastDataRow(rows)
  {
    for i := |rows| downto 0
      invariant LastDataRowBelow(rows, |rows|) == LastDataRowBelow(rows, i)
    {
      var count := NonEmptyCellCount(rows[i]);
      if count >= DataRowMinCells {
        return i;
      }
    }
    return |rows| - 1;
  }

  /** Row has a non-blank cell at column idx. */
  predicate HasValue(row: RowData, idx: int) {
    0 <= idx < |row.cellValues| && NonBlank(row.cellValues[idx])
  }

  /** The most recent row above row i with a non-blank cell at idx, or -1. */
  function SourceRow(rows: seq<RowData>, idx: int, i: nat): (k: int)
    requires i <= |rows|
    ensures -1 <= k < i
    ensures k >= 0 ==> HasValue(rows[k], idx)
    ensures forall m :: k < m < i ==> !HasValue(rows[m], idx)
  {
    if i == 0 then -1
    else if HasValue(rows[i - 1], idx) then i - 1
    else SourceRow(rows, idx, i - 1)
  }

  /** The value carried into row i at idx: the trimmed most recent value above it, or "". */
  function Carried(rows: seq<RowData>, idx: int, i: nat): string
    requires i <= |rows|
  {
    var k := SourceRow(rows, idx, i);
    if k < 0 then "" else Trim(rows[k].cellValues[idx])
  }

  /** One fill step: a blank cell at idx of a data row takes the carried value, if there is one. */
  function FillCell(cells: seq<string>, idx: int, carried: string, isDataRow: bool): (out: seq<string>)
    ensures |out| == |cells|
  {
    if 0 <= idx < |cells| && !NonBlank(cells[idx]) && isDataRow && carried != "" then cells[idx := carried]
    else cells
  }

  /** Row i after filling the car name column and then the common name column. */
  function FilledRow(rows: seq<RowData>, carNameIdx: int, commonNameIdx: int, lastDataRow: int, i: nat): RowData
    requires i < |rows|
  {
    var isDataRow := i <= lastDataRow;
    var cells := FillCell(rows[i].cellValues, carNameIdx, Carried(rows, carNameIdx, i), isDataRow);
    RowData(FillCell(cells, commonNameIdx, Carried(rows, commonNameIdx, i), isDataRow))
  }

  /** Column idx is one of the two group columns. */
  predicate IsGroupColumn(headers: seq<string>, idx: int) {
    idx >= 0 && (idx == IndexOf(headers, CarNameEn) || idx == IndexOf(headers, CommonNameEn))
  }

  /** The first n rows after filling. */
  function FilledRows(rows: seq<RowData>, carNameIdx: int, commonNameIdx: int, lastDataRow: int, n: nat)
    : (out: seq<RowData>)
    requires n <= |rows|
    ensures |out| == n
  {
    if n == 0 then []
    else FilledRows(rows, carNameIdx, commonNameIdx, lastDataRow, n - 1)
         + [FilledRow(rows, carNameIdx, commonNameIdx, lastDataRow, n - 1)]
  }

  /** Row k of the filled prefix is row k filled. */
  lemma {:induction false} FilledRowsAt(rows: seq<RowData>, carNameIdx: int, commonNameIdx: int, lastDataRow: int,
                                        n: nat, k: nat)
    requires k < n <= |rows|
    ensures FilledRows(rows, carNameIdx, commonNameIdx, lastDataRow, n)[k] ==
            FilledRow(rows, carNameIdx, commonNameIdx, lastDataRow, k)
  {
    var prev := FilledRows(rows, carNameIdx, commonNameIdx, lastDataRow, n - 1);
    assert FilledRows(rows, carNameIdx, commonNameIdx, lastDataRow, n) ==
           prev + [FilledRow(rows, carNameIdx, commonNameIdx, lastDataRow, n - 1)];
    if k < n - 1 {
      FilledRowsAt(rows, carNameIdx, commonNameIdx, lastDataRow, n - 1, k);
      assert FilledRows(rows, carNameIdx, commonNameIdx, lastDataRow, n)[k] == prev[k];
    }
  }

  /** fillDownGroupColumns as a value. */
  function FilledDown(headers: seq<string>, rows: seq<RowData>): (out: seq<RowData>)
    ensures |out| == |rows|
  {
    var carNameIdx := IndexOf(headers, CarNameEn);
    var commonNameIdx := IndexOf(headers, CommonNameEn);
    if carNameIdx < 0 && commonNameIdx < 0 then rows
    else FilledRows(rows, carNameIdx, commonNameIdx, LastDataRow(rows), |rows|)
  }

  /** The two group columns are never the same column. */
  lemma GroupColumnsDiffer(headers: seq<string>)
    ensures IndexOf(headers, CarNameEn) >= 0 ==> IndexOf(headers, CarNameEn) != IndexOf(headers, CommonNameEn)
  {
    assert CarNameEn[1] != CommonNameEn[1];
  }

  /** One cell after a fill step: only a blank cell at idx of a data row changes, to the carried value. */
  lemma FillCellAt(cells: seq<string>, idx: int, carried: string, isDataRow: bool, c: nat)
    requires c < |cells|
    ensures FillCell(cells, idx, carried, isDataRow)[c] ==
            if c == idx && !NonBlank(cells[c]) && isDataRow && carried != "" then carried else cells[c]
  {
  }

  /** One cell of a filled row: a blank group-column cell of a data row takes the carried value, if any. */
  lemma FilledRowAt(rows: seq<RowData>, carNameIdx: int, commonNameIdx: int, lastDataRow: int, i: nat, c: nat)
    requires i < |rows| && c < |rows[i].cellValues| && carNameIdx != commonNameIdx
    ensures |FilledRow(rows, carNameIdx, commonNameIdx, lastDataRow, i).cellValues| == |rows[i].cellValues|
    ensures FilledRow(rows, carNameIdx, commonNameIdx, lastDataRow, i).cellValues[c] ==
            if (c == carNameIdx || c == commonNameIdx) && !NonBlank(rows[i].cellValues[c]) && i <= lastDataRow
               && Carried(rows, c, i) != ""
            then Carried(rows, c, i) else rows[i].cellValues[c]
  {
    var isDataRow := i <= lastDataRow;
    var cells := FillCell(rows[i].cellValues, carNameIdx, Carried(rows, carNameIdx, i), isDataRow);
    FillCellAt(rows[i].cellValues, carNameIdx, Carried(rows, carNameIdx, i), isDataRow, c);
    FillCellAt(cells, commonNameIdx, Carried(rows, commonNameIdx, i), isDataRow, c);
  }

  /** Row i of the result: unchanged without group columns, otherwise row i filled. */
  lemma FilledDownAt(headers: seq<string>, rows: seq<RowData>, i: nat)
    requires i < |rows|
    ensures var carNameIdx := IndexOf(headers, CarNameEn);
            var commonNameIdx := IndexOf(headers, CommonNameEn);
            FilledDown(headers, rows)[i] ==
              if carNameIdx < 0 && commonNameIdx < 0 then rows[i]
              else FilledRow(rows, carNameIdx, commonNameIdx, LastDataRow(rows), i)
  {
    var carNameIdx := IndexOf(headers, CarNameEn);
    var commonNameIdx := IndexOf(headers, CommonNameEn);
    if !(carNameIdx < 0 && commonNameIdx < 0) {
      FilledRowsAt(rows, carNameIdx, commonNameIdx, LastDataRow(rows), |rows|, i);
    }
  }

  /** One cell of the result, in terms of the row above it (see Carried). */
  lemma FilledDownCell(headers: seq<string>, rows: seq<RowData>, i: nat, c: nat)
    requires i < |rows| && c < |rows[i].cellValues|
    ensures |FilledDown(headers, rows)[i].cellValues| == |rows[i].cellValues|
    ensures FilledDown(headers, rows)[i].cellValues[c] ==
            if IsGroupColumn(headers, c) && !NonBlank(rows[i].cellValues[c]) && i <= LastDataRow(rows)
               && Carried(rows, c, i) != ""
            then Carried(rows, c, i) else rows[i].cellValues[c]
  {
    FilledDownAt(headers, rows, i);
    GroupColumnsDiffer(headers);
    var carNameIdx := IndexOf(headers, CarNameEn);
    var commonNameIdx := IndexOf(headers, CommonNameEn);
    if !(carNameIdx < 0 && commonNameIdx < 0) {
      FilledRowAt(rows, carNameIdx, commonNameIdx, LastDataRow(rows), i, c);
    }
  }

  /**
   * One column of one row of the pass: a non-blank cell becomes the new
   * carried value (trimmed); a blank cell of a data row takes the carried value.
   */
  method FillStep(cells: seq<string>, idx: int, last: string, isDataRow: bool)
    returns (newCells: seq<string>, newLast: string)
    ensures newCells == FillCell(cells, idx, last, isDataRow)
    ensures newLast == if 0 <= idx < |cells| && NonBlank(cells[idx]) then Trim(cells[idx]) else last
  {
    newCells, newLast := cells, last;
    if idx >= 0 && idx < |cells| {
      var val := Trim(cells[idx]);
      if val != "" {
        newLast := val;
      } else if isDataRow && last != "" {
        newCells := cells[idx := last];
      }
    }
  }

  /** The carried value advances past row i exactly when row i has a value at idx. */
  lemma CarriedStep(rows: seq<RowData>, idx: int, i: nat)
    requires i < |rows|
    ensures Carried(rows, idx, i + 1) ==
              if HasValue(rows[i], idx) then Trim(rows[i].cellValues[idx]) else Carried(rows, idx, i)
  {
  }

  /** One row of the pass: the car name column first, then the common name column. */
  method FillRow(rows: seq<RowData>, carNameIdx: int, commonNameIdx: int, lastDataRow: int, i: nat,
                 lastCarName: string, lastCommonName: string)
    returns (row: RowData, newCarName: string, newCommonName: string)
    requires i < |rows| && carNameIdx != commonNameIdx
    requires lastCarName == Carried(rows, carNameIdx, i)
    requires lastCommonName == Carried(rows, commonNameIdx, i)
    ensures row == FilledRow(rows, carNameIdx, commonNameIdx, lastDataRow, i)
    ensures newCarName == Carried(rows, carNameIdx, i + 1)
    ensures newCommonName == Carried(rows, commonNameIdx, i + 1)
  {
    var isDataRow := i <= lastDataRow;
    var cells := rows[i].cellValues;
    cells, newCarName := FillStep(cells, carNameIdx, lastCarName, isDataRow);
    assert 0 <= commonNameIdx < |cells| ==> cells[commonNameIdx] == rows[i].cellValues[commonNameIdx];
    cells, newCommonName := FillStep(cells, commonNameIdx, lastCommonName, isDataRow);
    row := RowData(cells);
    CarriedStep(rows, carNameIdx, i);
    CarriedStep(rows, commonNameIdx, i);
  }

  /** fillDownGroupColumns: one pass, carrying the last car name and the last common name. */
  method FillDownGroupColumns(headers: seq<string>, rows: seq<RowData>) returns (result: seq<RowData>)
    ensures result == FilledDown(headers, rows)
  {
    var carNameIdx := IndexOf(headers, CarNameEn);
    var commonNameIdx := IndexOf(headers, CommonNameEn);
    if carNameIdx < 0 && commonNameIdx < 0 {
      return rows;
    }
    GroupColumnsDiffer(headers);
    var lastDataRow := FindLastDataRowIndex(rows);
    var lastCarName := "";
    var lastCommonName := "";
    result := [];
    for i := 0 to |rows|
      invariant result == FilledRows(rows, carNameIdx, commonNameIdx, lastDataRow, i)
      invariant lastCarName == Carried(rows, carNameIdx, i)
      invariant lastCommonName == Carried(rows, commonNameIdx, i)
    {
      var row;
      row, lastCarName, lastCommonName :=
        FillRow(rows, carNameIdx, commonNameIdx, lastDataRow, i, lastCarName, lastCommonName);
      result := result + [row];
    }
  }

  // ---------------------------------------------------------------------
  // Properties of the fill-down

  /** Every row keeps its length, and cells outside the two group columns keep their values. */
  lemma ShapePreserved(headers: seq<string>, rows: seq<RowData>, i: nat, c: nat)
    requires i < |rows|
    ensures |FilledDown(headers, rows)[i].cellValues| == |rows[i].cellValues|
    ensures c < |rows[i].cellValues| && c != IndexOf(headers, CarNameEn) && c != IndexOf(headers, CommonNameEn) ==>
              FilledDown(headers, rows)[i].cellValues[c] == rows[i].cellValues[c]
  {
    FilledDownAt(headers, rows, i);
    if c < |rows[i].cellValues| {
      FilledDownCell(headers, rows, i, c);
    }
  }

  /** A cell that already holds a non-blank value is never changed. */
  lemma NonBlankCellsKept(headers: seq<string>, rows: seq<RowData>, i: nat, c: nat)
    requires i < |rows| && c < |rows[i].cellValues| && NonBlank(rows[i].cellValues[c])
    ensures |FilledDown(headers, rows)[i].cellValues| == |rows[i].cellValues|
    ensures FilledDown(headers, rows)[i].cellValues[c] == rows[i].cellValues[c]
  {
    FilledDownCell(headers, rows, i, c);
  }

  /** Rows after the last data row come out exactly as they went in. */
  lemma RowsAfterLastDataRowUntouched(headers: seq<string>, rows: seq<RowData>, i: nat)
    requires LastDataRow(rows) < i < |rows|
    ensures FilledDown(headers, rows)[i] == rows[i]
  {
    FilledDownAt(headers, rows, i);
  }

  /** Without a "Car Name" or "Common Name" column the rows are returned as they are. */
  lemma NoGroupColumnsNoChange(headers: seq<string>, rows: seq<RowData>)
    requires CarNameEn !in headers && CommonNameEn !in headers
    ensures FilledDown(headers, rows) == rows
  {
  }

  /**
   * A blank group-column cell of a data row receives the trimmed value of
   * the nearest row above that has one, and stays as it is when no row above has one.
   */
  lemma BlankCellTakesValueAbove(headers: seq<string>, rows: seq<RowData>, i: nat, idx: nat)
    requires i < |rows| && idx < |rows[i].cellValues| && !NonBlank(rows[i].cellValues[idx])
    requires IsGroupColumn(headers, idx) && i <= LastDataRow(rows)
    ensures |FilledDown(headers, rows)[i].cellValues| == |rows[i].cellValues|
    ensures var k := SourceRow(rows, idx, i);
            FilledDown(headers, rows)[i].cellValues[idx] ==
              if k < 0 then rows[i].cellValues[idx] else Trim(rows[k].cellValues[idx])
  {
    FilledDownCell(headers, rows, i, idx);
    var k := SourceRow(rows, idx, i);
    if k >= 0 {
      TrimEmptyIffBlank(rows[k].cellValues[idx]);
    }
  }

  /**
   * From the first row with a value on, every data row holds a non-blank
   * value in a group column: blank cells are filled with a non-blank value.
   */
  lemma DataRowsLabelled(headers: seq<string>, rows: seq<RowData>, i: nat, idx: nat)
    requires i < |rows| && idx < |rows[i].cellValues|
    requires IsGroupColumn(headers, idx) && i <= LastDataRow(rows)
    requires exists k :: 0 <= k <= i && HasValue(rows[k], idx)
    ensures |FilledDown(headers, rows)[i].cellValues| == |rows[i].cellValues|
    ensures NonBlank(FilledDown(headers, rows)[i].cellValues[idx])
  {
    FilledDownCell(headers, rows, i, idx);
    var v := rows[i].cellValues[idx];
    if !NonBlank(v) {
      var w :| 0 <= w <= i && HasValue(rows[w], idx);
      assert w < i;
      var k := SourceRow(rows, idx, i);
      assert k >= 0;
      BlankCellTakesValueAbove(headers, rows, i, idx);
      TrimIdempotent(rows[k].cellValues[idx]);
    }
  }

  /**
   * A sheet in the shape the processor sees: "Car Name" and "Common Name"
   * first, four data rows with the car name only in the first and the common
   * name in the first and third, then a footnote row. The car name reaches
   * every data row, each common name fills the blank row under it, and the
   * footnote row is left as it is.
   */
  lemma FillDownExample(headers: seq<string>, rows: seq<RowData>, car: string, m1: string, m2: string,
                        a: string, b: string, c: string, d: string, note: string)
    requires IndexOf(headers, CarNameEn) == 0 && IndexOf(headers, CommonNameEn) == 1
    requires NonBlank(a) && NonBlank(b) && NonBlank(c) && NonBlank(d) && NonBlank(note)
    requires NonBlank(car) && NonBlank(m1) && NonBlank(m2) && Trim(car) == car && Trim(m1) == m1 && Trim(m2) == m2
    requires rows == [RowData([car, m1, a, b, c, d]), RowData(["", "", a, b, c, d]),
                      RowData(["", m2, a, b, c, d]), RowData(["", "", a, b, c, d]),
                      RowData(["", "", note, "", "", ""])]
    ensures FilledDown(headers, rows) ==
              [RowData([car, m1, a, b, c, d]), RowData([car, m1, a, b, c, d]),
               RowData([car, m2, a, b, c, d]), RowData([car, m2, a, b, c, d]),
               RowData(["", "", note, "", "", ""])]
  {
    ExampleScan(rows, car, m1, m2, a, b, c, d, note);
    var out := FilledDown(headers, rows);
    FilledDownAt(headers, rows, 0);
    FilledDownAt(headers, rows, 1);
    FilledDownAt(headers, rows, 2);
    FilledDownAt(headers, rows, 3);
    RowsAfterLastDataRowUntouched(headers, rows, 4);
    ExampleRow(rows, 0, car, m1, "", "", a, b, c, d);
    ExampleRow(rows, 1, "", "", car, m1, a, b, c, d);
    ExampleRow(rows, 2, "", m2, car, m1, a, b, c, d);
    ExampleRow(rows, 3, "", "", car, m2, a, b, c, d);
  }

  /** The example's last data row is row 3, and the values each row carries down. */
  lemma ExampleScan(rows: seq<RowData>, car: string, m1: string, m2: string,
                    a: string, b: string, c: string, d: string, note: string)
    requires NonBlank(a) && NonBlank(b) && NonBlank(c) && NonBlank(d) && NonBlank(note)
    requires NonBlank(car) && NonBlank(m1) && NonBlank(m2) && Trim(car) == car && Trim(m1) == m1 && Trim(m2) == m2
    requires rows == [RowData([car, m1, a, b, c, d]), RowData(["", "", a, b, c, d]),
                      RowData(["", m2, a, b, c, d]), RowData(["", "", a, b, c, d]),
                      RowData(["", "", note, "", "", ""])]
    ensures LastDataRow(rows) == 3
    ensures Carried(rows, 0, 0) == "" && Carried(rows, 1, 0) == ""
    ensures Carried(rows, 0, 1) == car && Carried(rows, 1, 1) == m1
    ensures Carried(rows, 0, 2) == car && Carried(rows, 1, 2) == m1
    ensures Carried(rows, 0, 3) == car && Carried(rows, 1, 3) == m2
  {
    assert !NonBlank("");
    ExampleDataRow(a, b, c, d);
    ExampleFootnoteRow(note);
    assert LastDataRowBelow(rows, 4) == 3;
    assert LastDataRowBelow(rows, 5) == 3;
    assert HasValue(rows[0], 0) && HasValue(rows[0], 1) && !HasValue(rows[1], 0) && !HasValue(rows[1], 1);
    assert !HasValue(rows[2], 0) && HasValue(rows[2], 1);
    CarriedStep(rows, 0, 0);
    CarriedStep(rows, 1, 0);
    CarriedStep(rows, 0, 1);
    CarriedStep(rows, 1, 1);
    CarriedStep(rows, 0, 2);
    CarriedStep(rows, 1, 2);
  }

  /** A row of the example after filling: each blank group cell takes the carried value. */
  lemma ExampleRow(rows: seq<RowData>, i: nat, x: string, y: string, car: string, m: string,
                   a: string, b: string, c: string, d: string)
    requires i < |rows| && rows[i] == RowData([x, y, a, b, c, d])
    requires Carried(rows, 0, i) == car && Carried(rows, 1, i) == m
    ensures FilledRow(rows, 0, 1, 3, i) ==
              RowData([if !NonBlank(x) && i <= 3 && car != "" then car else x,
                       if !NonBlank(y) && i <= 3 && m != "" then m else y, a, b, c, d])
  {
  }

  /** Four non-blank cells behind two blank ones make a data row. */
  lemma ExampleDataRow(a: string, b: string, c: string, d: string)
    requires NonBlank(a) && NonBlank(b) && NonBlank(c) && NonBlank(d)
    ensures IsDataRow(RowData(["", "", a, b, c, d]))
  {
    assert !NonBlank("");
    NonEmptyCountSnoc([], "");
    NonEmptyCountSnoc([""], "");
    NonEmptyCountSnoc(["", ""], a);
    NonEmptyCountSnoc(["", "", a], b);
    NonEmptyCountSnoc(["", "", a, b], c);
    NonEmptyCountSnoc(["", "", a, b, c], d);
    assert [] + [""] == [""] && [""] + [""] == ["", ""] && ["", ""] + [a] == ["", "", a];
    assert ["", "", a] + [b] == ["", "", a, b] && ["", "", a, b] + [c] == ["", "", a, b, c];
    assert ["", "", a, b, c] + [d] == ["", "", a, b, c, d];
  }

  /** A row with one non-blank cell is a footnote row. */
  lemma ExampleFootnoteRow(note: string)
    ensures !IsDataRow(RowData(["", "", note, "", "", ""]))
  {
    assert !NonBlank("");
    FewNonBlankCells("", note);
  }

  /** Five blank cells and one other make fewer than DataRowMinCells non-blank cells. */
  lemma FewNonBlankCells(e: string, note: string)
    requires !NonBlank(e)
    ensures NonEmptyCount([e, e, note, e, e, e]) <= 1
  {
    var cells := [e, e, note, e, e, e];
    NonEmptyCountSnoc(cells[..5], e);
    NonEmptyCountSnoc(cells[..4], e);
    NonEmptyCountSnoc(cells[..3], e);
    NonEmptyCountSnoc(cells[..2], note);
    assert cells[..5] + [e] == cells;
    assert cells[..4] + [e] == cells[..5];
    assert cells[..3] + [e] == cells[..4];
    assert cells[..2] + [note] == cells[..3];
  }
}
