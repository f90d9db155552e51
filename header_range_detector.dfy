/**
 * Locating the header block of a sheet. The sheet is a sparse grid: a row
 * index may have no row, and a row may have no cell at a given column (a
 * blank cell counts as no cell). The block is anchored by the first row that
 * holds the 車名 marker in any cell; it extends upwards over dense rows and
 * downwards to the row before the first row whose column A names a known
 * brand.
 */
module HeaderRangeDetector {
  import opened Wrappers
  import opened Text
  import opened Constants
  import opened HeaderRanges

  /** One sheet row: cell j is None when the row has no (non-blank) cell at column j. */
  type Row = seq<Option<string>>

  /** A sheet: row i is None when the sheet has no row with that index. */
  type Grid = seq<Option<Row>>

  /** Fewer non-empty cells than this make a row pre-header metadata. */
  const MinHeaderCells: nat := 3

  /** A cell that exists and whose stripped text is non-empty. */
  predicate Filled(cell: Option<string>) {
    cell.Some? && Trim(cell.value) != ""
  }

  /** A cell whose stripped text is the 車名 marker. */
  predicate IsMarkerCell(cell: Option<string>) {
    cell.Some? && Trim(cell.value) == CarNameJp
  }

  /** The number of filled cells in row. */
  function NonEmptyCells(row: Row): (n: nat)
    ensures n <= |row|
  {
    if row == [] then 0
    else NonEmptyCells(row[..|row| - 1]) + (if Filled(row[|row| - 1]) then 1 else 0)
  }

  /** A row counts no cell exactly when none is filled, and every cell exactly when all are. */
  lemma {:induction false} NonEmptyCellsExtremes(row: Row)
    ensures NonEmptyCells(row) == 0 <==> forall j :: 0 <= j < |row| ==> !Filled(row[j])
    ensures NonEmptyCells(row) == |row| <==> forall j :: 0 <= j < |row| ==> Filled(row[j])
  {
    if row != [] {
      var init := row[..|row| - 1];
      NonEmptyCellsExtremes(init);
      assert forall j :: 0 <= j < |init| ==> init[j] == row[j];
    }
  }

  /** countNonEmptyCells: one pass over the row's cells. */
  method CountNonEmptyCells(row: Row) returns (count: nat)
    ensures count == NonEmptyCells(row)
  {
    count := 0;
    for j := 0 to |row|
      invariant count == NonEmptyCells(row[..j])
    {
      assert row[..j + 1][..j] == row[..j];
      if Filled(row[j]) {
        count := count + 1;
      }
    }
    assert row[..|row|] == row;
  }

  /** Row i exists and holds the marker in some cell. */
  predicate HasMarker(grid: Grid, i: nat)
    requires i < |grid|
  {
    grid[i].Some? && exists j :: 0 <= j < |grid[i].value| && IsMarkerCell(grid[i].value[j])
  }

  /** The first row at or after lo that holds the marker, or -1 if there is none. */
  function MarkerRowFrom(grid: Grid, lo: nat): (m: int)
    requires lo <= |grid|
    ensures m == -1 || lo <= m < |grid|
    ensures m >= 0 ==> HasMarker(grid, m)
    ensures m >= 0 ==> forall i :: lo <= i < m ==> !HasMarker(grid, i)
    ensures m == -1 ==> forall i :: lo <= i < |grid| ==> !HasMarker(grid, i)
    decreases |grid| - lo
  {
    if lo == |grid| then -1
    else if HasMarker(grid, lo) then lo
    else MarkerRowFrom(grid, lo + 1)
  }

  /** The row of the first marker in the sheet, or -1. */
  function MarkerRow(grid: Grid): int {
    MarkerRowFrom(grid, 0)
  }

  /** findCarNameRowIndex: rows in order, cells of each row in order, stop at the first marker. */
  method FindCarNameRowIndex(grid: Grid) returns (index: int)
    ensures index == MarkerRow(grid)
  {
    for i := 0 to |grid|
      invariant forall k :: 0 <= k < i ==> !HasMarker(grid, k)
    {
      if grid[i].Some? {
        var row := grid[i].value;
        for j := 0 to |row|
          invariant forall q :: 0 <= q < j ==> !IsMarkerCell(row[q])
        {
          if IsMarkerCell(row[j]) {
            assert HasMarker(grid, i);
            return i;
          }
        }
      }
    }
    return -1;
  }

  /** Row i is missing or has fewer than MinHeaderCells filled cells. */
  predicate IsSparse(grid: Grid, i: nat)
    requires i < |grid|
  {
    grid[i].None? || NonEmptyCells(grid[i].value) < MinHeaderCells
  }

  /**
   * The first row of the header block ending at marker: the row after the
   * nearest sparse row above marker, or 0 when every row above is dense.
   */
  function HeaderStart(grid: Grid, marker: nat): (start: nat)
    requires marker < |grid|
    ensures start <= marker
    ensures forall i :: start <= i < marker ==> !IsSparse(grid, i)
    ensures start > 0 ==> IsSparse(grid, start - 1)
  {
    if marker == 0 then 0
    else if IsSparse(grid, marker - 1) then marker
    else HeaderStart(grid, marker - 1)
  }

  /** findHeaderRangeStart: walk upwards from the row above the marker. */
  method FindHeaderRangeStart(grid: Grid, marker: nat) returns (start: nat)
    requires marker < |grid|
    ensures start == HeaderStart(grid, marker)
  {
    var i := marker - 1;
    while i >= 0
      invariant -1 <= i < marker
      invariant HeaderStart(grid, marker) == HeaderStart(grid, i + 1)
      decreases i + 1
    {
      var sparse := grid[i].None?;
      if !sparse {
        var count := CountNonEmptyCells(grid[i].value);
        sparse := count < MinHeaderCells;
      }
      if sparse {
        return i + 1;
      }
      i := i - 1;
    }
    return 0;
  }

  /** Row i exists, has a cell in column A, and that cell's stripped text is a known brand. */
  predicate IsBrandRow(grid: Grid, i: nat, brands: set<string>)
    requires i < |grid|
  {
    grid[i].Some? && |grid[i].value| > 0 && grid[i].value[0].Some? && Trim(grid[i].value[0].value) in brands
  }

  /** The first brand row at or after lo, or -1 if there is none. */
  function BrandRowFrom(grid: Grid, brands: set<string>, lo: nat): (b: int)
    requires lo <= |grid|
    ensures b == -1 || lo <= b < |grid|
    ensures b >= 0 ==> IsBrandRow(grid, b, brands)
    ensures b >= 0 ==> forall i :: lo <= i < b ==> !IsBrandRow(grid, i, brands)
    ensures b == -1 ==> forall i :: lo <= i < |grid| ==> !IsBrandRow(grid, i, brands)
    decreases |grid| - lo
  {
    if lo == |grid| then -1
    else if IsBrandRow(grid, lo, brands) then lo
    else BrandRowFrom(grid, brands, lo + 1)
  }

  /**
   * The last row of the header block anchored at marker. Without brands it is
   * the marker row; otherwise it is the row before the first brand row below
   * the marker, falling back to the marker row when there is none.
   */
  function HeaderEnd(grid: Grid, marker: nat, brands: set<string>): (end: nat)
    requires marker < |grid|
    ensures marker <= end < |grid|
    ensures brands == {} ==> end == marker
    ensures forall i :: marker < i <= end ==> !IsBrandRow(grid, i, brands)
    ensures brands != {} ==>
              (end + 1 < |grid| && IsBrandRow(grid, end + 1, brands)) ||
              (end == marker && forall i :: marker < i < |grid| ==> !IsBrandRow(grid, i, brands))
  {
    if brands == {} then marker
    else
      var b := BrandRowFrom(grid, brands, marker + 1);
      if b >= 0 then b - 1 else marker
  }

  /** findHeaderRangeEnd: scan downwards from the row below the marker. */
  method FindHeaderRangeEnd(grid: Grid, marker: nat, brands: set<string>) returns (end: nat)
    requires marker < |grid|
    ensures end == HeaderEnd(grid, marker, brands)
  {
    if brands == {} {
      return marker;
    }
    var lastRow := |grid| - 1;
    var i := marker + 1;
    while i <= lastRow
      invariant marker + 1 <= i <= |grid|
      invariant BrandRowFrom(grid, brands, marker + 1) == BrandRowFrom(grid, brands, i)
    {
      if grid[i].None? {
        i := i + 1;
        continue;
      }
      var row := grid[i].value;
      if |row| == 0 || row[0].None? {
        i := i + 1;
        continue;
      }
      var colAValue := Trim(row[0].value);
      if colAValue in brands {
        assert IsBrandRow(grid, i, brands);
        return i - 1;
      }
      i := i + 1;
    }
    return marker;
  }

  /** The header range of the sheet, or None when no row holds the marker. */
  function DetectedRange(grid: Grid, brands: set<string>): (range: Option<HeaderRange>)
    ensures range.None? <==> forall i :: 0 <= i < |grid| ==> !HasMarker(grid, i)
    ensures range.Some? ==> 0 <= MarkerRow(grid) < |grid| && HasMarker(grid, MarkerRow(grid))
    ensures range.Some? ==> 0 <= range.value.startRowIndex <= MarkerRow(grid) <= range.value.endRowIndex < |grid|
  {
    var m := MarkerRow(grid);
    if m == -1 then None else Some(HeaderRange(HeaderStart(grid, m), HeaderEnd(grid, m, brands)))
  }

  /** detect: find the marker, then the two ends of the block around it. */
  method Detect(grid: Grid, brands: set<string>) returns (range: Option<HeaderRange>)
    ensures range == DetectedRange(grid, brands)
  {
    var carNameRowIndex := FindCarNameRowIndex(grid);
    if carNameRowIndex == -1 {
      return None;
    }
    var startRowIndex := FindHeaderRangeStart(grid, carNameRowIndex);
    var endRowIndex := FindHeaderRangeEnd(grid, carNameRowIndex, brands);
    return Some(HeaderRange(startRowIndex, endRowIndex));
  }

  /** The marker row is a header row of every detected range, and rows above the block are pre-header rows. */
  lemma MarkerIsHeaderRow(grid: Grid, brands: set<string>, i: int)
    requires DetectedRange(grid, brands).Some?
    ensures DetectedRange(grid, brands).value.IsHeaderRow(MarkerRow(grid))
    ensures 0 <= i < MarkerRow(grid) && !DetectedRange(grid, brands).value.IsHeaderRow(i) ==>
              DetectedRange(grid, brands).value.IsPreHeaderRow(i)
  {
  }

  /** Only the first marker matters: a second marker further down does not move the block. */
  lemma LaterMarkersIgnored(grid: Grid, row: Row, brands: set<string>)
    requires DetectedRange(grid, brands).Some?
    ensures MarkerRow(grid + [Some(row)]) == MarkerRow(grid)
  {
    var m := MarkerRow(grid);
    var g := grid + [Some(row)];
    assert HasMarker(g, m) by {
      assert g[m] == grid[m];
    }
    forall i | 0 <= i < m ensures !HasMarker(g, i) {
      assert g[i] == grid[i];
      assert !HasMarker(grid, i);
    }
  }

  /** Every detected block is non-empty and ends above the sheet end. */
  lemma DetectedRangeWellFormed(grid: Grid, brands: set<string>)
    requires DetectedRange(grid, brands).Some?
    ensures DetectedRange(grid, brands).value.startRowIndex <= DetectedRange(grid, brands).value.endRowIndex
    ensures DetectedRange(grid, brands).value.DataStartRowIndex() <= |grid|
  {
  }
}
