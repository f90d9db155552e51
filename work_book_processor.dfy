/**
 * The workbook processor. For every worksheet it finds the protected 車名
 * column, keeps the columns whose fill share of the data rows reaches the
 * threshold (and the protected one), resolves one label per kept column from
 * the raw header rows, drops the columns that resolve to no label, settles
 * duplicate labels, reduces the rows to the final columns and fills the group
 * columns down. A new workbook comes out; the input is never changed.
 */
module WorkBookProcessor {
  import opened Text
  import opened Ratios
  import opened Model
  import opened Constants
  import opened FillRates
  import opened HeaderResolver
  import opened DuplicateResolution
  import opened FillDown
  import opened Seqs

  // ---------------------------------------------------------------------
  // Step 1: the protected Car Name column

  /** A raw header cell whose trimmed text is the 車名 marker. */
  predicate IsCarNameCell(cell: string) {
    Trim(cell) == CarNameJp
  }

  /** The first column at or after lo of a header row holding the marker, or -1. */
  function MarkerColumnFrom(row: seq<string>, lo: nat): (c: int)
    requires lo <= |row|
    ensures c == -1 || lo <= c < |row|
    ensures c >= 0 ==> IsCarNameCell(row[c]) && forall j :: lo <= j < c ==> !IsCarNameCell(row[j])
    ensures c == -1 ==> forall j :: lo <= j < |row| ==> !IsCarNameCell(row[j])
    decreases |row| - lo
  {
    if lo == |row| then -1
    else if IsCarNameCell(row[lo]) then lo
    else MarkerColumnFrom(row, lo + 1)
  }

  /** The header row holds the marker in some cell. */
  predicate RowHasMarker(row: seq<string>) {
    exists j :: 0 <= j < |row| && IsCarNameCell(row[j])
  }

  /** A row's first marker column exists exactly when the row holds the marker. */
  lemma MarkerColumnExists(row: seq<string>)
    ensures MarkerColumnFrom(row, 0) >= 0 <==> RowHasMarker(row)
  {
    var c := MarkerColumnFrom(row, 0);
    if c >= 0 {
      assert IsCarNameCell(row[c]);
    }
  }

  /**
   * The Car Name column found in the header rows from r on: the first marker
   * column of the first header row that has one, or -1 when no row has one.
   */
  function CarNameColumnFrom(rows: seq<seq<string>>, r: nat): (c: int)
    requires r <= |rows|
    ensures c >= -1
    decreases |rows| - r
  {
    if r == |rows| then -1
    else
      var c := MarkerColumnFrom(rows[r], 0);
      if c >= 0 then c else CarNameColumnFrom(rows, r + 1)
  }

  /** findCarNameColumnIndex as a value. */
  function CarNameColumn(rawHeaderRows: seq<seq<string>>): (c: int)
    ensures c >= -1
  {
    CarNameColumnFrom(rawHeaderRows, 0)
  }

  /**
   * No column is found exactly when no header row holds the marker, and a
   * found column holds the marker in some header row.
   */
  lemma {:induction false} CarNameColumnFound(rows: seq<seq<string>>, r: nat)
    requires r <= |rows|
    ensures CarNameColumnFrom(rows, r) == -1 <==> forall k :: r <= k < |rows| ==> !RowHasMarker(rows[k])
    ensures var c := CarNameColumnFrom(rows, r);
            c >= 0 ==> exists k :: r <= k < |rows| && c < |rows[k]| && IsCarNameCell(rows[k][c])
    decreases |rows| - r
  {
    if r < |rows| {
      MarkerColumnExists(rows[r]);
      CarNameColumnFound(rows, r + 1);
    }
  }

  /**
   * The header rows are searched top to bottom and each row left to right:
   * the first marker of the topmost row holding one decides the column, even
   * when a lower row holds the marker further left.
   */
  lemma {:induction false} CarNameColumnIsFirst(rows: seq<seq<string>>, r: nat, k: nat)
    requires r <= k < |rows| && RowHasMarker(rows[k])
    requires forall m :: r <= m < k ==> !RowHasMarker(rows[m])
    ensures CarNameColumnFrom(rows, r) == MarkerColumnFrom(rows[k], 0)
    decreases k - r
  {
    MarkerColumnExists(rows[r]);
    if r < k {
      CarNameColumnIsFirst(rows, r + 1, k);
    }
  }

  /** findCarNameColumnIndex: rows in order, cells of each row in order, stop at the first marker. */
  method FindCarNameColumnIndex(rawHeaderRows: seq<seq<string>>) returns (colIndex: int)
    ensures colIndex == CarNameColumn(rawHeaderRows)
  {
    for r := 0 to |rawHeaderRows|
      invariant CarNameColumnFrom(rawHeaderRows, 0) == CarNameColumnFrom(rawHeaderRows, r)
    {
      var headerRow := rawHeaderRows[r];
      for j := 0 to |headerRow|
        invariant forall q :: 0 <= q < j ==> !IsCarNameCell(headerRow[q])
      {
        if Trim(headerRow[j]) == CarNameJp {
          assert MarkerColumnFrom(headerRow, 0) == j;
          return j;
        }
      }
      assert MarkerColumnFrom(headerRow, 0) == -1;
    }
    return -1;
  }

  // ---------------------------------------------------------------------
  // Step 2: the columns with enough data

  /** Column c is kept: it is the protected column, or its filled share of all rows reaches the threshold. */
  predicate Keeps(rows: seq<RowData>, c: nat, threshold: real, protectedCol: int)
    requires rows != []
  {
    c == protectedCol || Share(ColumnCount(rows, c), |rows|) >= threshold
  }

  /** The kept columns below n, in increasing order. */
  function KeptBelow(rows: seq<RowData>, threshold: real, protectedCol: int, n: nat): (kept: seq<nat>)
    requires rows != []
    ensures |kept| <= n
  {
    if n == 0 then []
    else KeptBelow(rows, threshold, protectedCol, n - 1) + (if Keeps(rows, n - 1, threshold, protectedCol) then [n - 1] else [])
  }

  /** The kept columns below n are below n and strictly increasing. */
  lemma {:induction false} KeptBelowIncreasing(rows: seq<RowData>, threshold: real, protectedCol: int, n: nat)
    requires rows != []
    ensures forall j :: 0 <= j < |KeptBelow(rows, threshold, protectedCol, n)| ==>
              KeptBelow(rows, threshold, protectedCol, n)[j] < n
    ensures forall j, k :: 0 <= j < k < |KeptBelow(rows, threshold, protectedCol, n)| ==>
              KeptBelow(rows, threshold, protectedCol, n)[j] < KeptBelow(rows, threshold, protectedCol, n)[k]
  {
    if n > 0 {
      KeptBelowIncreasing(rows, threshold, protectedCol, n - 1);
      var rest := KeptBelow(rows, threshold, protectedCol, n - 1);
      var kept := KeptBelow(rows, threshold, protectedCol, n);
      if Keeps(rows, n - 1, threshold, protectedCol) {
        assert kept == rest + [n - 1];
        assert forall j :: 0 <= j < |rest| ==> kept[j] == rest[j] < n - 1;
        assert kept[|rest|] == n - 1;
      } else {
        assert kept == rest;
      }
    }
  }

  /** A column below n is among the kept columns below n exactly when it is kept. */
  lemma {:induction false} KeptBelowMembers(rows: seq<RowData>, threshold: real, protectedCol: int, n: nat)
    requires rows != []
    ensures forall c: nat :: c in KeptBelow(rows, threshold, protectedCol, n) <==>
              c < n && Keeps(rows, c, threshold, protectedCol)
  {
    if n > 0 {
      KeptBelowMembers(rows, threshold, protectedCol, n - 1);
    }
  }

  /** The number of columns the processor examines: originalColumnCount, none when it is not positive. */
  function Width(originalColumnCount: int): nat {
    if originalColumnCount <= 0 then 0 else originalColumnCount
  }

  /**
   * determineColumnsToKeep as a value: nothing for a sheet without rows;
   * otherwise the kept columns among the first originalColumnCount, in order.
   */
  function ColumnsToKeep(rows: seq<RowData>, originalColumnCount: int, threshold: real, protectedCol: int)
    : (kept: seq<nat>)
    ensures rows == [] ==> kept == []
  {
    if rows == [] then [] else KeptBelow(rows, threshold, protectedCol, Width(originalColumnCount))
  }

  /**
   * The kept columns are below originalColumnCount and strictly increasing;
   * with rows, a column is kept exactly when it is the protected column or
   * reaches the threshold.
   */
  lemma ColumnsToKeepShape(rows: seq<RowData>, originalColumnCount: int, threshold: real, protectedCol: int)
    ensures var kept := ColumnsToKeep(rows, originalColumnCount, threshold, protectedCol);
            (forall j :: 0 <= j < |kept| ==> kept[j] < originalColumnCount) &&
            (forall j, k :: 0 <= j < k < |kept| ==> kept[j] < kept[k]) &&
            (rows != [] ==> forall c: nat ::
               c in kept <==> c < originalColumnCount && Keeps(rows, c, threshold, protectedCol))
  {
    if rows != [] {
      KeptBelowIncreasing(rows, threshold, protectedCol, Width(originalColumnCount));
      KeptBelowMembers(rows, threshold, protectedCol, Width(originalColumnCount));
    }
  }

  /** determineColumnsToKeep: test every column index below originalColumnCount in turn. */
  method DetermineColumnsToKeep(sheet: WorkSheetData, threshold: real, protectedColIndex: int)
    returns (columnsToKeep: seq<nat>)
    ensures columnsToKeep == ColumnsToKeep(sheet.rows, sheet.originalColumnCount, threshold, protectedColIndex)
  {
    var totalRows := |sheet.rows|;
    if totalRows == 0 {
      return [];
    }
    columnsToKeep := [];
    var colIndex := 0;
    while colIndex < sheet.originalColumnCount
      invariant 0 <= colIndex <= Width(sheet.originalColumnCount)
      invariant columnsToKeep == KeptBelow(sheet.rows, threshold, protectedColIndex, colIndex)
      decreases sheet.originalColumnCount - colIndex
    {
      var count := FillRates.CountNonEmptyCells(sheet.rows, colIndex);
      var fillPercentage := Share(count, totalRows);
      if colIndex == protectedColIndex {
        columnsToKeep := columnsToKeep + [colIndex];
      } else if fillPercentage >= threshold {
        columnsToKeep := columnsToKeep + [colIndex];
      }
      colIndex := colIndex + 1;
    }
  }

  /** The protected column is kept whatever its fill, when the sheet has rows and the column is in range. */
  lemma ProtectedColumnKept(rows: seq<RowData>, originalColumnCount: int, threshold: real, protectedCol: nat)
    requires rows != [] && protectedCol < originalColumnCount
    ensures protectedCol in ColumnsToKeep(rows, originalColumnCount, threshold, protectedCol)
  {
    ColumnsToKeepShape(rows, originalColumnCount, threshold, protectedCol);
  }

  /** A threshold of at most 0 keeps every column index below originalColumnCount, in order. */
  lemma NonPositiveThresholdKeepsAll(rows: seq<RowData>, originalColumnCount: int, threshold: real, protectedCol: int)
    requires rows != [] && threshold <= 0.0
    ensures |ColumnsToKeep(rows, originalColumnCount, threshold, protectedCol)| == Width(originalColumnCount)
    ensures forall j :: 0 <= j < Width(originalColumnCount) ==>
              ColumnsToKeep(rows, originalColumnCount, threshold, protectedCol)[j] == j
  {
    KeptBelowAll(rows, threshold, protectedCol, Width(originalColumnCount));
  }

  lemma {:induction false} KeptBelowAll(rows: seq<RowData>, threshold: real, protectedCol: int, n: nat)
    requires rows != [] && threshold <= 0.0
    ensures |KeptBelow(rows, threshold, protectedCol, n)| == n
    ensures forall j :: 0 <= j < n ==> KeptBelow(rows, threshold, protectedCol, n)[j] == j
  {
    if n > 0 {
      KeptBelowAll(rows, threshold, protectedCol, n - 1);
      var rest := KeptBelow(rows, threshold, protectedCol, n - 1);
      assert Keeps(rows, n - 1, threshold, protectedCol) by {
        assert Share(ColumnCount(rows, n - 1), |rows|) >= 0.0;
      }
      assert KeptBelow(rows, threshold, protectedCol, n) == rest + [n - 1];
    }
  }

  /** A threshold above 1 keeps the protected column alone (nothing when it is out of range). */
  lemma ThresholdAboveOneKeepsProtected(rows: seq<RowData>, originalColumnCount: int, threshold: real, protectedCol: int)
    requires rows != [] && threshold > 1.0
    ensures ColumnsToKeep(rows, originalColumnCount, threshold, protectedCol) ==
              if 0 <= protectedCol < originalColumnCount then [protectedCol] else []
  {
    KeptBelowOnlyProtected(rows, threshold, protectedCol, Width(originalColumnCount));
  }

  lemma {:induction false} KeptBelowOnlyProtected(rows: seq<RowData>, threshold: real, protectedCol: int, n: nat)
    requires rows != [] && threshold > 1.0
    ensures KeptBelow(rows, threshold, protectedCol, n) == if 0 <= protectedCol < n then [protectedCol] else []
  {
    if n > 0 {
      KeptBelowOnlyProtected(rows, threshold, protectedCol, n - 1);
      var rest := KeptBelow(rows, threshold, protectedCol, n - 1);
      var keeps := Keeps(rows, n - 1, threshold, protectedCol);
      assert KeptBelow(rows, threshold, protectedCol, n) == rest + (if keeps then [n - 1] else []);
      assert keeps <==> n - 1 == protectedCol by {
        assert Share(ColumnCount(rows, n - 1), |rows|) <= 1.0;
      }
    }
  }

  // ---------------------------------------------------------------------
  // Step 4: the columns with a resolved label

  /** The positions whose resolved label is empty. */
  function Unnamed(labels: seq<string>): set<nat> {
    set i: nat | i < |labels| && labels[i] == ""
  }

  /**
   * Step 4 of applyColumnThreshold: keep the positions whose resolved label is
   * non-empty, the column indices and the labels side by side.
   */
  method KeepNamedColumns(columnsToKeep: seq<nat>, resolvedHeaders: seq<string>)
    returns (namedColumns: seq<nat>, namedHeaders: seq<string>)
    requires |resolvedHeaders| == |columnsToKeep|
    ensures namedColumns == SurvivingColumns(columnsToKeep, Unnamed(resolvedHeaders), |columnsToKeep|)
    ensures namedHeaders == SurvivingColumns(resolvedHeaders, Unnamed(resolvedHeaders), |columnsToKeep|)
  {
    ghost var unnamed := Unnamed(resolvedHeaders);
    namedColumns, namedHeaders := [], [];
    for i := 0 to |columnsToKeep|
      invariant namedColumns == SurvivingColumns(columnsToKeep, unnamed, i)
      invariant namedHeaders == SurvivingColumns(resolvedHeaders, unnamed, i)
    {
      if resolvedHeaders[i] != "" {
        assert i !in unnamed;
        namedColumns := namedColumns + [columnsToKeep[i]];
        namedHeaders := namedHeaders + [resolvedHeaders[i]];
      } else {
        assert i in unnamed;
      }
    }
  }

  /**
   * The named columns are exactly the positions with a non-empty label, in
   * order: the j-th named column and label come from the j-th such position.
   */
  lemma NamedColumnsShape(cols: seq<nat>, labels: seq<string>)
    requires |labels| == |cols|
    ensures var s := Survivors(Unnamed(labels), |labels|);
            |SurvivingColumns(cols, Unnamed(labels), |labels|)| == |s| &&
            |SurvivingColumns(labels, Unnamed(labels), |labels|)| == |s| &&
            forall j :: 0 <= j < |s| ==>
              (s[j] < |labels| && labels[s[j]] != "" &&
               SurvivingColumns(cols, Unnamed(labels), |labels|)[j] == cols[s[j]] &&
               SurvivingColumns(labels, Unnamed(labels), |labels|)[j] == labels[s[j]])
    ensures forall p: nat :: p in Survivors(Unnamed(labels), |labels|) <==> p < |labels| && labels[p] != ""
  {
    var u := Unnamed(labels);
    var s := Survivors(u, |labels|);
    SurvivorsShape(u, |labels|);
    forall j | 0 <= j < |s|
      ensures s[j] < |labels| && labels[s[j]] != ""
      ensures SurvivingColumns(cols, u, |labels|)[j] == cols[s[j]]
      ensures SurvivingColumns(labels, u, |labels|)[j] == labels[s[j]]
    {
      SurvivingColumnsAt(cols, u, |labels|, j);
      SurvivingColumnsAt(labels, u, |labels|, j);
      assert s[j] !in u;
    }
  }

  // ---------------------------------------------------------------------
  // Step 6: reducing the rows to the final columns

  /** filterByIndices as a value: the cell at every listed index, "" past the end of the row. */
  function Picked(values: seq<string>, indices: seq<nat>): (out: seq<string>)
    ensures |out| == |indices|
    ensures forall j :: 0 <= j < |indices| ==> out[j] == RowData(values).GetCell(indices[j])
  {
    seq(|indices|, j requires 0 <= j < |indices| => if indices[j] < |values| then values[indices[j]] else "")
  }

  /** filterByIndices: one pass over the indices to keep. */
  method FilterByIndices(values: seq<string>, indicesToKeep: seq<nat>) returns (filtered: seq<string>)
    ensures filtered == Picked(values, indicesToKeep)
  {
    filtered := [];
    for k := 0 to |indicesToKeep|
      invariant |filtered| == k
      invariant forall j :: 0 <= j < k ==> filtered[j] == Picked(values, indicesToKeep)[j]
    {
      var index := indicesToKeep[k];
      filtered := filtered + [if index < |values| then values[index] else ""];
    }
  }

  /** filterRows as a value: every row reduced to the listed columns. */
  function FilteredRows(rows: seq<RowData>, columnsToKeep: seq<nat>): (out: seq<RowData>)
    ensures |out| == |rows|
    ensures forall i :: 0 <= i < |rows| ==> out[i].cellValues == Picked(rows[i].cellValues, columnsToKeep)
  {
    seq(|rows|, i requires 0 <= i < |rows| => RowData(Picked(rows[i].cellValues, columnsToKeep)))
  }

  /** filterRows: one new row per row. */
  method FilterRows(rows: seq<RowData>, columnsToKeep: seq<nat>) returns (filtered: seq<RowData>)
    ensures filtered == FilteredRows(rows, columnsToKeep)
  {
    filtered := [];
    for i := 0 to |rows|
      invariant |filtered| == i
      invariant forall r :: 0 <= r < i ==> filtered[r] == FilteredRows(rows, columnsToKeep)[r]
    {
      var cells := FilterByIndices(rows[i].cellValues, columnsToKeep);
      filtered := filtered + [RowData(cells)];
    }
  }

  /** Column j of the filtered rows counts as many filled cells as column columnsToKeep[j] of the rows. */
  lemma {:induction false} FilteredColumnCount(rows: seq<RowData>, columnsToKeep: seq<nat>, j: nat)
    requires j < |columnsToKeep|
    ensures ColumnCount(FilteredRows(rows, columnsToKeep), j) == ColumnCount(rows, columnsToKeep[j])
  {
    if rows != [] {
      var init := rows[..|rows| - 1];
      var f := FilteredRows(rows, columnsToKeep);
      assert f[..|f| - 1] == FilteredRows(init, columnsToKeep);
      FilteredColumnCount(init, columnsToKeep, j);
      assert f[|f| - 1].GetCell(j) == rows[|rows| - 1].GetCell(columnsToKeep[j]);
    }
  }

  // ---------------------------------------------------------------------
  // One worksheet and the workbook

  /** The labels and columns after step 4, as a pair of values. */
  function Named(kept: seq<nat>, resolved: seq<string>): (named: (seq<string>, seq<nat>))
    requires |resolved| == |kept|
    ensures |named.0| == |named.1|
  {
    var unnamed := Unnamed(resolved);
    (SurvivingColumns(resolved, unnamed, |kept|), SurvivingColumns(kept, unnamed, |kept|))
  }

  /** The final labels and column indices of a worksheet (steps 1 to 5). */
  function FinalColumns(sheet: WorkSheetData, threshold: real, table: map<string, string>)
    : (final: (seq<string>, seq<nat>))
    ensures |final.0| == |final.1|
  {
    var carNameColIndex := CarNameColumn(sheet.rawHeaderRows);
    var kept := ColumnsToKeep(sheet.rows, sheet.originalColumnCount, threshold, carNameColIndex);
    var resolved := ResolvedLabels(sheet.rawHeaderRows, kept, table);
    var named := Named(kept, resolved);
    Deduplicated(named.0, named.1, sheet.rows)
  }

  /**
   * applyColumnThreshold as a value: the sheet's name, index and original
   * dimensions, the final labels, and the rows reduced to the final columns
   * and filled down; no raw header rows and a zero header range.
   */
  function ProcessedSheet(sheet: WorkSheetData, threshold: real, table: map<string, string>): (processed: WorkSheetData)
    ensures processed.name == sheet.name && processed.index == sheet.index
    ensures |processed.rows| == |sheet.rows|
  {
    var final := FinalColumns(sheet, threshold, table);
    var filledRows := FilledDown(final.0, FilteredRows(sheet.rows, final.1));
    WorkSheetData(sheet.name, sheet.index, [], final.0, filledRows,
                  sheet.originalRowCount, sheet.originalColumnCount, 0, 0)
  }

  /** applyColumnThreshold: the six steps in order. */
  method ApplyColumnThreshold(sheet: WorkSheetData, threshold: real, table: map<string, string>)
    returns (processed: WorkSheetData)
    ensures processed == ProcessedSheet(sheet, threshold, table)
  {
    var carNameColIndex := FindCarNameColumnIndex(sheet.rawHeaderRows);
    var columnsToKeep := DetermineColumnsToKeep(sheet, threshold, carNameColIndex);
    var resolvedHeaders := Resolve(sheet.rawHeaderRows, columnsToKeep, table);
    assert resolvedHeaders == ResolvedLabels(sheet.rawHeaderRows, columnsToKeep, table);
    var namedColumns, namedHeaders := KeepNamedColumns(columnsToKeep, resolvedHeaders);
    var finalHeaders, finalColumns := ResolveDuplicates(namedHeaders, namedColumns, sheet.rows);
    var filteredRows := FilterRows(sheet.rows, finalColumns);
    var filledRows := FillDownGroupColumns(finalHeaders, filteredRows);
    processed := WorkSheetData(sheet.name, sheet.index, [], finalHeaders, filledRows,
                               sheet.originalRowCount, sheet.originalColumnCount, 0, 0);
  }

  /** Every sheet of sheets processed, in order. */
  function ProcessedSheets(sheets: seq<WorkSheetData>, threshold: real, table: map<string, string>)
    : (out: seq<WorkSheetData>)
    ensures |out| == |sheets|
  {
    if sheets == [] then []
    else ProcessedSheets(sheets[..|sheets| - 1], threshold, table) + [ProcessedSheet(sheets[|sheets| - 1], threshold, table)]
  }

  /** The i-th processed sheet is the i-th sheet processed. */
  lemma {:induction false} ProcessedSheetsAt(sheets: seq<WorkSheetData>, threshold: real, table: map<string, string>, i: nat)
    requires i < |sheets|
    ensures ProcessedSheets(sheets, threshold, table)[i] == ProcessedSheet(sheets[i], threshold, table)
  {
    if i < |sheets| - 1 {
      ProcessedSheetsAt(sheets[..|sheets| - 1], threshold, table, i);
    }
  }

  /** Processing one more sheet appends its processed form. */
  lemma ProcessedSheetsSnoc(sheets: seq<WorkSheetData>, sheet: WorkSheetData, threshold: real, table: map<string, string>)
    ensures ProcessedSheets(sheets + [sheet], threshold, table) ==
            ProcessedSheets(sheets, threshold, table) + [ProcessedSheet(sheet, threshold, table)]
  {
    assert (sheets + [sheet])[..|sheets|] == sheets;
  }

  /** process as a value: the file name and worksheet count carried over, every sheet processed in order. */
  function ProcessedWorkBook(workBook: WorkBookData, threshold: real, table: map<string, string>): (out: WorkBookData)
    ensures out.fileName == workBook.fileName && out.worksheetCount == workBook.worksheetCount
    ensures |out.worksheets| == |workBook.worksheets|
  {
    WorkBookData(workBook.fileName, ProcessedSheets(workBook.worksheets, threshold, table), workBook.worksheetCount)
  }

  /** process: a new workbook with every sheet passed through applyColumnThreshold. */
  method Process(workBook: WorkBookData, columnThreshold: real, table: map<string, string>)
    returns (processed: WorkBookData)
    ensures processed == ProcessedWorkBook(workBook, columnThreshold, table)
  {
    ghost var worksheets := workBook.worksheets;
    var sheets: seq<WorkSheetData> := [];
    for i := 0 to |workBook.worksheets|
      invariant sheets == ProcessedSheets(worksheets[..i], columnThreshold, table)
    {
      var sheet := ApplyColumnThreshold(workBook.worksheets[i], columnThreshold, table);
      PrefixStep(worksheets, i);
      ProcessedSheetsSnoc(worksheets[..i], worksheets[i], columnThreshold, table);
      sheets := sheets + [sheet];
    }
    assert worksheets[..|worksheets|] == worksheets;
    processed := WorkBookData(workBook.fileName, sheets, workBook.worksheetCount);
  }

  // ---------------------------------------------------------------------
  // Properties of a processed worksheet

  /**
   * A processed sheet keeps its rows, one per input row, and every row has
   * exactly one cell per header.
   */
  lemma ProcessedSheetShape(sheet: WorkSheetData, threshold: real, table: map<string, string>)
    ensures var out := ProcessedSheet(sheet, threshold, table);
            |out.rows| == |sheet.rows| && out.rawHeaderRows == [] &&
            forall i :: 0 <= i < |out.rows| ==> |out.rows[i].cellValues| == |out.headers|
  {
    var final := FinalColumns(sheet, threshold, table);
    var filtered := FilteredRows(sheet.rows, final.1);
    forall i | 0 <= i < |sheet.rows|
      ensures |FilledDown(final.0, filtered)[i].cellValues| == |final.0|
    {
      ShapePreserved(final.0, filtered, i, 0);
    }
  }

  /** Every header of a processed sheet is a non-empty label. */
  lemma ProcessedHeadersNonEmpty(sheet: WorkSheetData, threshold: real, table: map<string, string>)
    ensures var out := ProcessedSheet(sheet, threshold, table);
            forall j :: 0 <= j < |out.headers| ==> out.headers[j] != ""
  {
    var carNameColIndex := CarNameColumn(sheet.rawHeaderRows);
    var kept := ColumnsToKeep(sheet.rows, sheet.originalColumnCount, threshold, carNameColIndex);
    var resolved := ResolvedLabels(sheet.rawHeaderRows, kept, table);
    var named := Named(kept, resolved);
    NamedColumnsShape(kept, resolved);
    assert forall j :: 0 <= j < |named.0| ==> named.0[j] != "";
    var drop := DropSet(named.0, Fills(sheet.rows, named.1));
    LabelsNonEmpty(named.0, drop);
  }

  /**
   * When no resolved label ends with ")", the headers of the processed sheet
   * are pairwise distinct.
   */
  lemma ProcessedHeadersDistinct(sheet: WorkSheetData, threshold: real, table: map<string, string>)
    requires var kept := ColumnsToKeep(sheet.rows, sheet.originalColumnCount, threshold, CarNameColumn(sheet.rawHeaderRows));
             forall i :: 0 <= i < |kept| ==> !EndsWithParen(ColumnLabel(sheet.rawHeaderRows, kept[i], table))
    ensures var out := ProcessedSheet(sheet, threshold, table);
            forall j, k :: 0 <= j < k < |out.headers| ==> out.headers[j] != out.headers[k]
  {
    var carNameColIndex := CarNameColumn(sheet.rawHeaderRows);
    var kept := ColumnsToKeep(sheet.rows, sheet.originalColumnCount, threshold, carNameColIndex);
    var resolved := ResolvedLabels(sheet.rawHeaderRows, kept, table);
    var named := Named(kept, resolved);
    NamedColumnsShape(kept, resolved);
    assert forall j :: 0 <= j < |named.0| ==> !EndsWithParen(named.0[j]);
    var drop := DropSet(named.0, Fills(sheet.rows, named.1));
    DistinctOutputLabels(named.0, drop);
  }

  /** A sheet without data rows comes out with no columns and no rows. */
  lemma EmptySheetHasNoColumns(sheet: WorkSheetData, threshold: real, table: map<string, string>)
    requires sheet.rows == []
    ensures ProcessedSheet(sheet, threshold, table).headers == []
    ensures ProcessedSheet(sheet, threshold, table).rows == []
  {
  }
}
