/**
 * Column pruning for plain row lists: a column survives when the share of
 * rows with a non-blank cell in it reaches the threshold. Cells are Java
 * strings that may be null (None here); a cell past the end of a short row,
 * a null cell and a blank cell all count as empty.
 */
module ColumnThresholdProcessor {
  import opened Wrappers
  import opened Text
  import opened Ratios

  type Row = seq<Option<string>>

  /** The row has a non-null cell at column c whose trimmed text is non-empty. */
  predicate FilledAt(row: Row, c: nat) {
    c < |row| && row[c].Some? && Trim(row[c].value) != ""
  }

  /** How many rows are filled at column c. */
  function ColumnFill(rows: seq<Row>, c: nat): (n: nat)
    ensures n <= |rows|
  {
    if rows == [] then 0
    else ColumnFill(rows[..|rows| - 1], c) + (if FilledAt(rows[|rows| - 1], c) then 1 else 0)
  }

  /** No row filled at c gives 0, and a count of 0 means no row is filled at c. */
  lemma {:induction false} ColumnFillZero(rows: seq<Row>, c: nat)
    ensures ColumnFill(rows, c) == 0 <==> forall i :: 0 <= i < |rows| ==> !FilledAt(rows[i], c)
  {
    if rows != [] {
      var init := rows[..|rows| - 1];
      ColumnFillZero(init, c);
      assert forall i :: 0 <= i < |init| ==> init[i] == rows[i];
    }
  }

  /** countNonEmptyCells: one pass over the rows. */
  method CountNonEmptyCells(rows: seq<Row>, columnIndex: nat) returns (count: nat)
    ensures count == ColumnFill(rows, columnIndex)
  {
    count := 0;
    for i := 0 to |rows|
      invariant count == ColumnFill(rows[..i], columnIndex)
    {
      assert rows[..i + 1][..i] == rows[..i];
      var row := rows[i];
      if columnIndex < |row| {
        var value := row[columnIndex];
        if value.Some? && Trim(value.value) != "" {
          count := count + 1;
        }
      }
    }
    assert rows[..|rows|] == rows;
  }

  /** findMaxColumnCount: the length of the longest row, 0 for no rows. */
  function MaxColumnCount(rows: seq<Row>): (m: nat)
    ensures forall i :: 0 <= i < |rows| ==> |rows[i]| <= m
    ensures rows == [] ==> m == 0
    ensures rows != [] ==> exists i :: 0 <= i < |rows| && |rows[i]| == m
  {
    if rows == [] then 0
    else
      var rest := MaxColumnCount(rows[..|rows| - 1]);
      assert forall i :: 0 <= i < |rows| - 1 ==> rows[..|rows| - 1][i] == rows[i];
      if |rows[|rows| - 1]| > rest then |rows[|rows| - 1]| else rest
  }

  /** Column c reaches the threshold: its filled share of all rows is at least threshold. */
  predicate MeetsThreshold(rows: seq<Row>, c: nat, threshold: real)
    requires rows != []
  {
    Share(ColumnFill(rows, c), |rows|) >= threshold
  }

  /** The columns below n that reach the threshold, in increasing order. */
  function KeptBelow(rows: seq<Row>, threshold: real, n: nat): (kept: seq<nat>)
    requires n == 0 || rows != []
    ensures |kept| <= n
  {
    if n == 0 then []
    else KeptBelow(rows, threshold, n - 1) + (if MeetsThreshold(rows, n - 1, threshold) then [n - 1] else [])
  }

  /** The kept columns below n are below n and strictly increasing. */
  lemma {:induction false} KeptBelowIncreasing(rows: seq<Row>, threshold: real, n: nat)
    requires n == 0 || rows != []
    ensures forall j :: 0 <= j < |KeptBelow(rows, threshold, n)| ==> KeptBelow(rows, threshold, n)[j] < n
    ensures forall j, k :: 0 <= j < k < |KeptBelow(rows, threshold, n)| ==>
              KeptBelow(rows, threshold, n)[j] < KeptBelow(rows, threshold, n)[k]
  {
    if n > 0 {
      KeptBelowIncreasing(rows, threshold, n - 1);
      var rest := KeptBelow(rows, threshold, n - 1);
      var kept := KeptBelow(rows, threshold, n);
      if MeetsThreshold(rows, n - 1, threshold) {
        assert kept == rest + [n - 1];
        assert forall j :: 0 <= j < |rest| ==> kept[j] == rest[j] < n - 1;
        assert kept[|rest|] == n - 1;
      } else {
        assert kept == rest;
      }
    }
  }

  /** A column below n is among the kept columns below n exactly when it reaches the threshold. */
  lemma {:induction false} KeptBelowMembers(rows: seq<Row>, threshold: real, n: nat)
    requires n == 0 || rows != []
    ensures forall c: nat :: c in KeptBelow(rows, threshold, n) <==> c < n && MeetsThreshold(rows, c, threshold)
  {
    if n > 0 {
      KeptBelowMembers(rows, threshold, n - 1);
    }
  }

  /** determineColumnsToKeep as a value: the qualifying columns among those of the widest row. */
  function KeptColumns(rows: seq<Row>, threshold: real): (kept: seq<nat>)
    ensures rows == [] ==> kept == []
  {
    KeptBelow(rows, threshold, MaxColumnCount(rows))
  }

  /**
   * The kept columns are column indices of the widest row, in strictly
   * increasing order, and a column is kept exactly when it reaches the threshold.
   */
  lemma KeptColumnsShape(rows: seq<Row>, threshold: real)
    ensures var kept := KeptColumns(rows, threshold);
            (forall j :: 0 <= j < |kept| ==> kept[j] < MaxColumnCount(rows)) &&
            (forall j, k :: 0 <= j < k < |kept| ==> kept[j] < kept[k]) &&
            (rows != [] ==> forall c: nat :: c in kept <==> c < MaxColumnCount(rows) && MeetsThreshold(rows, c, threshold))
  {
    KeptBelowIncreasing(rows, threshold, MaxColumnCount(rows));
    KeptBelowMembers(rows, threshold, MaxColumnCount(rows));
  }

  /** determineColumnsToKeep: test every column of the widest row in turn. */
  method DetermineColumnsToKeep(rows: seq<Row>, threshold: real) returns (columnsToKeep: seq<nat>)
    ensures columnsToKeep == KeptColumns(rows, threshold)
  {
    var maxColumns := MaxColumnCount(rows);
    if maxColumns == 0 {
      return [];
    }
    var totalRows := |rows|;
    columnsToKeep := [];
    for colIndex := 0 to maxColumns
      invariant columnsToKeep == KeptBelow(rows, threshold, colIndex)
    {
      var nonEmptyCount := CountNonEmptyCells(rows, colIndex);
      var fillPercentage := Share(nonEmptyCount, totalRows);
      if fillPercentage >= threshold {
        columnsToKeep := columnsToKeep + [colIndex];
      }
    }
  }

  /** The cell that filterColumns writes for column c of row: the cell itself, or "" past the row's end. */
  function CellOrEmpty(row: Row, c: nat): Option<string> {
    if c < |row| then row[c] else Some("")
  }

  /** filterColumns: each row reduced to the listed columns, in the listed order. */
  method FilterColumns(rows: seq<Row>, columnsToKeep: seq<nat>) returns (filtered: seq<Row>)
    ensures |filtered| == |rows|
    ensures forall i :: 0 <= i < |rows| ==> |filtered[i]| == |columnsToKeep|
    ensures forall i, j :: 0 <= i < |rows| && 0 <= j < |columnsToKeep| ==>
              filtered[i][j] == CellOrEmpty(rows[i], columnsToKeep[j])
  {
    filtered := [];
    for i := 0 to |rows|
      invariant |filtered| == i
      invariant forall r :: 0 <= r < i ==> |filtered[r]| == |columnsToKeep|
      invariant forall r, j :: 0 <= r < i && 0 <= j < |columnsToKeep| ==>
                  filtered[r][j] == CellOrEmpty(rows[r], columnsToKeep[j])
    {
      var row := rows[i];
      var filteredRow: Row := [];
      for k := 0 to |columnsToKeep|
        invariant |filteredRow| == k
        invariant forall j :: 0 <= j < k ==> filteredRow[j] == CellOrEmpty(row, columnsToKeep[j])
      {
        var colIndex := columnsToKeep[k];
        if colIndex < |row| {
          filteredRow := filteredRow + [row[colIndex]];
        } else {
          filteredRow := filteredRow + [Some("")];
        }
      }
      filtered := filtered + [filteredRow];
    }
  }

  /** The rows process returns, as a value. */
  function Pruned(rows: seq<Row>, threshold: real): (result: seq<Row>)
    ensures |result| == |rows|
    ensures rows == [] ==> result == rows
    ensures forall i :: 0 <= i < |rows| ==> |result[i]| == |KeptColumns(rows, threshold)|
    ensures forall i, j :: 0 <= i < |rows| && 0 <= j < |KeptColumns(rows, threshold)| ==>
              result[i][j] == CellOrEmpty(rows[i], KeptColumns(rows, threshold)[j])
  {
    var kept := KeptColumns(rows, threshold);
    seq(|rows|, i requires 0 <= i < |rows| => seq(|kept|, j requires 0 <= j < |kept| => CellOrEmpty(rows[i], kept[j])))
  }

  /** process: an empty list comes back unchanged; otherwise keep the qualifying columns. */
  method Process(rows: seq<Row>, columnThreshold: real) returns (result: seq<Row>)
    ensures result == Pruned(rows, columnThreshold)
  {
    if rows == [] {
      return rows;
    }
    var columnsToKeep := DetermineColumnsToKeep(rows, columnThreshold);
    result := FilterColumns(rows, columnsToKeep);
    var expected := Pruned(rows, columnThreshold);
    forall i | 0 <= i < |rows| ensures result[i] == expected[i] {
    }
  }

  /** Rows without any cell give rows without any cell. */
  lemma AllEmptyRowsStayEmpty(rows: seq<Row>, threshold: real)
    requires forall i :: 0 <= i < |rows| ==> rows[i] == []
    ensures forall i :: 0 <= i < |rows| ==> Pruned(rows, threshold)[i] == []
  {
    if rows != [] {
      assert MaxColumnCount(rows) == 0;
    }
  }

  /** A threshold of at most 0 keeps every column of the widest row, in order. */
  lemma NonPositiveThresholdKeepsAll(rows: seq<Row>, threshold: real)
    requires threshold <= 0.0
    ensures |KeptColumns(rows, threshold)| == MaxColumnCount(rows)
    ensures forall j :: 0 <= j < MaxColumnCount(rows) ==> KeptColumns(rows, threshold)[j] == j
  {
    KeptBelowAll(rows, threshold, MaxColumnCount(rows));
  }

  lemma {:induction false} KeptBelowAll(rows: seq<Row>, threshold: real, n: nat)
    requires threshold <= 0.0 && (n == 0 || rows != [])
    ensures |KeptBelow(rows, threshold, n)| == n
    ensures forall j :: 0 <= j < n ==> KeptBelow(rows, threshold, n)[j] == j
  {
    if n > 0 {
      KeptBelowAll(rows, threshold, n - 1);
      assert Share(ColumnFill(rows, n - 1), |rows|) >= 0.0;
    }
  }

  /** A threshold above 1 keeps no column: no share exceeds all rows. */
  lemma ThresholdAboveOneKeepsNone(rows: seq<Row>, threshold: real)
    requires threshold > 1.0
    ensures KeptColumns(rows, threshold) == []
  {
    KeptBelowNone(rows, threshold, MaxColumnCount(rows));
  }

  lemma {:induction false} KeptBelowNone(rows: seq<Row>, threshold: real, n: nat)
    requires threshold > 1.0 && (n == 0 || rows != [])
    ensures KeptBelow(rows, threshold, n) == []
  {
    if n > 0 {
      KeptBelowNone(rows, threshold, n - 1);
      assert Share(ColumnFill(rows, n - 1), |rows|) <= 1.0;
    }
  }
}
