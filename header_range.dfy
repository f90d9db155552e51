/** The detected span of header rows within a sheet (0-based, both ends inclusive). */
module HeaderRanges {

  datatype HeaderRange = HeaderRange(startRowIndex: int, endRowIndex: int) {

    /** The row where data begins: the one after the last header row. */
    function DataStartRowIndex(): (r: int)
      ensures !IsHeaderRow(r)
      ensures startRowIndex <= endRowIndex ==> IsHeaderRow(r - 1)
    {
      endRowIndex + 1
    }

    /** Whether rowIndex lies inside the header range. */
    predicate IsHeaderRow(rowIndex: int)
      ensures IsHeaderRow(rowIndex) ==> !IsPreHeaderRow(rowIndex)
    {
      rowIndex >= startRowIndex && rowIndex <= endRowIndex
    }

    /** Whether rowIndex lies before the header range (sheet metadata). */
    predicate IsPreHeaderRow(rowIndex: int)
    {
      rowIndex < startRowIndex
    }
  }

  /** No row is both a header row and a pre-header row. */
  lemma HeaderAndPreHeaderDisjoint(range: HeaderRange, rowIndex: int)
    ensures !(range.IsHeaderRow(rowIndex) && range.IsPreHeaderRow(rowIndex))
  {
  }

  /**
   * For a well-formed range, every row index is exactly one of: pre-header,
   * header, or at or after the data start.
   */
  lemma RowPartition(range: HeaderRange, rowIndex: int)
    requires range.startRowIndex <= range.endRowIndex
    ensures range.IsPreHeaderRow(rowIndex) || range.IsHeaderRow(rowIndex) || rowIndex >= range.DataStartRowIndex()
    ensures rowIndex >= range.DataStartRowIndex() ==> !range.IsPreHeaderRow(rowIndex) && !range.IsHeaderRow(rowIndex)
  {
  }

  /** The documented example: rows 3 to 7 are headers, data starts at row 8. */
  lemma ExampleRange()
    ensures HeaderRange(3, 7).DataStartRowIndex() == 8
    ensures HeaderRange(0, 0).DataStartRowIndex() == 1
    ensures HeaderRange(3, 7).IsHeaderRow(3) && HeaderRange(3, 7).IsHeaderRow(7)
    ensures !HeaderRange(3, 7).IsHeaderRow(2) && !HeaderRange(3, 7).IsHeaderRow(8)
    ensures HeaderRange(3, 7).IsPreHeaderRow(2) && !HeaderRange(3, 7).IsPreHeaderRow(3)
  {
  }
}
