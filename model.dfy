/**
 * The data holders of the pipeline: a data row, one processed or unprocessed
 * worksheet, a workbook, one entry of the header translation file and one
 * entry of the brand list file. All are values; every stage builds new ones.
 */
module Model {

  /** One data row: its cell values, index-addressable, padded with empty strings. */
  datatype RowData = RowData(cellValues: seq<string>) {

    /** The cell at index, or "" past the end of the row (a negative index is not guarded). */
    function GetCell(index: int): (cell: string)
      requires 0 <= index
      ensures index < Size() ==> cell == cellValues[index]
      ensures index >= Size() ==> cell == ""
    {
      if index < |cellValues| then cellValues[index] else ""
    }

    /** The number of cell values the row holds. */
    function Size(): (n: nat)
      ensures n == |cellValues|
    {
      |cellValues|
    }
  }

  /** n empty cells. */
  function Blanks(n: nat): (cells: seq<string>)
    ensures |cells| == n && forall i :: 0 <= i < n ==> cells[i] == ""
  {
    if n == 0 then [] else Blanks(n - 1) + [""]
  }

  /**
   * Explicit empty cells at the end of a row are invisible to GetCell: a row
   * behaves as if it were padded with "" forever.
   */
  lemma PaddingInvisible(row: RowData, n: nat, index: nat)
    ensures RowData(row.cellValues + Blanks(n)).GetCell(index) == row.GetCell(index)
  {
  }

  /**
   * One worksheet. Before processing it carries the raw header rows (top to
   * bottom) and the data rows; after processing, the resolved headers and the
   * filtered rows.
   */
  datatype WorkSheetData = WorkSheetData(
    name: string,
    index: int,
    rawHeaderRows: seq<seq<string>>,
    headers: seq<string>,
    rows: seq<RowData>,
    originalRowCount: int,
    originalColumnCount: int,
    headerRangeStart: int,
    headerRangeEnd: int)

  /** A workbook: its file name, its worksheets in order and the worksheet count. */
  datatype WorkBookData = WorkBookData(fileName: string, worksheets: seq<WorkSheetData>, worksheetCount: int)

  /** One line of the header translation file: a Japanese label and its English label. */
  datatype PermittedHeader = PermittedHeader(japanese: string, english: string)

  /** One line of the brand list file: a Japanese brand name and its English name. */
  datatype CarBrand = CarBrand(japanese: string, english: string)
}
