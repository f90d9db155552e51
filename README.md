# DataPrep core, modelled in Dafny

DataPrep turns Japanese government vehicle-specification workbooks into clean
tables. The reader finds the block of header rows on each sheet. The block is
anchored by the first row that holds the 車名 ("car name") marker. It grows
upwards over dense rows, and it ends just before the first row whose column A
names a known brand.

The workbook processor then handles every worksheet in turn:

1. It finds the protected 車名 column.
2. It keeps the columns whose filled share of the rows reaches a threshold, and always the protected column.
3. It collapses the stack of raw header rows into one label per kept column. The lookup goes through a Japanese-to-English translation table, scanning each column from the bottom row up.
4. It drops the columns that resolve to no label.
5. It settles duplicate labels. It compares data-row fill rates, drops the footnote columns and numbers the rest " (2)", " (3)", ...
6. It reduces the rows to the final columns. Then it fills the "Car Name" and "Common Name" columns down, up to the last data row.

Two loaders read the configuration files:

- the translation table (`japanese,english` lines; the first entry for a label wins);
- the brand list.

There is also a simpler row-list column pruner.

Every entity is a value here. The sources build new lists and new worksheets and never update one seen by the caller, so the model uses datatypes and `seq`/`map`. Each loop of the source is a `method` with a `while` or `for` loop. Its `ensures` ties the result to a specification function. The properties the sources and their tests promise are proved about those functions as lemmas.

Files, one module each:

| file | module | models |
|---|---|---|
| `model.dfy` | `Model` | `RowData`, `WorkSheetData`, `WorkBookData`, `PermittedHeader`, `CarBrand` |
| `header_range.dfy` | `HeaderRanges` | `HeaderRange` |
| `header_range_detector.dfy` | `HeaderRangeDetector` | `HeaderRangeDetector` |
| `header_resolver.dfy` | `HeaderResolver` | `HeaderResolver` |
| `column_threshold_processor.dfy` | `ColumnThresholdProcessor` | `ColumnThresholdProcessor` |
| `fill_rate.dfy` | `FillRates` | fill rates of `WorkBookProcessor` |
| `duplicates.dfy` | `DuplicateResolution` | `WorkBookProcessor.resolveDuplicates` |
| `fill_down.dfy` | `FillDown` | `WorkBookProcessor.fillDownGroupColumns` |
| `work_book_processor.dfy` | `WorkBookProcessor` | the rest of `WorkBookProcessor` |
| `csv_lines.dfy` | `CsvLines` | line skipping and `String.split` as the loaders use them |
| `permitted_headers_builder.dfy` | `PermittedHeadersBuilder` | `PermittedHeadersBuilder` |
| `car_list_builder.dfy` | `CarListBuilder` | `CarListBuilder` |
| `text.dfy`, `ratios.dfy`, `constants.dfy`, `wrappers.dfy`, `seqs.dfy` | helpers | trimming, fill shares, the label constants, `Option`, sequence facts |

## Model

Paths are relative to the repository root.

| member | source | states |
|---|---|---|
| Model.PaddingInvisible | src/main/java/com/originspecs/dataprep/model/RowData.java:17-19 | getCell returns "" past the end of the row, so empty cells appended to a row never change what getCell returns at any index |
| Model.RowData.GetCell | src/main/java/com/originspecs/dataprep/model/RowData.java:17-19 | the cell at a non-negative index inside the row, and "" at any index past its end |
| Model.RowData.Size | src/main/java/com/originspecs/dataprep/model/RowData.java:21-23 | the number of cell values of the row |
| HeaderRanges.RowPartition | src/main/java/com/originspecs/dataprep/reader/HeaderRange.java:15-31 | for a range with start <= end, every row index is a pre-header row, a header row, or at or after dataStartRowIndex = end + 1, and a row from the data start on is neither of the others |
| HeaderRanges.HeaderAndPreHeaderDisjoint | src/main/java/com/originspecs/dataprep/reader/HeaderRange.java:22-31 | no row index is both a header row and a pre-header row |
| HeaderRanges.ExampleRange | src/test/java/com/originspecs/dataprep/reader/HeaderRangeTest.java:19-72 | the documented example: HeaderRange(3,7) starts its data at 8; rows 3 and 7 are header rows; rows 2 and 8 are not; row 2 is pre-header and row 3 is not; HeaderRange(0,0) starts its data at 1 |
| HeaderRanges.HeaderRange.DataStartRowIndex | src/main/java/com/originspecs/dataprep/reader/HeaderRange.java:15-17 | the data start row is never a header row; for a non-empty range the row before it is the last header row |
| HeaderRanges.HeaderRange.IsHeaderRow | src/main/java/com/originspecs/dataprep/reader/HeaderRange.java:22-24 | defined as start <= row <= end; a header row is never a pre-header row |
| HeaderRanges.HeaderRange.IsPreHeaderRow | src/main/java/com/originspecs/dataprep/reader/HeaderRange.java:29-31 | defined as row < start (partnered by HeaderAndPreHeaderDisjoint and RowPartition) |
| HeaderRangeDetector.NonEmptyCellsExtremes | src/main/java/com/originspecs/dataprep/reader/HeaderRangeDetector.java:149-157 | a row counts 0 cells exactly when no cell is filled, and counts every cell exactly when all are |
| HeaderRangeDetector.CountNonEmptyCells | src/main/java/com/originspecs/dataprep/reader/HeaderRangeDetector.java:149-157 | the loop counts the filled cells of the row (NonEmptyCells) |
| HeaderRangeDetector.MarkerRowFrom | src/main/java/com/originspecs/dataprep/reader/HeaderRangeDetector.java:83-94 | the first row at or after lo that exists and holds the 車名 marker in any cell: no earlier row holds it; -1 exactly when no row does |
| HeaderRangeDetector.FindCarNameRowIndex | src/main/java/com/originspecs/dataprep/reader/HeaderRangeDetector.java:83-94 | the nested scan returns the first marker row, or -1 |
| HeaderRangeDetector.HeaderStart | src/main/java/com/originspecs/dataprep/reader/HeaderRangeDetector.java:100-108 | the start is at most the marker row; every row from the start up to, not including, the marker row is dense (exists, with at least 3 filled cells); the row above the start, if any, is missing or sparse |
| HeaderRangeDetector.FindHeaderRangeStart | src/main/java/com/originspecs/dataprep/reader/HeaderRangeDetector.java:100-108 | the upward walk returns HeaderStart |
| HeaderRangeDetector.BrandRowFrom | src/main/java/com/originspecs/dataprep/reader/HeaderRangeDetector.java:129-141 | the first row at or after lo whose column-A cell exists and, stripped, is a known brand; -1 exactly when there is none; missing rows and missing column-A cells are skipped |
| HeaderRangeDetector.HeaderEnd | src/main/java/com/originspecs/dataprep/reader/HeaderRangeDetector.java:122-147 | marker <= end < number of rows. With no brands, end is the marker row. Otherwise either row end + 1 is the first brand row after the marker, or there is no brand row after the marker and end is the marker row. |
| HeaderRangeDetector.FindHeaderRangeEnd | src/main/java/com/originspecs/dataprep/reader/HeaderRangeDetector.java:122-147 | the downward scan returns HeaderEnd |
| HeaderRangeDetector.DetectedRange | src/main/java/com/originspecs/dataprep/reader/HeaderRangeDetector.java:58-76 | empty exactly when no row holds the marker; otherwise 0 <= start <= first marker row <= end < number of rows |
| HeaderRangeDetector.Detect | src/main/java/com/originspecs/dataprep/reader/HeaderRangeDetector.java:58-76 | detect returns DetectedRange |
| HeaderRangeDetector.MarkerIsHeaderRow | src/main/java/com/originspecs/dataprep/reader/HeaderRangeDetector.java:58-76 | the marker row is a header row of the detected range, and every row above the marker outside the range is a pre-header row |
| HeaderRangeDetector.LaterMarkersIgnored | src/main/java/com/originspecs/dataprep/reader/HeaderRangeDetector.java:83-94 | appending a row, marked or not, does not move the marker row once one exists |
| HeaderRangeDetector.DetectedRangeWellFormed | src/main/java/com/originspecs/dataprep/reader/HeaderRangeDetector.java:58-76 | a detected range has start <= end and a data start within the sheet |
| HeaderResolver.NormalizeDropsLineBreaks | src/main/java/com/originspecs/dataprep/processor/HeaderResolver.java:96-98 | the three replace calls followed by strip delete exactly the CR and LF characters and trim both ends |
| HeaderResolver.NormalizeIsOneLine | src/main/java/com/originspecs/dataprep/processor/HeaderResolver.java:96-98 | a normalized label holds no CR and no LF |
| HeaderResolver.NormalizeIdempotent | src/main/java/com/originspecs/dataprep/processor/HeaderResolver.java:96-98 | normalizing twice gives the same label as normalizing once |
| HeaderResolver.NormalizeNonEmpty | src/main/java/com/originspecs/dataprep/processor/HeaderResolver.java:65-69 | a trimmed non-empty cell never normalizes to "" |
| HeaderResolver.WrappedLabel | src/main/java/com/originspecs/dataprep/processor/HeaderResolver.java:91-98 | a label wrapped over three lines with LF or with CR LF normalizes to the three lines joined, so both wrappings hit the same table key |
| HeaderResolver.WrappedLabelExample | src/test/java/com/originspecs/dataprep/processor/HeaderResolverTest.java:92-115 | "総排\n気量\n（L）" and "総排\r\n気量\r\n（L）" both normalize to "総排気量（L）" |
| HeaderResolver.Normalize | src/main/java/com/originspecs/dataprep/processor/HeaderResolver.java:96-98 | defined as CR LF removal, then CR, then LF, then trimming; never longer than its input (its meaning is stated by NormalizeDropsLineBreaks and NormalizeIsOneLine) |
| HeaderResolver.CellLabel | src/main/java/com/originspecs/dataprep/processor/HeaderResolver.java:62-69 | a header row contributes a label to a column exactly when the column is inside the row and the trimmed cell is non-empty, and a contributed label is never "" |
| HeaderResolver.TranslatedRow | src/main/java/com/originspecs/dataprep/processor/HeaderResolver.java:61-79 | the lowest row below n whose label has a table entry: no lower row has one; -1 when none does |
| HeaderResolver.LabelledRow | src/main/java/com/originspecs/dataprep/processor/HeaderResolver.java:61-74 | the lowest row of cells[lo..] with a label; every row below it is blank; -1 exactly when all are blank |
| HeaderResolver.BottomLabelIsLowest | src/main/java/com/originspecs/dataprep/processor/HeaderResolver.java:72-74 | the fallback kept by the bottom-up scan is the label of the lowest labelled row, "" when there is none |
| HeaderResolver.TranslationWins | src/main/java/com/originspecs/dataprep/processor/HeaderResolver.java:76-78 | the translation of the lowest translated label is returned, even when a lower row holds a label without a translation |
| HeaderResolver.LabelAtTranslatedRow | src/main/java/com/originspecs/dataprep/processor/HeaderResolver.java:76-78 | the same, stated on the per-row contributions |
| HeaderResolver.UntranslatedFallsBack | src/main/java/com/originspecs/dataprep/processor/HeaderResolver.java:72-74 | with no translated label anywhere in the column, the result is "" exactly when the column is blank in every row. Otherwise the result is the label of some row k, and every row below k is blank in that column. |
| HeaderResolver.EmptyTableUsesBottomLabel | src/test/java/com/originspecs/dataprep/processor/HeaderResolverTest.java:136-147 | with an empty table every column is its bottom-most label |
| HeaderResolver.BlankColumnResolvesEmpty | src/test/java/com/originspecs/dataprep/processor/HeaderResolverTest.java:119-160 | a column that is blank or past the end of every header row resolves to "" |
| HeaderResolver.VerbatimLabelRoundTrip | src/test/java/com/originspecs/dataprep/processor/HeaderResolverTest.java:44-55 | an untranslated one-line label with no surrounding whitespace comes back unchanged |
| HeaderResolver.ColumnLabel | src/main/java/com/originspecs/dataprep/processor/HeaderResolver.java:57-89 | defined as the translation of the bottom-most label that has one, else the bottom-most non-empty label, else ""; TranslationWins, UntranslatedFallsBack and BlankColumnResolvesEmpty state each case |
| HeaderResolver.ResolvedLabels | src/main/java/com/originspecs/dataprep/processor/HeaderResolver.java:46-55 | one label per kept column, in the order of the kept columns, each the ColumnLabel of that column |
| HeaderResolver.ResolveColumn | src/main/java/com/originspecs/dataprep/processor/HeaderResolver.java:57-89 | the bottom-up loop with its running fallback and early return computes ColumnLabel |
| HeaderResolver.Resolve | src/main/java/com/originspecs/dataprep/processor/HeaderResolver.java:46-55 | one label per kept column, in the order of columnsToKeep, each the column's ColumnLabel |
| ColumnThresholdProcessor.ColumnFillZero | src/main/java/com/originspecs/dataprep/processor/ColumnThresholdProcessor.java:65-76 | a column counts 0 exactly when no row has a non-null, non-blank cell there in range |
| ColumnThresholdProcessor.CountNonEmptyCells | src/main/java/com/originspecs/dataprep/processor/ColumnThresholdProcessor.java:65-76 | the loop computes ColumnFill |
| ColumnThresholdProcessor.MaxColumnCount | src/main/java/com/originspecs/dataprep/processor/ColumnThresholdProcessor.java:58-63 | no row is longer than the result, and some row is exactly as long; 0 for no rows |
| ColumnThresholdProcessor.KeptColumns | src/main/java/com/originspecs/dataprep/processor/ColumnThresholdProcessor.java:32-56 | no rows keep no columns (KeptColumnsShape states the full contents) |
| ColumnThresholdProcessor.KeptColumnsShape | src/main/java/com/originspecs/dataprep/processor/ColumnThresholdProcessor.java:32-56 | the kept columns are strictly increasing and below the widest row's length. A column is kept exactly when its filled share reaches the threshold. |
| ColumnThresholdProcessor.DetermineColumnsToKeep | src/main/java/com/originspecs/dataprep/processor/ColumnThresholdProcessor.java:32-56 | the loop returns KeptColumns |
| ColumnThresholdProcessor.CellOrEmpty | src/main/java/com/originspecs/dataprep/processor/ColumnThresholdProcessor.java:83-87 | defined as the cell itself inside the row and Some("") past its end, the value filterColumns writes |
| ColumnThresholdProcessor.FilterColumns | src/main/java/com/originspecs/dataprep/processor/ColumnThresholdProcessor.java:78-92 | one row per row, one cell per listed column: the row's own cell (null included) or "" past its end |
| ColumnThresholdProcessor.Pruned | src/main/java/com/originspecs/dataprep/processor/ColumnThresholdProcessor.java:22-30 | the empty list comes back unchanged. Every row keeps its rows count and holds exactly the kept columns' cells, in column order. |
| ColumnThresholdProcessor.Process | src/main/java/com/originspecs/dataprep/processor/ColumnThresholdProcessor.java:22-30 | process returns Pruned |
| ColumnThresholdProcessor.AllEmptyRowsStayEmpty | src/main/java/com/originspecs/dataprep/processor/ColumnThresholdProcessor.java:33-36 | rows without cells give rows without cells |
| ColumnThresholdProcessor.NonPositiveThresholdKeepsAll | src/main/java/com/originspecs/dataprep/processor/ColumnThresholdProcessor.java:41-46 | a threshold of at most 0 keeps every column 0, 1, ... of the widest row |
| ColumnThresholdProcessor.ThresholdAboveOneKeepsNone | src/main/java/com/originspecs/dataprep/processor/ColumnThresholdProcessor.java:41-46 | a threshold above 1 keeps no column |
| Ratios.ShareExtremes | src/main/java/com/originspecs/dataprep/processor/WorkBookProcessor.java:321 | a fill share is 0 exactly for no filled rows and 1 exactly for all rows |
| FillRates.NonEmptyCellCount | src/main/java/com/originspecs/dataprep/processor/WorkBookProcessor.java:231-237 | the loop counts the non-blank cells of the row (NonEmptyCount) |
| FillRates.NonEmptyCount | src/main/java/com/originspecs/dataprep/processor/WorkBookProcessor.java:231-237 | the number of non-blank cells, at most the number of cells |
| FillRates.IsDataRow | src/main/java/com/originspecs/dataprep/processor/WorkBookProcessor.java:202-218 | at least 4 non-blank cells; a data row has at least 4 cells |
| FillRates.ShortRowIsNotData | src/main/java/com/originspecs/dataprep/processor/WorkBookProcessor.java:202 | a row with fewer than 4 cells is never a data row |
| FillRates.ColumnCountZero | src/main/java/com/originspecs/dataprep/processor/WorkBookProcessor.java:363-371 | a column counts 0 exactly when getCell is blank in every row |
| FillRates.ColumnCount | src/main/java/com/originspecs/dataprep/processor/WorkBookProcessor.java:363-371 | the number of rows whose cell at the column is non-blank, at most the number of rows |
| FillRates.CountNonEmptyCells | src/main/java/com/originspecs/dataprep/processor/WorkBookProcessor.java:363-371 | the loop computes ColumnCount |
| FillRates.DataRows | src/main/java/com/originspecs/dataprep/processor/WorkBookProcessor.java:216-218 | a row is in the result exactly when it is a row of the input with at least 4 non-blank cells |
| FillRates.FillRate | src/main/java/com/originspecs/dataprep/processor/WorkBookProcessor.java:213-229 | every fill rate lies between 0 and 1 |
| FillRates.AllDataRows | src/main/java/com/originspecs/dataprep/processor/WorkBookProcessor.java:216-218 | when every row is a data row, all rows are used |
| FillRates.FootnoteRowIgnored | src/main/java/com/originspecs/dataprep/processor/WorkBookProcessor.java:213-229 | once a data row exists, a trailing footnote row changes no fill rate |
| FillRates.BlankInDataRowsMeansZero | src/main/java/com/originspecs/dataprep/processor/WorkBookProcessor.java:224-228 | a column blank in every data row has fill rate 0 |
| FillRates.FilledInDataRowsMeansOne | src/main/java/com/originspecs/dataprep/processor/WorkBookProcessor.java:224-228 | a column filled in every data row has fill rate 1 |
| DuplicateResolution.Positions | src/main/java/com/originspecs/dataprep/processor/WorkBookProcessor.java:149-152 | the positions carrying a label, strictly increasing, and every such position |
| DuplicateResolution.MaxOf | src/main/java/com/originspecs/dataprep/processor/WorkBookProcessor.java:160-162 | the group maximum bounds every fill of the group and is attained; it is 0 for no positions |
| DuplicateResolution.Dropped | src/main/java/com/originspecs/dataprep/processor/WorkBookProcessor.java:158-167 | defined as: the label is shared, the best fill of the group is positive, and the fill is below half of it (DropRule and the lemmas after it state the consequences) |
| DuplicateResolution.GroupByLabel | src/main/java/com/originspecs/dataprep/processor/WorkBookProcessor.java:149-152 | every label maps to all its positions in order, and every label is listed |
| DuplicateResolution.GroupMaxFill | src/main/java/com/originspecs/dataprep/processor/WorkBookProcessor.java:160-162 | the stream maximum of the group's fill rates |
| DuplicateResolution.GroupDrops | src/main/java/com/originspecs/dataprep/processor/WorkBookProcessor.java:164-172 | a group position is dropped exactly when the maximum is positive and its fill is below half of it |
| DuplicateResolution.DecideDrops | src/main/java/com/originspecs/dataprep/processor/WorkBookProcessor.java:154-173 | the second pass marks exactly DropSet: shared label, positive group best, fill below half of it |
| DuplicateResolution.EmitSurvivors | src/main/java/com/originspecs/dataprep/processor/WorkBookProcessor.java:175-189 | the third pass emits the numbered labels and the column indices of the survivors |
| DuplicateResolution.ResolveDuplicates | src/main/java/com/originspecs/dataprep/processor/WorkBookProcessor.java:143-190 | resolveDuplicates returns Deduplicated of its inputs |
| DuplicateResolution.SurvivorsShape | src/main/java/com/originspecs/dataprep/processor/WorkBookProcessor.java:177-178 | the survivors are exactly the positions not dropped, in strictly increasing order |
| DuplicateResolution.FinalLabel | src/main/java/com/originspecs/dataprep/processor/WorkBookProcessor.java:182 | the label is the bare key exactly for the first occurrence; later ones are numbered |
| DuplicateResolution.Deduplicated | src/main/java/com/originspecs/dataprep/processor/WorkBookProcessor.java:143-190 | as many labels as surviving columns (OutputShape states which labels and columns) |
| DuplicateResolution.DroppedOnlyWhenShared | src/main/java/com/originspecs/dataprep/processor/WorkBookProcessor.java:158 | a dropped position shares its label with another position |
| DuplicateResolution.GroupBestAttained | src/main/java/com/originspecs/dataprep/processor/WorkBookProcessor.java:160-162 | some column of every group has the group's best fill |
| DuplicateResolution.BestFilledSurvives | src/main/java/com/originspecs/dataprep/processor/WorkBookProcessor.java:166 | a column with the best fill of its group is never dropped |
| DuplicateResolution.EveryLabelSurvives | src/main/java/com/originspecs/dataprep/processor/WorkBookProcessor.java:154-173 | every label keeps at least one column |
| DuplicateResolution.ZeroFillGroupKeepsAll | src/main/java/com/originspecs/dataprep/processor/WorkBookProcessor.java:166 | a group with no fill at all loses nothing |
| DuplicateResolution.DropRule | src/main/java/com/originspecs/dataprep/processor/WorkBookProcessor.java:158-167 | in a shared group, a column is dropped exactly when the best is positive and its fill is below 0.5 times the best |
| DuplicateResolution.KeptCountGrows | src/main/java/com/originspecs/dataprep/processor/WorkBookProcessor.java:181 | the running count of a label never decreases |
| DuplicateResolution.NumberedApart | src/main/java/com/originspecs/dataprep/processor/WorkBookProcessor.java:181-182 | a later survivor with the same label gets a strictly larger number |
| DuplicateResolution.NumberedLabelsDiffer | src/main/java/com/originspecs/dataprep/processor/WorkBookProcessor.java:182 | "a (m)" and "b (n)" differ whenever the stems or the numbers differ |
| DuplicateResolution.FinalLabelsDiffer | src/main/java/com/originspecs/dataprep/processor/WorkBookProcessor.java:182 | final labels for different (label, count) pairs differ when no label ends with ")" |
| DuplicateResolution.OutputShape | src/main/java/com/originspecs/dataprep/processor/WorkBookProcessor.java:175-189 | output j belongs to survivor j and carries its column index; its label is bare for the label's first survivor and "label (k)" for the k-th |
| DuplicateResolution.SurvivorLabelsDiffer | src/main/java/com/originspecs/dataprep/processor/WorkBookProcessor.java:132-133 | two different survivors get different labels when no input label ends with ")" |
| DuplicateResolution.LabelsNonEmpty | src/main/java/com/originspecs/dataprep/processor/WorkBookProcessor.java:182 | non-empty input labels give non-empty output labels |
| DuplicateResolution.DistinctOutputLabels | src/main/java/com/originspecs/dataprep/processor/WorkBookProcessor.java:132-133 | the output labels are pairwise distinct when no input label ends with ")" |
| DuplicateResolution.NumberingCollision | src/main/java/com/originspecs/dataprep/processor/WorkBookProcessor.java:176-189 | without that condition labels can collide: "A", "A", "A (2)" with nothing dropped give "A", "A (2)", "A (2)" |
| DuplicateResolution.DedupExample | src/test/java/com/originspecs/dataprep/processor/WorkBookProcessorTest.java:165-205 | three columns with one label and fills 0.8, 0.75 and 0.1 drop the 0.1 column and label the other two "X" and "X (2)" |
| FillDown.LastDataRow | src/main/java/com/originspecs/dataprep/processor/WorkBookProcessor.java:303-310 | the last data row when there is one, with no data row after it; otherwise the last row (-1 for no rows) |
| FillDown.FindLastDataRowIndex | src/main/java/com/originspecs/dataprep/processor/WorkBookProcessor.java:303-310 | the upward scan returns LastDataRow |
| FillDown.SourceRow | src/main/java/com/originspecs/dataprep/processor/WorkBookProcessor.java:272-288 | the nearest row above row i with a non-blank cell in the column, with no such row in between; -1 when there is none |
| FillDown.FillStep | src/main/java/com/originspecs/dataprep/processor/WorkBookProcessor.java:272-288 | a non-blank cell becomes the new carried value, trimmed; a blank cell of a data row takes the carried value when it is non-empty |
| FillDown.FillRow | src/main/java/com/originspecs/dataprep/processor/WorkBookProcessor.java:268-290 | one row: car name column, then common name column; both carried values advance past the row |
| FillDown.FillDownGroupColumns | src/main/java/com/originspecs/dataprep/processor/WorkBookProcessor.java:255-296 | fillDownGroupColumns returns FilledDown |
| FillDown.FilledDownCell | src/main/java/com/originspecs/dataprep/processor/WorkBookProcessor.java:255-296 | a cell changes only if its column is "Car Name" or "Common Name", it is blank, its row is at or before the last data row and a value is carried; it then holds the carried value |
| FillDown.FilledDown | src/main/java/com/originspecs/dataprep/processor/WorkBookProcessor.java:255-296 | as many rows out as in (FilledDownCell and the property lemmas state the contents) |
| FillDown.GroupColumnsDiffer | src/main/java/com/originspecs/dataprep/processor/WorkBookProcessor.java:256-257 | the two group columns are never the same column |
| FillDown.ShapePreserved | src/main/java/com/originspecs/dataprep/processor/WorkBookProcessor.java:270-290 | every row keeps its length, and cells outside the two group columns are unchanged |
| FillDown.NonBlankCellsKept | src/test/java/com/originspecs/dataprep/processor/WorkBookProcessorTest.java:237-259 | a non-blank cell is never overwritten |
| FillDown.RowsAfterLastDataRowUntouched | src/test/java/com/originspecs/dataprep/processor/WorkBookProcessorTest.java:285-308 | rows after the last data row come out unchanged |
| FillDown.NoGroupColumnsNoChange | src/main/java/com/originspecs/dataprep/processor/WorkBookProcessor.java:259 | without either header the rows are returned as they are |
| FillDown.BlankCellTakesValueAbove | src/test/java/com/originspecs/dataprep/processor/WorkBookProcessorTest.java:262-282 | a blank group cell of a data row gets the trimmed value of the nearest row above that has one, and stays as it is when there is none |
| FillDown.DataRowsLabelled | src/test/java/com/originspecs/dataprep/processor/WorkBookProcessorTest.java:216-234 | from the first row with a value on, every data row has a non-blank group cell |
| FillDown.FillDownExample | src/test/java/com/originspecs/dataprep/processor/WorkBookProcessorTest.java:216-308 | four data rows with the car name only in the first and common names in the first and third, then a footnote row: the car name reaches every data row, each common name fills the blank row under it, the footnote row is unchanged |
| WorkBookProcessor.MarkerColumnFrom | src/main/java/com/originspecs/dataprep/processor/WorkBookProcessor.java:350-356 | the first column at or after lo whose trimmed cell is 車名, with none before it; -1 exactly when there is none |
| WorkBookProcessor.MarkerColumnExists | src/main/java/com/originspecs/dataprep/processor/WorkBookProcessor.java:350-356 | a header row has a marker column exactly when some cell holds the marker |
| WorkBookProcessor.CarNameColumnFound | src/main/java/com/originspecs/dataprep/processor/WorkBookProcessor.java:348-361 | -1 exactly when no header row holds the marker; otherwise the column holds the marker in some header row |
| WorkBookProcessor.CarNameColumn | src/main/java/com/originspecs/dataprep/processor/WorkBookProcessor.java:348-361 | a column index or -1 (CarNameColumnFound and CarNameColumnIsFirst state which) |
| WorkBookProcessor.CarNameColumnIsFirst | src/main/java/com/originspecs/dataprep/processor/WorkBookProcessor.java:349-357 | the first marker of the topmost marked header row decides, even when a lower row has one further left |
| WorkBookProcessor.FindCarNameColumnIndex | src/main/java/com/originspecs/dataprep/processor/WorkBookProcessor.java:348-361 | the nested scan returns CarNameColumn |
| WorkBookProcessor.ColumnsToKeepShape | src/main/java/com/originspecs/dataprep/processor/WorkBookProcessor.java:312-340 | the kept columns are strictly increasing and below originalColumnCount. With rows, a column is kept exactly when it is the protected column or its share of all rows reaches the threshold. |
| WorkBookProcessor.ColumnsToKeep | src/main/java/com/originspecs/dataprep/processor/WorkBookProcessor.java:312-340 | no rows keep no columns (ColumnsToKeepShape states the full contents) |
| WorkBookProcessor.DetermineColumnsToKeep | src/main/java/com/originspecs/dataprep/processor/WorkBookProcessor.java:312-340 | the loop returns ColumnsToKeep (nothing for a sheet without rows) |
| WorkBookProcessor.ProtectedColumnKept | src/main/java/com/originspecs/dataprep/processor/WorkBookProcessor.java:323-324 | the protected column is kept whatever its fill |
| WorkBookProcessor.NonPositiveThresholdKeepsAll | src/main/java/com/originspecs/dataprep/processor/WorkBookProcessor.java:320-331 | a threshold of at most 0 keeps every column 0 .. originalColumnCount-1 in order |
| WorkBookProcessor.ThresholdAboveOneKeepsProtected | src/main/java/com/originspecs/dataprep/processor/WorkBookProcessor.java:320-331 | a threshold above 1 keeps the protected column alone, or nothing when it is out of range |
| WorkBookProcessor.KeepNamedColumns | src/main/java/com/originspecs/dataprep/processor/WorkBookProcessor.java:73-84 | step 4 keeps the column indices and labels of the positions with a non-empty label |
| WorkBookProcessor.NamedColumnsShape | src/main/java/com/originspecs/dataprep/processor/WorkBookProcessor.java:73-84 | the j-th named column and label come from the j-th position with a non-empty label, and those are exactly the positions kept |
| WorkBookProcessor.Picked | src/main/java/com/originspecs/dataprep/processor/WorkBookProcessor.java:373-379 | one value per listed index, the row's getCell at that index ("" past the end) |
| WorkBookProcessor.FilterByIndices | src/main/java/com/originspecs/dataprep/processor/WorkBookProcessor.java:373-379 | the loop returns Picked |
| WorkBookProcessor.FilteredRows | src/main/java/com/originspecs/dataprep/processor/WorkBookProcessor.java:381-387 | one row per row, each reduced to the listed columns |
| WorkBookProcessor.FilterRows | src/main/java/com/originspecs/dataprep/processor/WorkBookProcessor.java:381-387 | the loop returns FilteredRows |
| WorkBookProcessor.FilteredColumnCount | src/main/java/com/originspecs/dataprep/processor/WorkBookProcessor.java:381-387 | column j of the filtered rows has as many filled cells as the j-th listed column of the input |
| WorkBookProcessor.ApplyColumnThreshold | src/main/java/com/originspecs/dataprep/processor/WorkBookProcessor.java:63-109 | the six steps in order compute ProcessedSheet |
| WorkBookProcessor.ProcessedSheet | src/main/java/com/originspecs/dataprep/processor/WorkBookProcessor.java:63-109 | the processed sheet keeps its name, its index and its number of rows (ProcessedSheetShape states how headers and rows match) |
| WorkBookProcessor.ProcessedSheetsAt | src/main/java/com/originspecs/dataprep/processor/WorkBookProcessor.java:56-58 | the i-th output sheet is the i-th input sheet processed |
| WorkBookProcessor.ProcessedSheetsSnoc | src/main/java/com/originspecs/dataprep/processor/WorkBookProcessor.java:56-58 | one more input sheet appends its processed form |
| WorkBookProcessor.ProcessedWorkBook | src/main/java/com/originspecs/dataprep/processor/WorkBookProcessor.java:48-61 | same file name, same worksheet count, one output sheet per input sheet |
| WorkBookProcessor.Process | src/main/java/com/originspecs/dataprep/processor/WorkBookProcessor.java:48-61 | the loop returns ProcessedWorkBook |
| WorkBookProcessor.ProcessedSheetShape | src/main/java/com/originspecs/dataprep/processor/WorkBookProcessor.java:95-104 | a processed sheet keeps one row per input row, each with one cell per header, and has no raw header rows |
| WorkBookProcessor.ProcessedHeadersNonEmpty | src/main/java/com/originspecs/dataprep/processor/WorkBookProcessor.java:73-91 | no header of a processed sheet is empty |
| WorkBookProcessor.ProcessedHeadersDistinct | src/main/java/com/originspecs/dataprep/processor/WorkBookProcessor.java:86-91 | the headers of a processed sheet are pairwise distinct when no resolved label ends with ")" |
| WorkBookProcessor.EmptySheetHasNoColumns | src/main/java/com/originspecs/dataprep/processor/WorkBookProcessor.java:313-317 | a sheet without rows comes out with no headers and no rows |
| CsvLines.DataLinesMembers | src/main/java/com/originspecs/dataprep/config/PermittedHeadersBuilder.java:40-41 | the data lines are exactly the non-blank lines after the first |
| CsvLines.HeaderLineIgnored | src/main/java/com/originspecs/dataprep/config/PermittedHeadersBuilder.java:40 | the first line, whatever it says, is skipped |
| CsvLines.BlankLineIgnored | src/main/java/com/originspecs/dataprep/config/PermittedHeadersBuilder.java:41 | a blank line inserted after the header line changes nothing |
| CsvLines.SplitFirstJoins | src/main/java/com/originspecs/dataprep/config/PermittedHeadersBuilder.java:60 | split(",", 2) gives one part exactly when there is no comma; the first part has no comma; part, comma, part rebuilds the line |
| CsvLines.SplitFirstAt | src/main/java/com/originspecs/dataprep/config/PermittedHeadersBuilder.java:60 | only the first comma separates; the rest is kept whole |
| CsvLines.FieldsRoundTrip | src/main/java/com/originspecs/dataprep/config/CarListBuilder.java:25 | joining the comma-separated fields with commas restores the line, and no field holds a comma |
| CsvLines.DropTrailingEmptyShape | src/main/java/com/originspecs/dataprep/config/CarListBuilder.java:25 | split without a limit keeps a prefix of the fields ending in a non-empty one, removing only empty ones |
| CsvLines.SplitTwoFields | src/main/java/com/originspecs/dataprep/config/CarListBuilder.java:25 | "a,b" with comma-free a, b and non-empty b splits into [a, b] |
| CsvLines.SplitExtraFields | src/main/java/com/originspecs/dataprep/config/CarListBuilder.java:25 | further fields leave the first two as they are |
| CsvLines.SplitTrailingComma | src/main/java/com/originspecs/dataprep/config/CarListBuilder.java:25 | "a," splits into at most one field |
| PermittedHeadersBuilder.NoCommaMapsToItself | src/main/java/com/originspecs/dataprep/config/PermittedHeadersBuilder.java:59-64 | a line without a comma maps its trimmed text to itself |
| PermittedHeadersBuilder.ParseLine | src/main/java/com/originspecs/dataprep/config/PermittedHeadersBuilder.java:59-64 | defined as the trimmed text before the first comma and the trimmed text after it, or the Japanese label twice without a comma; the lemmas after it state the cases |
| PermittedHeadersBuilder.EnglishMayContainCommas | src/main/java/com/originspecs/dataprep/config/PermittedHeadersBuilder.java:59-64 | "japanese,english" parses to the two trimmed parts even when english holds commas |
| PermittedHeadersBuilder.ParsedLabelsTrimmed | src/main/java/com/originspecs/dataprep/config/PermittedHeadersBuilder.java:61-62 | both parsed labels are already trimmed |
| PermittedHeadersBuilder.EntriesMembers | src/main/java/com/originspecs/dataprep/config/PermittedHeadersBuilder.java:42-43 | an entry is the parse of some line, with a non-blank label, and every such parse is an entry |
| PermittedHeadersBuilder.FirstWinsKeys | src/main/java/com/originspecs/dataprep/config/PermittedHeadersBuilder.java:44-48 | the map holds exactly the labels of the entries |
| PermittedHeadersBuilder.FirstEntryWins | src/main/java/com/originspecs/dataprep/config/PermittedHeadersBuilder.java:44-48 | the first entry with a label decides its English label |
| PermittedHeadersBuilder.Load | src/main/java/com/originspecs/dataprep/config/PermittedHeadersBuilder.java:53-56 | an unreadable file gives the empty map |
| PermittedHeadersBuilder.Mappings | src/main/java/com/originspecs/dataprep/config/PermittedHeadersBuilder.java:39-48 | an empty file gives the empty table (MappingsKeys and MappingsSnoc state the contents) |
| PermittedHeadersBuilder.MappingsKeys | src/main/java/com/originspecs/dataprep/config/PermittedHeadersBuilder.java:35-57 | a label is a key exactly when it is non-blank and parsed from some non-blank line after the first |
| PermittedHeadersBuilder.MappingsSnoc | src/main/java/com/originspecs/dataprep/config/PermittedHeadersBuilder.java:39-48 | a blank line, a blank label or a known label appended changes nothing; a new label is added with its English label |
| PermittedHeadersBuilder.HeaderLineSkipped | src/test/java/com/originspecs/dataprep/config/PermittedHeadersBuilderTest.java:52-62 | the header line never affects the map |
| PermittedHeadersBuilder.BlankLinesSkipped | src/test/java/com/originspecs/dataprep/config/PermittedHeadersBuilderTest.java:38-50 | blank lines after the header line never affect the map |
| PermittedHeadersBuilder.SingleLine | src/test/java/com/originspecs/dataprep/config/PermittedHeadersBuilderTest.java:22-36 | a file with one data line maps that line's label to its English label and nothing else |
| PermittedHeadersBuilder.DuplicateLabelFirstWins | src/test/java/com/originspecs/dataprep/config/PermittedHeadersBuilderTest.java:64-74 | two lines with the same label keep the first English label |
| CarListBuilder.PopulateBrandList | src/main/java/com/originspecs/dataprep/config/CarListBuilder.java:16-33 | an unreadable file gives no brands; otherwise one brand per data line |
| CarListBuilder.BrandOf | src/main/java/com/originspecs/dataprep/config/CarListBuilder.java:25-26 | defined as the first two comma-separated fields of the line, trimmed, for a line with at least two fields |
| CarListBuilder.BrandsOf | src/main/java/com/originspecs/dataprep/config/CarListBuilder.java:21-28 | one brand per line, in order |
| CarListBuilder.BrandLine | src/main/java/com/originspecs/dataprep/config/CarListBuilder.java:25-26 | "a,b" gives the brand (trim a, trim b) |
| CarListBuilder.ExtraFieldsIgnored | src/main/java/com/originspecs/dataprep/config/CarListBuilder.java:25-26 | fields after the second are ignored |
| CarListBuilder.NoCommaRejected | src/main/java/com/originspecs/dataprep/config/CarListBuilder.java:25-26 | a line without a comma has no second field |
| CarListBuilder.TrailingCommaRejected | src/main/java/com/originspecs/dataprep/config/CarListBuilder.java:25-26 | "a," has no second field either |
| CarListBuilder.BrandsMembers | src/main/java/com/originspecs/dataprep/config/CarListBuilder.java:21-28 | a brand is in the list exactly when some data line gives it |
| CarListBuilder.HeaderLineSkipped | src/main/java/com/originspecs/dataprep/config/CarListBuilder.java:22 | the header line never affects the list |
| CarListBuilder.BlankLinesSkipped | src/main/java/com/originspecs/dataprep/config/CarListBuilder.java:23 | blank lines after the header line never affect the list |
| CarListBuilder.BrandsSnoc | src/main/java/com/originspecs/dataprep/config/CarListBuilder.java:21-28 | the list keeps file order: one more line appends its brand at the end, or nothing when it is blank |

## Left out

- Reading the workbook (Apache POI, `DataFormatter`, merged cells, the `Sheet`/`Row`/`Cell` iteration) is not modelled. A sheet is a `Grid`: a sequence of optional rows of optional cells, where a missing row or a blank cell is `None`. `WorkSheetData` holds rows that are already read.
- The file system is not modelled. A configuration file is an `Option<seq<string>>` of its lines, and `None` stands for a file that throws `IOException`. UTF-8 decoding is not modelled.
- Logging is left out. It has no effect on any result.
- The orchestration code and the CSV/JSON writers are not modelled. The translation table is passed to the processor and to `HeaderResolver` as a `map` parameter.
- Fill rates and thresholds are exact `real` ratios, not IEEE doubles. Rounding of `count / total` and of `maxFill * 0.5` is not modelled.
- Java's `trim()`, `strip()` and `isBlank()` all become one test, `Text.IsSpace` (a character at or below U+0020). `strip()` and `isBlank()` also treat Unicode spaces such as U+3000 as whitespace; the model does not. In the other direction, control characters such as U+0000–U+0008 and U+000E–U+001B are removed by `trim()` and by `IsSpace`, but `strip()` keeps them and `isBlank()` does not count them as blank. This affects the detector's marker, brand and count tests and both loaders' blank filters.
- Model.RowData.GetCell: a negative index is excluded by its precondition. Java would throw `IndexOutOfBounds` there, and every caller in the core passes a non-negative index.
- HeaderRanges.HeaderRange.DataStartRowIndex: uses unbounded integers, so the 32-bit overflow of `endRowIndex + 1` at `Integer.MAX_VALUE` is not modelled. The same goes for every row and column count.
- CarListBuilder.PopulateBrandList: a data line that splits into fewer than two fields throws `ArrayIndexOutOfBoundsException` in the source, and nothing catches it. The model makes a well-formed file a precondition (`WellFormedFile`) rather than modelling the exception.
- DuplicateResolution.DistinctOutputLabels: proves distinct output labels only when no input label ends with ")". Without that condition the source's numbering can collide, as `NumberingCollision` shows.
- WorkBookProcessor.ProcessedHeadersDistinct: states distinct headers under the same condition, for the same reason.
- ColumnThresholdProcessor: Java `null` cells are `None` cells; the `""` that `filterColumns` writes past the end of a short row is `Some("")`. A `null` row list is not modelled.
- HeaderRangeDetector.MarkerRowFrom: the marker row may hold 車名 in any cell, not only in column A, because `findCarNameRowIndex` scans every cell of each row. Only the brand test looks at column A alone.
- `WorkBookProcessor.ProcessedSheet` sets the header range fields to 0 and the raw header rows to empty. These are the defaults the source leaves on the new `WorkSheetData`.
