/**
 * Collapses a stack of raw header rows into one label per kept column. Each
 * column is scanned bottom to top; the first normalized label with an entry
 * in the translation table wins at once, otherwise the bottom-most non-empty
 * normalized label is used verbatim, and a column blank in every header row
 * resolves to "".
 */
module HeaderResolver {
  import opened Wrappers
  import opened Text

  const CR: char := '\r'
  const LF: char := '\n'

  predicate IsLineBreak(c: char) {
    c == CR || c == LF
  }

  /** No character of s is a line break. */
  predicate OneLine(s: string) {
    forall i :: 0 <= i < |s| ==> !IsLineBreak(s[i])
  }

  /** String.replace("\r\n", ""): deletes every CR LF pair, scanning left to right. */
  function DeleteCrLf(s: string): (r: string)
    ensures |r| <= |s|
  {
    if |s| >= 2 && s[0] == CR && s[1] == LF then DeleteCrLf(s[2..])
    else if s == [] then []
    else [s[0]] + DeleteCrLf(s[1..])
  }

  /** String.replace(c, ""): deletes every occurrence of the character c. */
  function DeleteChar(s: string, c: char): (r: string)
    ensures |r| <= |s|
  {
    if s == [] then [] else (if s[0] == c then [] else [s[0]]) + DeleteChar(s[1..], c)
  }

  /** After String.replace(c, "") no c is left. */
  lemma {:induction false} DeleteCharRemoves(s: string, c: char)
    ensures forall i :: 0 <= i < |DeleteChar(s, c)| ==> DeleteChar(s, c)[i] != c
  {
    if s != [] {
      DeleteCharRemoves(s[1..], c);
    }
  }

  /** Every character of s except the line breaks, in order. */
  function DropLineBreaks(s: string): (r: string)
    ensures |r| <= |s|
  {
    if s == [] then [] else (if IsLineBreak(s[0]) then [] else [s[0]]) + DropLineBreaks(s[1..])
  }

  lemma {:induction false} DropLineBreaksOneLine(s: string)
    ensures OneLine(DropLineBreaks(s))
  {
    if s != [] {
      DropLineBreaksOneLine(s[1..]);
    }
  }

  /** normalize: remove CR LF, then CR, then LF, then strip the ends. */
  function Normalize(value: string): (r: string)
    ensures |r| <= |value|
  {
    Trim(DeleteChar(DeleteChar(DeleteCrLf(value), CR), LF))
  }

  lemma {:induction false} DeleteCharAppend(a: string, b: string, c: char)
    ensures DeleteChar(a + b, c) == DeleteChar(a, c) + DeleteChar(b, c)
  {
    if a != [] {
      assert (a + b)[1..] == a[1..] + b;
      DeleteCharAppend(a[1..], b, c);
    } else {
      assert a + b == b;
    }
  }

  /** The three replace calls together delete exactly the line-break characters. */
  lemma {:induction false} ReplacesDropLineBreaks(s: string)
    ensures DeleteChar(DeleteChar(DeleteCrLf(s), CR), LF) == DropLineBreaks(s)
  {
    if |s| >= 2 && s[0] == CR && s[1] == LF {
      ReplacesDropLineBreaks(s[2..]);
      assert DropLineBreaks(s) == DropLineBreaks(s[1..]);
      assert s[1..][1..] == s[2..];
    } else if s != [] {
      ReplacesDropLineBreaks(s[1..]);
      DeleteCharAppend([s[0]], DeleteCrLf(s[1..]), CR);
      DeleteCharAppend(DeleteChar([s[0]], CR), DeleteChar(DeleteCrLf(s[1..]), CR), LF);
    }
  }

  /** Normalizing deletes the line breaks and trims whitespace from both ends. */
  lemma NormalizeDropsLineBreaks(value: string)
    ensures Normalize(value) == Trim(DropLineBreaks(value))
  {
    ReplacesDropLineBreaks(value);
  }

  /** A normalized label holds no CR and no LF. */
  lemma NormalizeIsOneLine(value: string)
    ensures OneLine(Normalize(value))
  {
    NormalizeDropsLineBreaks(value);
    var d := DropLineBreaks(value);
    DropLineBreaksOneLine(value);
    TrimShape(d);
    var r := Trim(d);
    forall i | 0 <= i < |r| ensures !IsLineBreak(r[i]) {
      assert r[i] == d[LeadingSpaces(d) + i];
    }
  }

  /** A string without line breaks is unchanged by deleting them. */
  lemma {:induction false} DropLineBreaksFree(s: string)
    requires OneLine(s)
    ensures DropLineBreaks(s) == s
  {
    if s != [] {
      DropLineBreaksFree(s[1..]);
    }
  }

  /** Normalizing an already normalized label returns it unchanged. */
  lemma NormalizeIdempotent(value: string)
    ensures Normalize(Normalize(value)) == Normalize(value)
  {
    var n := Normalize(value);
    NormalizeDropsLineBreaks(value);
    NormalizeIsOneLine(value);
    NormalizeDropsLineBreaks(n);
    DropLineBreaksFree(n);
    TrimIdempotent(DropLineBreaks(value));
  }

  /** The first character of s that is not a line break survives at the front. */
  lemma {:induction false} DropLineBreaksKeepsHead(s: string)
    requires s != [] && !IsLineBreak(s[0])
    ensures DropLineBreaks(s) != [] && DropLineBreaks(s)[0] == s[0]
  {
  }

  /** A trimmed, non-empty cell never normalizes to "". */
  lemma NormalizeNonEmpty(raw: string)
    requires raw != [] && !IsSpace(raw[0])
    ensures Normalize(raw) != ""
  {
    NormalizeDropsLineBreaks(raw);
    DropLineBreaksKeepsHead(raw);
    var d := DropLineBreaks(raw);
    TrimEmptyIffBlank(d);
    assert !IsSpace(d[0]);
  }

  lemma {:induction false} DropLineBreaksAppend(a: string, b: string)
    ensures DropLineBreaks(a + b) == DropLineBreaks(a) + DropLineBreaks(b)
  {
    if a != [] {
      assert (a + b)[1..] == a[1..] + b;
      DropLineBreaksAppend(a[1..], b);
    } else {
      assert a + b == b;
    }
  }

  /** A line separator, LF or CR LF. */
  predicate IsSeparator(sep: string) {
    sep == [LF] || sep == [CR, LF]
  }

  lemma SeparatorVanishes(sep: string)
    requires IsSeparator(sep)
    ensures DropLineBreaks(sep) == []
  {
    if sep == [CR, LF] {
      assert sep[1..] == [LF];
    }
  }

  /** Deleting the line breaks of a label wrapped over three lines joins the lines. */
  lemma JoinedLines(a: string, b: string, c: string, sep: string)
    requires IsSeparator(sep) && OneLine(a) && OneLine(b) && OneLine(c)
    ensures DropLineBreaks(a + sep + b + sep + c) == a + b + c
  {
    SeparatorVanishes(sep);
    DropLineBreaksFree(a);
    DropLineBreaksAppend(a, sep);
    assert DropLineBreaks(a + sep) == a;
    DropLineBreaksFree(b);
    DropLineBreaksAppend(a + sep, b);
    assert DropLineBreaks(a + sep + b) == a + b;
    DropLineBreaksAppend(a + sep + b, sep);
    assert DropLineBreaks(a + sep + b + sep) == a + b;
    DropLineBreaksFree(c);
    DropLineBreaksAppend(a + sep + b + sep, c);
  }

  /**
   * A label wrapped over three lines, with LF or with CR LF, normalizes to
   * the one-line key; the two wrappings therefore look up the same entry.
   */
  lemma WrappedLabel(a: string, b: string, c: string, sep: string)
    requires IsSeparator(sep) && OneLine(a) && OneLine(b) && OneLine(c)
    requires a != [] && !IsSpace(a[0]) && c != [] && !IsSpace(c[|c| - 1])
    ensures Normalize(a + sep + b + sep + c) == a + b + c
  {
    NormalizeDropsLineBreaks(a + sep + b + sep + c);
    JoinedLines(a, b, c, sep);
    TrimOfTrimmed(a + b + c);
  }

  /** The wrapped engine-displacement label of the test suite, with LF and with CR LF. */
  lemma WrappedLabelExample(a: string, b: string, c: string)
    requires a == "総排" && b == "気量" && c == "（L）"
    ensures Normalize(a + "\n" + b + "\n" + c) == "総排気量（L）"
    ensures Normalize(a + "\r\n" + b + "\r\n" + c) == "総排気量（L）"
  {
    WrappedLabel(a, b, c, [LF]);
    WrappedLabel(a, b, c, [CR, LF]);
  }

  /**
   * What one header row contributes to column col: nothing when the column is
   * past the row's end or the trimmed cell is empty, else the normalized label.
   */
  function CellLabel(headerRow: seq<string>, col: nat): (found: Option<string>)
    ensures found.Some? ==> found.value != ""
    ensures found.Some? <==> col < |headerRow| && Trim(headerRow[col]) != ""
  {
    if col >= |headerRow| then None
    else
      var raw := Trim(headerRow[col]);
      if raw == "" then None
      else
        TrimShape(headerRow[col]);
        NormalizeNonEmpty(raw);
        Some(Normalize(raw))
  }

  /** The contribution of every header row to column col, top to bottom. */
  function ColumnCells(rows: seq<seq<string>>, col: nat): (cells: seq<Option<string>>)
    ensures |cells| == |rows|
  {
    CellsUpTo(rows, col, |rows|)
  }

  /** The contributions of the first n header rows. */
  function CellsUpTo(rows: seq<seq<string>>, col: nat, n: nat): (cells: seq<Option<string>>)
    requires n <= |rows|
    ensures |cells| == n
  {
    if n == 0 then [] else CellsUpTo(rows, col, n - 1) + [CellLabel(rows[n - 1], col)]
  }

  lemma {:induction false} CellsUpToAt(rows: seq<seq<string>>, col: nat, n: nat, k: nat)
    requires k < n <= |rows|
    ensures CellsUpTo(rows, col, n)[k] == CellLabel(rows[k], col)
  {
    if k < n - 1 {
      CellsUpToAt(rows, col, n - 1, k);
    }
  }

  lemma ColumnCellsAt(rows: seq<seq<string>>, col: nat, k: nat)
    requires k < |rows|
    ensures ColumnCells(rows, col)[k] == CellLabel(rows[k], col)
  {
    CellsUpToAt(rows, col, |rows|, k);
  }

  /** Row k holds a label that the table translates. */
  predicate Translates(cells: seq<Option<string>>, k: int, table: map<string, string>)
    requires 0 <= k < |cells|
  {
    cells[k].Some? && cells[k].value in table
  }

  /** The bottom-most row below n whose label is translated, or -1 if there is none. */
  function TranslatedRow(cells: seq<Option<string>>, table: map<string, string>, n: nat): (k: int)
    requires n <= |cells|
    ensures -1 <= k < n
    ensures k >= 0 ==> Translates(cells, k, table)
    ensures forall j :: k < j < n ==> !Translates(cells, j, table)
  {
    if n == 0 then -1
    else if Translates(cells, n - 1, table) then n - 1
    else TranslatedRow(cells, table, n - 1)
  }

  /** The bottom-most row of cells[lo..] with a label, or -1 when all those rows are blank. */
  function LabelledRow(cells: seq<Option<string>>, lo: nat): (k: int)
    requires lo <= |cells|
    ensures k == -1 || lo <= k < |cells|
    ensures k >= 0 ==> cells[k].Some?
    ensures k >= 0 ==> forall j :: k < j < |cells| ==> cells[j].None?
    ensures k == -1 ==> forall j :: lo <= j < |cells| ==> cells[j].None?
    decreases |cells| - lo
  {
    if lo == |cells| then -1
    else
      var below := LabelledRow(cells, lo + 1);
      if below >= 0 then below
      else if cells[lo].Some? then lo
      else -1
  }

  /**
   * The fallback after scanning cells[lo..] from the bottom up: it takes the
   * first label met and keeps it; "" when every row there is blank.
   */
  function BottomLabel(cells: seq<Option<string>>, lo: nat): string
    requires lo <= |cells|
    decreases |cells| - lo
  {
    if lo == |cells| then ""
    else
      var below := BottomLabel(cells, lo + 1);
      if below == "" && cells[lo].Some? then cells[lo].value else below
  }

  /** No row contributes an empty label. */
  predicate NonEmptyLabels(cells: seq<Option<string>>) {
    forall k :: 0 <= k < |cells| && cells[k].Some? ==> cells[k].value != ""
  }

  lemma ColumnCellsNonEmpty(rows: seq<seq<string>>, col: nat)
    ensures NonEmptyLabels(ColumnCells(rows, col))
  {
    forall k | 0 <= k < |rows| {
      ColumnCellsAt(rows, col, k);
    }
  }

  /** The running fallback is the label of the bottom-most labelled row. */
  lemma {:induction false} BottomLabelIsLowest(cells: seq<Option<string>>, lo: nat)
    requires lo <= |cells| && NonEmptyLabels(cells)
    ensures BottomLabel(cells, lo) == if LabelledRow(cells, lo) >= 0 then cells[LabelledRow(cells, lo)].value else ""
    decreases |cells| - lo
  {
    if lo < |cells| {
      BottomLabelIsLowest(cells, lo + 1);
    }
  }

  /**
   * The resolved label of column col: the translation of the bottom-most
   * translated label, or else the bottom-most non-empty label.
   */
  function ColumnLabel(rows: seq<seq<string>>, col: nat, table: map<string, string>): string {
    var cells := ColumnCells(rows, col);
    var k := TranslatedRow(cells, table, |cells|);
    if k >= 0 then table[cells[k].value] else BottomLabel(cells, 0)
  }

  /**
   * The bottom-most translated label decides the column, even when a lower
   * row held a label without a translation.
   */
  lemma TranslationWins(rows: seq<seq<string>>, col: nat, table: map<string, string>, k: nat)
    requires k < |rows| && CellLabel(rows[k], col).Some? && CellLabel(rows[k], col).value in table
    requires forall j :: k < j < |rows| && CellLabel(rows[j], col).Some? ==> CellLabel(rows[j], col).value !in table
    ensures ColumnLabel(rows, col, table) == table[CellLabel(rows[k], col).value]
  {
    var cells := ColumnCells(rows, col);
    ColumnCellsAt(rows, col, k);
    assert Translates(cells, k, table);
    var t := TranslatedRow(cells, table, |cells|);
    assert t == k by {
      if t > k {
        ColumnCellsAt(rows, col, t);
      }
    }
  }

  /**
   * Without any translated label the column keeps its bottom-most non-empty
   * normalized label verbatim: some row k holds it and every row below k is
   * blank in this column; a column blank everywhere resolves to "".
   */
  lemma UntranslatedFallsBack(rows: seq<seq<string>>, col: nat, table: map<string, string>)
    requires forall j :: 0 <= j < |rows| && CellLabel(rows[j], col).Some? ==> CellLabel(rows[j], col).value !in table
    ensures ColumnLabel(rows, col, table) == "" <==> forall j :: 0 <= j < |rows| ==> CellLabel(rows[j], col).None?
    ensures ColumnLabel(rows, col, table) != "" ==>
              exists k :: 0 <= k < |rows| && CellLabel(rows[k], col) == Some(ColumnLabel(rows, col, table)) &&
                (forall j :: k < j < |rows| ==> CellLabel(rows[j], col).None?)
  {
    var cells := ColumnCells(rows, col);
    forall j | 0 <= j < |rows| ensures cells[j] == CellLabel(rows[j], col) {
      ColumnCellsAt(rows, col, j);
    }
    ColumnCellsNonEmpty(rows, col);
    BottomLabelIsLowest(cells, 0);
    assert TranslatedRow(cells, table, |cells|) == -1;
  }

  /** With an empty table every column resolves to its bottom-most non-empty normalized label. */
  lemma EmptyTableUsesBottomLabel(rows: seq<seq<string>>, col: nat)
    ensures ColumnLabel(rows, col, map[]) == BottomLabel(ColumnCells(rows, col), 0)
  {
  }

  /** A column that is blank (or absent) in every header row resolves to "". */
  lemma BlankColumnResolvesEmpty(rows: seq<seq<string>>, col: nat, table: map<string, string>)
    requires forall k :: 0 <= k < |rows| ==> col >= |rows[k]| || Trim(rows[k][col]) == ""
    ensures ColumnLabel(rows, col, table) == ""
  {
    var cells := ColumnCells(rows, col);
    forall j | 0 <= j < |rows| ensures cells[j].None? {
      ColumnCellsAt(rows, col, j);
    }
    ColumnCellsNonEmpty(rows, col);
    BottomLabelIsLowest(cells, 0);
  }

  /** A trimmed one-line cell is its own label. */
  lemma VerbatimCell(text: string)
    requires text != [] && !IsSpace(text[0]) && !IsSpace(text[|text| - 1]) && OneLine(text)
    ensures CellLabel([text], 0) == Some(text)
  {
    TrimOfTrimmed(text);
    NormalizeDropsLineBreaks(text);
    DropLineBreaksFree(text);
  }

  /**
   * A one-line label without surrounding whitespace and without a table entry
   * comes back unchanged from a single header row.
   */
  lemma VerbatimLabelRoundTrip(text: string, table: map<string, string>)
    requires text != [] && !IsSpace(text[0]) && !IsSpace(text[|text| - 1]) && OneLine(text)
    requires text !in table
    ensures ColumnLabel([[text]], 0, table) == text
  {
    VerbatimCell(text);
    ColumnCellsAt([[text]], 0, 0);
    var cells := ColumnCells([[text]], 0);
    assert BottomLabel(cells, 1) == "";
  }

  /** The scan resolves to the translation found at row k when no row below it is translated. */
  lemma LabelAtTranslatedRow(rows: seq<seq<string>>, col: nat, table: map<string, string>, k: nat)
    requires k < |rows| && Translates(ColumnCells(rows, col), k, table)
    requires forall j :: k < j < |rows| ==> !Translates(ColumnCells(rows, col), j, table)
    ensures ColumnLabel(rows, col, table) == table[ColumnCells(rows, col)[k].value]
  {
    var cells := ColumnCells(rows, col);
    assert TranslatedRow(cells, table, |cells|) == k;
  }

  /** resolveColumn: the bottom-to-top scan with a running fallback and an early return. */
  method ResolveColumn(rawHeaderRows: seq<seq<string>>, colIndex: nat, table: map<string, string>)
    returns (name: string)
    ensures name == ColumnLabel(rawHeaderRows, colIndex, table)
  {
    ghost var cells := ColumnCells(rawHeaderRows, colIndex);
    var fallback := "";
    var rowIdx := |rawHeaderRows| - 1;
    while rowIdx >= 0
      invariant -1 <= rowIdx < |rawHeaderRows|
      invariant fallback == BottomLabel(cells, rowIdx + 1)
      invariant forall j :: rowIdx < j < |cells| ==> !Translates(cells, j, table)
      decreases rowIdx + 1
    {
      ColumnCellsAt(rawHeaderRows, colIndex, rowIdx);
      var headerRow := rawHeaderRows[rowIdx];
      if colIndex >= |headerRow| {
        rowIdx := rowIdx - 1;
        continue;
      }
      var raw := Trim(headerRow[colIndex]);
      if raw == "" {
        rowIdx := rowIdx - 1;
        continue;
      }
      var value := Normalize(raw);
      assert cells[rowIdx] == Some(value);
      if fallback == "" {
        fallback := value;
      }
      if value in table {
        LabelAtTranslatedRow(rawHeaderRows, colIndex, table, rowIdx);
        return table[value];
      }
      rowIdx := rowIdx - 1;
    }
    assert TranslatedRow(cells, table, |cells|) == -1;
    return fallback;
  }

  /** resolve: exactly one resolved label per kept column, in the order of columnsToKeep. */
  method Resolve(rawHeaderRows: seq<seq<string>>, columnsToKeep: seq<nat>, table: map<string, string>)
    returns (resolved: seq<string>)
    ensures |resolved| == |columnsToKeep|
    ensures forall i :: 0 <= i < |columnsToKeep| ==>
              resolved[i] == ColumnLabel(rawHeaderRows, columnsToKeep[i], table)
  {
    resolved := [];
    for i := 0 to |columnsToKeep|
      invariant |resolved| == i
      invariant forall j :: 0 <= j < i ==> resolved[j] == ColumnLabel(rawHeaderRows, columnsToKeep[j], table)
    {
      var name := ResolveColumn(rawHeaderRows, columnsToKeep[i], table);
      resolved := resolved + [name];
    }
  }

  /** The labels Resolve produces, as a value (used to specify the whole-sheet pipeline). */
  function ResolvedLabels(rawHeaderRows: seq<seq<string>>, columnsToKeep: seq<nat>, table: map<string, string>)
    : (labels: seq<string>)
    ensures |labels| == |columnsToKeep|
    ensures forall i :: 0 <= i < |columnsToKeep| ==> labels[i] == ColumnLabel(rawHeaderRows, columnsToKeep[i], table)
  {
    seq(|columnsToKeep|, i requires 0 <= i < |columnsToKeep| => ColumnLabel(rawHeaderRows, columnsToKeep[i], table))
  }
}
