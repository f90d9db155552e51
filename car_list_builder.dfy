/**
 * The brand list, read from a CSV file of "japanese,english" lines under a
 * header line. Blank lines are skipped and each remaining line is split at
 * every comma; its first two fields, trimmed, make one brand, in file order.
 * A file that cannot be read gives the empty list.
 */
module CarListBuilder {
  import opened Wrappers
  import opened Text
  import opened Model
  import opened CsvLines

  /** A line whose split gives at least two fields; any other data line makes the loader fail. */
  predicate WellFormedLine(line: string) {
    |Split(line)| >= 2
  }

  /** The brand of one line: its first two fields, trimmed. */
  function BrandOf(line: string): CarBrand
    requires WellFormedLine(line)
  {
    var parts := Split(line);
    CarBrand(Trim(parts[0]), Trim(parts[1]))
  }

  /** Every data line of the file is well formed. */
  predicate WellFormedFile(lines: seq<string>) {
    forall line :: line in DataLines(lines) ==> WellFormedLine(line)
  }

  /** The brands of well-formed lines, in order. */
  function BrandsOf(ls: seq<string>): (brands: seq<CarBrand>)
    requires forall line :: line in ls ==> WellFormedLine(line)
    ensures |brands| == |ls|
  {
    seq(|ls|, j requires 0 <= j < |ls| => BrandOf(ls[j]))
  }

  /**
   * populateBrandList: one brand per data line, or the empty list when the
   * file cannot be read.
   */
  function PopulateBrandList(file: Option<seq<string>>): (brands: seq<CarBrand>)
    requires file.Some? ==> WellFormedFile(file.value)
    ensures file.None? ==> brands == []
    ensures file.Some? ==> |brands| == |DataLines(file.value)|
  {
    match file
    case None => []
    case Some(lines) => BrandsOf(DataLines(lines))
  }

  // ---------------------------------------------------------------------
  // Properties of the brand list

  /** A line "a,b" gives the brand (a, b), trimmed. */
  lemma BrandLine(a: string, b: string)
    requires Comma !in a && Comma !in b && b != ""
    ensures WellFormedLine(a + [Comma] + b)
    ensures BrandOf(a + [Comma] + b) == CarBrand(Trim(a), Trim(b))
  {
    SplitTwoFields(a, b);
  }

  /** Fields after the second one are ignored. */
  lemma ExtraFieldsIgnored(a: string, b: string, tail: string)
    requires Comma !in a && Comma !in b && b != ""
    ensures WellFormedLine(a + [Comma] + (b + [Comma] + tail))
    ensures BrandOf(a + [Comma] + (b + [Comma] + tail)) == CarBrand(Trim(a), Trim(b))
  {
    SplitExtraFields(a, b, tail);
  }

  /** A line without a comma has no English name. */
  lemma NoCommaRejected(line: string)
    requires Comma !in line
    ensures !WellFormedLine(line)
  {
  }

  /** A line "a," has no English name either: the empty field at the end is dropped. */
  lemma TrailingCommaRejected(a: string)
    requires Comma !in a
    ensures !WellFormedLine(a + [Comma])
  {
    SplitTrailingComma(a);
  }

  /** Every brand comes from one of the lines. */
  lemma BrandsOfSources(ls: seq<string>, b: CarBrand)
    requires forall line :: line in ls ==> WellFormedLine(line)
    requires b in BrandsOf(ls)
    ensures exists line :: line in ls && BrandOf(line) == b
  {
    var brands := BrandsOf(ls);
    var j :| 0 <= j < |brands| && brands[j] == b;
    assert ls[j] in ls && BrandOf(ls[j]) == b;
  }

  /** Every line gives its brand. */
  lemma BrandsOfCovers(ls: seq<string>, line: string)
    requires forall line :: line in ls ==> WellFormedLine(line)
    requires line in ls
    ensures BrandOf(line) in BrandsOf(ls)
  {
    var j :| 0 <= j < |ls| && ls[j] == line;
    assert BrandsOf(ls)[j] == BrandOf(line);
  }

  /** Every brand comes from one of the lines, and every line gives its brand. */
  lemma BrandsOfMembers(ls: seq<string>, b: CarBrand)
    requires forall line :: line in ls ==> WellFormedLine(line)
    ensures b in BrandsOf(ls) <==> exists line :: line in ls && BrandOf(line) == b
  {
    if b in BrandsOf(ls) {
      BrandsOfSources(ls, b);
    }
    if exists line :: line in ls && BrandOf(line) == b {
      var line :| line in ls && BrandOf(line) == b;
      BrandsOfCovers(ls, line);
    }
  }

  /** Every brand comes from a data line, and every data line gives its brand. */
  lemma BrandsMembers(lines: seq<string>, b: CarBrand)
    requires WellFormedFile(lines)
    ensures b in PopulateBrandList(Some(lines)) <==>
              exists line :: line in DataLines(lines) && BrandOf(line) == b
  {
    BrandsOfMembers(DataLines(lines), b);
  }

  /** The header line never becomes a brand: the list does not depend on it. */
  lemma HeaderLineSkipped(header: string, other: string, rest: seq<string>)
    requires WellFormedFile([header] + rest)
    ensures WellFormedFile([other] + rest)
    ensures PopulateBrandList(Some([header] + rest)) == PopulateBrandList(Some([other] + rest))
  {
    HeaderLineIgnored(header, other, rest);
  }

  /** Blank lines after the header line do not change the list. */
  lemma BlankLinesSkipped(lines: seq<string>, i: nat, blank: string)
    requires 1 <= i <= |lines| && IsBlank(blank) && WellFormedFile(lines)
    ensures WellFormedFile(lines[..i] + [blank] + lines[i..])
    ensures PopulateBrandList(Some(lines[..i] + [blank] + lines[i..])) == PopulateBrandList(Some(lines))
  {
    BlankLineIgnored(lines, i, blank);
  }

  /** The list keeps the file's order: one more line at the end adds its brand at the end. */
  lemma BrandsSnoc(lines: seq<string>, line: string)
    requires lines != [] && WellFormedFile(lines) && (IsBlank(line) || WellFormedLine(line))
    ensures WellFormedFile(lines + [line])
    ensures PopulateBrandList(Some(lines + [line])) ==
              PopulateBrandList(Some(lines)) + (if IsBlank(line) then [] else [BrandOf(line)])
  {
    DataLinesSnoc(lines, line);
    var ds := DataLines(lines);
    if !IsBlank(line) {
      assert forall l :: l in ds + [line] ==> l in ds || l == line;
      var extended := BrandsOf(ds + [line]);
      assert forall j :: 0 <= j < |ds| ==> extended[j] == BrandsOf(ds)[j];
      assert extended == BrandsOf(ds) + [BrandOf(line)];
    }
  }
}
