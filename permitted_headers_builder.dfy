/**
 * The header translation table, read from a CSV file of "japanese,english"
 * lines under a header line. Blank lines are skipped, each line is split at
 * its first comma, an entry with a blank Japanese label is discarded and, for
 * a label listed twice, the first English label wins. A file that cannot be
 * read gives the empty table.
 */
module PermittedHeadersBuilder {
  import opened Wrappers
  import opened Text
  import opened Model
  import opened CsvLines
  import opened Seqs

  /** parseLine: split at the first comma, trim both parts; without a comma the English label is the Japanese one. */
  function ParseLine(line: string): PermittedHeader {
    var parts := SplitFirst(line);
    var japanese := Trim(parts[0]);
    var english := if |parts| > 1 then Trim(parts[1]) else japanese;
    PermittedHeader(japanese, english)
  }

  /** A line without a comma maps its trimmed text to itself. */
  lemma NoCommaMapsToItself(line: string)
    requires Comma !in line
    ensures ParseLine(line) == PermittedHeader(Trim(line), Trim(line))
  {
    SplitFirstJoins(line);
  }

  /** Only the first comma separates: the English label is everything after it, further commas included. */
  lemma EnglishMayContainCommas(japanese: string, english: string)
    requires Comma !in japanese
    ensures ParseLine(japanese + [Comma] + english) == PermittedHeader(Trim(japanese), Trim(english))
  {
    SplitFirstAt(japanese, english);
  }

  /** Both labels of a parsed line are trimmed. */
  lemma ParsedLabelsTrimmed(line: string)
    ensures Trim(ParseLine(line).japanese) == ParseLine(line).japanese
    ensures Trim(ParseLine(line).english) == ParseLine(line).english
  {
    var parts := SplitFirst(line);
    TrimIdempotent(parts[0]);
    if |parts| > 1 {
      TrimIdempotent(parts[1]);
    }
  }

  /** The parsed lines of ls with a non-blank Japanese label, in order. */
  function Entries(ls: seq<string>): (es: seq<PermittedHeader>)
    ensures |es| <= |ls|
  {
    if ls == [] then []
    else
      var h := ParseLine(ls[|ls| - 1]);
      Entries(ls[..|ls| - 1]) + (if IsBlank(h.japanese) then [] else [h])
  }

  /** An entry comes from some line, and every line with a non-blank Japanese label gives one. */
  lemma {:induction false} EntriesMembers(ls: seq<string>)
    ensures forall h :: h in Entries(ls) <==> !IsBlank(h.japanese) && exists line :: line in ls && ParseLine(line) == h
  {
    if ls != [] {
      var init := ls[..|ls| - 1];
      EntriesMembers(init);
      assert ls == init + [ls[|ls| - 1]];
    }
  }

  /** toMap with a merge function keeping the existing value: the first entry of each label wins. */
  function FirstWins(entries: seq<PermittedHeader>): map<string, string> {
    if entries == [] then map[]
    else
      var m := FirstWins(entries[..|entries| - 1]);
      var e := entries[|entries| - 1];
      if e.japanese in m then m else m[e.japanese := e.english]
  }

  /** The table holds exactly the labels of the entries. */
  lemma {:induction false} FirstWinsKeys(entries: seq<PermittedHeader>)
    ensures forall k :: k in FirstWins(entries) <==> exists i :: 0 <= i < |entries| && entries[i].japanese == k
  {
    if entries != [] {
      var init := entries[..|entries| - 1];
      FirstWinsKeys(init);
      assert forall i :: 0 <= i < |init| ==> init[i] == entries[i];
    }
  }

  /** Adding an entry at the end adds its label only when the label is new. */
  lemma FirstWinsSnoc(entries: seq<PermittedHeader>, e: PermittedHeader)
    ensures FirstWins(entries + [e]) ==
              if e.japanese in FirstWins(entries) then FirstWins(entries) else FirstWins(entries)[e.japanese := e.english]
  {
    assert (entries + [e])[..|entries|] == entries;
  }

  /** The label of the first entry carrying it maps to that entry's English label. */
  lemma {:induction false} FirstEntryWins(entries: seq<PermittedHeader>, i: nat)
    requires i < |entries|
    requires forall j :: 0 <= j < i ==> entries[j].japanese != entries[i].japanese
    ensures entries[i].japanese in FirstWins(entries)
    ensures FirstWins(entries)[entries[i].japanese] == entries[i].english
  {
    var init := entries[..|entries| - 1];
    var k := entries[i].japanese;
    if i < |entries| - 1 {
      assert forall j :: 0 <= j <= i ==> init[j] == entries[j];
      FirstEntryWins(init, i);
    } else {
      FirstWinsKeys(init);
      assert forall j :: 0 <= j < |init| ==> init[j] == entries[j];
      assert k !in FirstWins(init);
    }
  }

  /** The table built from the lines of the file. */
  function Mappings(lines: seq<string>): (m: map<string, string>)
    ensures lines == [] ==> m == map[]
  {
    FirstWins(Entries(DataLines(lines)))
  }

  /** load(String): the table of the file's lines, or the empty table when the file cannot be read. */
  function Load(file: Option<seq<string>>): (m: map<string, string>)
    ensures file.None? ==> m == map[]
  {
    match file
    case None => map[]
    case Some(lines) => Mappings(lines)
  }

  // ---------------------------------------------------------------------
  // Properties of the table

  /**
   * A label is in the table exactly when some non-blank line after the header
   * line parses to it and it is not blank.
   */
  lemma MappingsKeys(lines: seq<string>, k: string)
    requires lines != []
    ensures k in Mappings(lines) <==>
              !IsBlank(k) && exists line :: line in lines[1..] && !IsBlank(line) && ParseLine(line).japanese == k
  {
    var es := Entries(DataLines(lines));
    DataLinesMembers(lines);
    EntriesMembers(DataLines(lines));
    FirstWinsKeys(es);
    if k in Mappings(lines) {
      var i :| 0 <= i < |es| && es[i].japanese == k;
      assert es[i] in es;
    }
    if !IsBlank(k) && exists line :: line in lines[1..] && !IsBlank(line) && ParseLine(line).japanese == k {
      var line :| line in lines[1..] && !IsBlank(line) && ParseLine(line).japanese == k;
      assert line in DataLines(lines);
      var h := ParseLine(line);
      assert h in es;
      var i :| 0 <= i < |es| && es[i] == h;
    }
  }

  /**
   * One more line at the end: a blank line, a line with a blank label and a
   * label already present change nothing; a new label is added with its English label.
   */
  lemma MappingsSnoc(lines: seq<string>, line: string)
    requires lines != []
    ensures var h := ParseLine(line);
            Mappings(lines + [line]) ==
              if IsBlank(line) || IsBlank(h.japanese) || h.japanese in Mappings(lines) then Mappings(lines)
              else Mappings(lines)[h.japanese := h.english]
  {
    DataLinesSnoc(lines, line);
    var ds := DataLines(lines);
    var table := FirstWins(Entries(ds));
    assert Mappings(lines) == table;
    var h := ParseLine(line);
    if IsBlank(line) {
      assert DataLines(lines + [line]) == ds;
    } else {
      assert (ds + [line])[..|ds|] == ds;
      assert Entries(ds + [line]) == Entries(ds) + (if IsBlank(h.japanese) then [] else [h]);
      if IsBlank(h.japanese) {
        assert Entries(ds + [line]) == Entries(ds);
        assert Mappings(lines + [line]) == table;
      } else {
        FirstWinsSnoc(Entries(ds), h);
        assert Mappings(lines + [line]) == FirstWins(Entries(ds) + [h]);
      }
    }
  }

  /** The header line never becomes an entry: the table does not depend on it. */
  lemma HeaderLineSkipped(header: string, other: string, rest: seq<string>)
    ensures Mappings([header] + rest) == Mappings([other] + rest)
  {
    HeaderLineIgnored(header, other, rest);
  }

  /** Blank lines after the header line do not change the table. */
  lemma BlankLinesSkipped(lines: seq<string>, i: nat, blank: string)
    requires 1 <= i <= |lines| && IsBlank(blank)
    ensures Mappings(lines[..i] + [blank] + lines[i..]) == Mappings(lines)
  {
    BlankLineIgnored(lines, i, blank);
  }

  /** A file whose only data line is line maps that line's label to its English label. */
  lemma SingleLine(header: string, line: string)
    requires !IsBlank(line) && !IsBlank(ParseLine(line).japanese)
    ensures Mappings([header, line]) == map[ParseLine(line).japanese := ParseLine(line).english]
  {
    MappingsSnoc([header], line);
    Displays(header, line, line);
    assert Mappings([header]) == map[];
  }

  /** A line with a comma is not blank. */
  lemma CommaLineNotBlank(a: string, b: string)
    ensures !IsBlank(a + [Comma] + b)
  {
    assert (a + [Comma] + b)[|a|] == Comma;
  }

  /** Two lines with the same Japanese label: the first English label is kept. */
  lemma DuplicateLabelFirstWins(header: string, japanese: string, first: string, second: string)
    requires Comma !in japanese && !IsBlank(Trim(japanese))
    ensures var table := Mappings([header, japanese + [Comma] + first, japanese + [Comma] + second]);
            Trim(japanese) in table && table[Trim(japanese)] == Trim(first)
  {
    var l1 := japanese + [Comma] + first;
    var l2 := japanese + [Comma] + second;
    EnglishMayContainCommas(japanese, first);
    EnglishMayContainCommas(japanese, second);
    CommaLineNotBlank(japanese, first);
    CommaLineNotBlank(japanese, second);
    SingleLine(header, l1);
    MappingsSnoc([header, l1], l2);
    Displays(header, l1, l2);
  }
}
