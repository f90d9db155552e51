/**
 * The line handling shared by the two configuration files: a header line
 * followed by data lines, of which blank ones are ignored, and the two ways
 * of splitting a line at commas that the loaders use (Java's String.split
 * with a limit of 2, and String.split without a limit).
 */
module CsvLines {
  import opened Text

  const Comma: char := ','

  // ---------------------------------------------------------------------
  // The data lines of a file

  /** The non-blank lines of ls, in order. */
  function NonBlankLines(ls: seq<string>): (out: seq<string>)
    ensures |out| <= |ls|
  {
    if ls == [] then []
    else NonBlankLines(ls[..|ls| - 1]) + (if IsBlank(ls[|ls| - 1]) then [] else [ls[|ls| - 1]])
  }

  /** skip(1) then filter(!isBlank): the non-blank lines after the header line. */
  function DataLines(lines: seq<string>): (out: seq<string>)
    ensures |out| < |lines| || lines == []
  {
    if lines == [] then [] else NonBlankLines(lines[1..])
  }

  lemma {:induction false} NonBlankLinesAppend(a: seq<string>, b: seq<string>)
    ensures NonBlankLines(a + b) == NonBlankLines(a) + NonBlankLines(b)
    decreases |b|
  {
    if b == [] {
      assert a + b == a;
    } else {
      var init := b[..|b| - 1];
      assert (a + b)[..|a + b| - 1] == a + init;
      assert b == init + [b[|b| - 1]];
      NonBlankLinesAppend(a, init);
    }
  }

  lemma {:induction false} NonBlankLinesMembers(ls: seq<string>)
    ensures forall line :: line in NonBlankLines(ls) <==> line in ls && !IsBlank(line)
  {
    if ls != [] {
      var init := ls[..|ls| - 1];
      NonBlankLinesMembers(init);
      assert ls == init + [ls[|ls| - 1]];
    }
  }

  /** A data line is a non-blank line other than the first. */
  lemma DataLinesMembers(lines: seq<string>)
    ensures lines != [] ==> forall line :: line in DataLines(lines) <==> line in lines[1..] && !IsBlank(line)
  {
    if lines != [] {
      NonBlankLinesMembers(lines[1..]);
    }
  }

  /** Whatever the header line says, it is not a data line. */
  lemma HeaderLineIgnored(header: string, other: string, rest: seq<string>)
    ensures DataLines([header] + rest) == DataLines([other] + rest)
  {
    assert ([header] + rest)[1..] == rest;
    assert ([other] + rest)[1..] == rest;
  }

  /** A blank line inserted anywhere after the header line leaves the data lines as they were. */
  lemma BlankLineIgnored(lines: seq<string>, i: nat, blank: string)
    requires 1 <= i <= |lines| && IsBlank(blank)
    ensures DataLines(lines[..i] + [blank] + lines[i..]) == DataLines(lines)
  {
    var front, back := lines[1..i], lines[i..];
    var extended := lines[..i] + [blank] + lines[i..];
    assert extended[1..] == (front + [blank]) + back;
    assert lines[1..] == front + back;
    NonBlankLinesAppend(front + [blank], back);
    NonBlankLinesAppend(front, [blank]);
    NonBlankLinesAppend(front, back);
    assert NonBlankLines([blank]) == [] by {
      assert [blank][..0] == [];
    }
    assert NonBlankLines(front + [blank]) == NonBlankLines(front);
    calc {
      DataLines(extended);
      NonBlankLines((front + [blank]) + back);
      NonBlankLines(front + [blank]) + NonBlankLines(back);
      NonBlankLines(front) + NonBlankLines(back);
      NonBlankLines(lines[1..]);
      DataLines(lines);
    }
  }

  /** A non-blank line appended at the end becomes the last data line. */
  lemma DataLinesSnoc(lines: seq<string>, line: string)
    requires lines != []
    ensures DataLines(lines + [line]) == DataLines(lines) + (if IsBlank(line) then [] else [line])
  {
    assert (lines + [line])[1..] == lines[1..] + [line];
    NonBlankLinesAppend(lines[1..], [line]);
    assert [line][..0] == [];
  }

  // ---------------------------------------------------------------------
  // String.split(",", 2)

  /** split(",", 2): the text up to the first comma and the rest; the whole line when it has no comma. */
  function SplitFirst(s: string): (parts: seq<string>)
    ensures 1 <= |parts| <= 2
  {
    var i := IndexOf(s, Comma);
    if i < 0 then [s] else [s[..i], s[i + 1..]]
  }

  /** Splitting at the first comma takes the comma out and nothing else, and the first part has no comma. */
  lemma SplitFirstJoins(s: string)
    ensures var parts := SplitFirst(s);
            Comma !in parts[0] &&
            (|parts| == 1 <==> Comma !in s) &&
            (|parts| == 2 ==> s == parts[0] + [Comma] + parts[1])
  {
    var i := IndexOf(s, Comma);
    if i >= 0 {
      assert s == s[..i] + [Comma] + s[i + 1..];
    }
  }

  /** The part before the first comma ends at that comma; the rest is kept whole, commas included. */
  lemma SplitFirstAt(a: string, b: string)
    requires Comma !in a
    ensures SplitFirst(a + [Comma] + b) == [a, b]
  {
    var s := a + [Comma] + b;
    assert s[|a|] == Comma;
    assert forall k :: 0 <= k < |a| ==> s[k] == a[k];
    assert IndexOf(s, Comma) == |a|;
    assert s[..|a|] == a;
    assert s[|a| + 1..] == b;
  }

  // ---------------------------------------------------------------------
  // String.split(",")

  /** Every comma-separated field of s, empty ones included. */
  function Fields(s: string): (fs: seq<string>)
    ensures |fs| >= 1
    decreases |s|
  {
    var i := IndexOf(s, Comma);
    if i < 0 then [s] else [s[..i]] + Fields(s[i + 1..])
  }

  /** The fields joined again with commas. */
  function JoinFields(fs: seq<string>): string
    requires |fs| >= 1
  {
    if |fs| == 1 then fs[0] else fs[0] + [Comma] + JoinFields(fs[1..])
  }

  /** Splitting at every comma loses nothing: joining the fields gives the line back, and no field holds a comma. */
  lemma {:induction false} FieldsRoundTrip(s: string)
    ensures JoinFields(Fields(s)) == s
    ensures forall j :: 0 <= j < |Fields(s)| ==> Comma !in Fields(s)[j]
    decreases |s|
  {
    var i := IndexOf(s, Comma);
    if i >= 0 {
      FieldsRoundTrip(s[i + 1..]);
      assert s == s[..i] + [Comma] + s[i + 1..];
      assert Fields(s)[1..] == Fields(s[i + 1..]);
    }
  }

  /** Fields of a line whose first field is a (without a comma) and whose rest follows the comma. */
  lemma FieldsCons(a: string, rest: string)
    requires Comma !in a
    ensures Fields(a + [Comma] + rest) == [a] + Fields(rest)
  {
    var s := a + [Comma] + rest;
    assert s[|a|] == Comma;
    assert forall k :: 0 <= k < |a| ==> s[k] == a[k];
    assert IndexOf(s, Comma) == |a|;
    assert s[..|a|] == a;
    assert s[|a| + 1..] == rest;
  }

  /** Java's split without a limit removes the empty fields at the end. */
  function DropTrailingEmpty(fs: seq<string>): (r: seq<string>)
    ensures |r| <= |fs|
  {
    if fs == [] then []
    else if fs[|fs| - 1] == "" then DropTrailingEmpty(fs[..|fs| - 1])
    else fs
  }

  /** The fields kept are a prefix of all fields, end with a non-empty field, and only empty fields are removed. */
  lemma {:induction false} DropTrailingEmptyShape(fs: seq<string>)
    ensures var r := DropTrailingEmpty(fs);
            r == fs[..|r|] && (r != [] ==> r[|r| - 1] != "") &&
            forall j :: |r| <= j < |fs| ==> fs[j] == ""
  {
    if fs != [] && fs[|fs| - 1] == "" {
      var init := fs[..|fs| - 1];
      DropTrailingEmptyShape(init);
      var r := DropTrailingEmpty(init);
      assert init[..|r|] == fs[..|r|];
    }
  }

  /** Fields before a non-empty field are never removed. */
  lemma {:induction false} DropTrailingEmptyKeeps(xs: seq<string>, ys: seq<string>)
    requires xs != [] && xs[|xs| - 1] != ""
    ensures |DropTrailingEmpty(xs + ys)| >= |xs| && DropTrailingEmpty(xs + ys)[..|xs|] == xs
    decreases |ys|
  {
    if ys == [] {
      assert xs + ys == xs;
    } else {
      var zs := xs + ys;
      assert zs[..|zs| - 1] == xs + ys[..|ys| - 1];
      DropTrailingEmptyKeeps(xs, ys[..|ys| - 1]);
      if zs[|zs| - 1] != "" {
        assert zs[..|xs|] == xs;
      }
    }
  }

  /**
   * split(","): a line without a comma is its own single field; otherwise the
   * fields between commas, without the empty fields at the end.
   */
  function Split(s: string): (parts: seq<string>)
    ensures |parts| <= |Fields(s)|
  {
    if Comma !in s then [s] else DropTrailingEmpty(Fields(s))
  }

  /** A line a,b with a non-empty b splits into exactly its two fields. */
  lemma SplitTwoFields(a: string, b: string)
    requires Comma !in a && Comma !in b && b != ""
    ensures Split(a + [Comma] + b) == [a, b]
  {
    var s := a + [Comma] + b;
    assert s[|a|] == Comma;
    FieldsCons(a, b);
    assert Fields(b) == [b];
    assert Fields(s) == [a, b];
  }

  /** Whatever follows a further comma only adds fields after the first two. */
  lemma SplitExtraFields(a: string, b: string, tail: string)
    requires Comma !in a && Comma !in b && b != ""
    ensures var parts := Split(a + [Comma] + (b + [Comma] + tail));
            |parts| >= 2 && parts[0] == a && parts[1] == b
  {
    var rest := b + [Comma] + tail;
    var t := a + [Comma] + rest;
    FieldsCons(a, rest);
    FieldsCons(b, tail);
    var fs := Fields(t);
    assert fs == [a, b] + Fields(tail);
    DropTrailingEmptyKeeps([a, b], Fields(tail));
    assert t[|a|] == Comma;
    var parts := DropTrailingEmpty(fs);
    assert Split(t) == parts;
    var firstTwo := parts[..2];
    assert firstTwo == [a, b];
    assert parts[0] == firstTwo[0] && parts[1] == firstTwo[1];
  }

  /** A line whose only comma is its last character has fewer than two fields. */
  lemma SplitTrailingComma(a: string)
    requires Comma !in a
    ensures |Split(a + [Comma])| <= 1
  {
    var s := a + [Comma];
    assert s[|a|] == Comma;
    FieldsCons(a, "");
    assert Fields("") == [""];
    assert Fields(s) == [a, ""];
    assert Fields(s)[..1] == [a];
  }
}
