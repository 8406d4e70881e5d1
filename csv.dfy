/** The CSV text that exportResults builds: a header line of eleven column
    names, then one line per record with its eleven exported fields, each
    wrapped in double quotes (without escaping), joined by commas; every line
    ends with a newline. */
module Csv {
  import opened Basics
  import opened Strings
  import opened Records

  /** The number of exported columns. */
  const Columns: nat := 11

  /** The exported fields of a record, in column order; the id is not exported. */
  function CsvFields(r: Record): (fs: seq<string>)
    ensures |fs| == Columns
  {
    [r.department, r.title, r.environments, r.aliases, r.owners, r.primaryUrl, r.notes,
     r.popeTech, r.errors, r.active, r.cms]
  }

  function Quote(s: string): string { "\"" + s + "\"" }

  function QuoteAll(fs: seq<string>): (qs: seq<string>)
    ensures |qs| == |fs| && forall k :: 0 <= k < |fs| ==> qs[k] == Quote(fs[k])
  {
    seq(|fs|, k requires 0 <= k < |fs| => Quote(fs[k]))
  }

  /** `headers.join(",")`: the eleven column names, separated by commas. */
  const HeaderLine: string :=
    "Department,Title,Environments," + "Aliases,Owners,Primary URL," + "Notes,Pope Tech,"
    + "Errors,Active,CMS"

  /** The header line holds no newline. */
  lemma HeaderLineIsOneLine()
    ensures '\n' !in HeaderLine
  {
    assert '\n' !in "Department,Title,Environments,";
    assert '\n' !in "Aliases,Owners,Primary URL,";
    assert '\n' !in "Notes,Pope Tech,";
    assert '\n' !in "Errors,Active,CMS";
  }

  function RowLine(r: Record): string
  {
    Join(QuoteAll(CsvFields(r)), ',')
  }

  function RowLines(data: seq<Record>): (lines: seq<string>)
    ensures |lines| == |data| && forall k :: 0 <= k < |data| ==> lines[k] == RowLine(data[k])
  {
    seq(|data|, k requires 0 <= k < |data| => RowLine(data[k]))
  }

  /** The lines, each followed by the separator. */
  function Terminated(lines: seq<string>, sep: char): string
    decreases |lines|
  {
    if |lines| == 0 then "" else lines[0] + [sep] + Terminated(lines[1..], sep)
  }

  /** The whole file: the header line, then the lines of the records. */
  function CsvText(data: seq<Record>): string
  {
    Terminated([HeaderLine] + RowLines(data), '\n')
  }

  lemma {:induction false} TerminatedAppend(lines: seq<string>, x: string, sep: char)
    ensures Terminated(lines + [x], sep) == Terminated(lines, sep) + x + [sep]
    decreases |lines|
  {
    if |lines| == 0 {
      assert lines + [x] == [x];
      assert [x][1..] == [];
    } else {
      assert (lines + [x])[1..] == lines[1..] + [x];
      TerminatedAppend(lines[1..], x, sep);
    }
  }

  /** exportResults: nothing for an empty result (the page alerts instead),
      otherwise the text it accumulates line by line. */
  method ExportResults(data: seq<Record>) returns (csv: Option<string>)
    ensures data == [] ==> csv == None
    ensures data != [] ==> csv == Some(CsvText(data))
  {
    if |data| == 0 {
      return None;
    }
    var content := HeaderLine + "\n";
    assert content == Terminated([HeaderLine] + RowLines(data[..0]), '\n');
    var i := 0;
    while i < |data|
      invariant 0 <= i <= |data|
      invariant content == Terminated([HeaderLine] + RowLines(data[..i]), '\n')
    {
      var row := Join(QuoteAll(CsvFields(data[i])), ',');
      assert [HeaderLine] + RowLines(data[..i + 1]) == ([HeaderLine] + RowLines(data[..i])) + [row];
      TerminatedAppend([HeaderLine] + RowLines(data[..i]), row, '\n');
      content := content + row + "\n";
      i := i + 1;
    }
    assert data[..i] == data;
    return Some(content);
  }

  // ---------------------------------------------------------------------------
  // What the export promises

  /** The exported fields are the record's fields without the id. */
  lemma CsvFieldsSkipId(r: Record)
    ensures CsvFields(r) == Fields(r)[..1] + Fields(r)[2..]
  {
  }

  /** Terminating every line is joining them with one empty line after the last. */
  lemma {:induction false} TerminatedIsJoin(lines: seq<string>, sep: char)
    ensures Terminated(lines, sep) == Join(lines + [""], sep)
    decreases |lines|
  {
    if |lines| == 0 {
      assert lines + [""] == [""];
    } else {
      TerminatedIsJoin(lines[1..], sep);
      var xs := lines + [""];
      assert xs[1..] == lines[1..] + [""];
      assert Terminated(lines, sep) == lines[0] + [sep] + Terminated(lines[1..], sep);
    }
  }

  /** A quoted field or a comma-joined list of quoted fields contains a newline
      only where one of the fields does. */
  lemma {:induction false} JoinKeepsOut(xs: seq<string>, sep: char, c: char)
    requires c != sep
    requires forall k :: 0 <= k < |xs| ==> c !in xs[k]
    ensures c !in Join(xs, sep)
    decreases |xs|
  {
    if |xs| > 1 { JoinKeepsOut(xs[1..], sep, c); }
  }

  predicate FieldsFree(data: seq<Record>, c: char)
  {
    forall i, k :: 0 <= i < |data| && 0 <= k < Columns ==> c !in CsvFields(data[i])[k]
  }

  lemma RowLineFree(r: Record, c: char)
    requires c != ',' && c != '"'
    requires forall k :: 0 <= k < Columns ==> c !in CsvFields(r)[k]
    ensures c !in RowLine(r)
  {
    var qs := QuoteAll(CsvFields(r));
    forall k | 0 <= k < |qs| ensures c !in qs[k] {
      assert qs[k] == "\"" + CsvFields(r)[k] + "\"";
    }
    JoinKeepsOut(qs, ',', c);
  }

  /** Without newlines inside fields the text has exactly `|data| + 1` lines,
      each ended by a newline: the header line and the records' lines in order. */
  lemma CsvLines(data: seq<Record>)
    requires FieldsFree(data, '\n')
    ensures Split(CsvText(data), '\n') == [HeaderLine] + RowLines(data) + [""]
    ensures |Split(CsvText(data), '\n')| == |data| + 2
  {
    var lines := [HeaderLine] + RowLines(data);
    TerminatedIsJoin(lines, '\n');
    HeaderLineIsOneLine();
    forall k | 0 <= k < |data| ensures '\n' !in RowLines(data)[k] {
      RowLineFree(data[k], '\n');
    }
    var xs := lines + [""];
    forall k | 0 <= k < |xs| ensures '\n' !in xs[k] {
      if 1 <= k <= |data| { assert xs[k] == RowLines(data)[k - 1]; }
    }
    SplitJoin(xs, '\n');
  }

  // ---------------------------------------------------------------------------
  // Reading the text back

  /** The text up to the first `c`, and what follows that `c`. */
  function Upto(s: string, c: char): (r: Option<(string, string)>)
    ensures r.Some? ==> |r.value.1| < |s|
    decreases |s|
  {
    if |s| == 0 then None
    else if s[0] == c then Some(("", s[1..]))
    else match Upto(s[1..], c)
      case None => None
      case Some((before, after)) => Some(([s[0]] + before, after))
  }

  /** A quoted field at the start of `s`, and the text after its closing quote. */
  function ReadQuoted(s: string): (r: Option<(string, string)>)
    ensures r.Some? ==> |r.value.1| < |s|
  {
    if |s| == 0 || s[0] != '"' then None else Upto(s[1..], '"')
  }

  /** A line of quoted fields separated by commas. */
  function ParseFields(s: string): Option<seq<string>>
    decreases |s|
  {
    match ReadQuoted(s)
    case None => None
    case Some((field, rest)) =>
      if rest == "" then Some([field])
      else if rest[0] != ',' then None
      else match ParseFields(rest[1..])
        case None => None
        case Some(more) => Some([field] + more)
  }

  function ParseRows(lines: seq<string>): Option<seq<seq<string>>>
    decreases |lines|
  {
    if |lines| == 0 then Some([])
    else match ParseFields(lines[0])
      case None => None
      case Some(fs) =>
        match ParseRows(lines[1..])
        case None => None
        case Some(rest) => Some([fs] + rest)
  }

  /** Reads an exported file: the header line, then one line of quoted fields
      per record, and nothing after the last newline. */
  function ParseCsv(text: string): Option<seq<seq<string>>>
  {
    var lines := Split(text, '\n');
    if |lines| < 2 || lines[0] != HeaderLine || lines[|lines| - 1] != "" then None
    else ParseRows(lines[1..|lines| - 1])
  }

  lemma {:induction false} UptoFirst(before: string, after: string, c: char)
    requires c !in before
    ensures Upto(before + [c] + after, c) == Some((before, after))
    decreases |before|
  {
    var s := before + [c] + after;
    if |before| == 0 {
      assert s[0] == c && s[1..] == after;
    } else {
      assert s[0] == before[0] && s[1..] == before[1..] + [c] + after;
      UptoFirst(before[1..], after, c);
      assert [before[0]] + before[1..] == before;
    }
  }

  lemma ReadQuotedField(field: string, rest: string)
    requires '"' !in field
    ensures ReadQuoted(Quote(field) + rest) == Some((field, rest))
  {
    var s := Quote(field) + rest;
    assert s[1..] == field + ['"'] + rest;
    UptoFirst(field, rest, '"');
  }

  /** A line of quoted fields without quotes inside reads back as its fields. */
  lemma {:induction false} ParseQuotedFields(fs: seq<string>)
    requires |fs| >= 1
    requires forall k :: 0 <= k < |fs| ==> '"' !in fs[k]
    ensures ParseFields(Join(QuoteAll(fs), ',')) == Some(fs)
    decreases |fs|
  {
    var qs := QuoteAll(fs);
    if |fs| == 1 {
      ReadQuotedField(fs[0], "");
      assert Quote(fs[0]) + "" == Quote(fs[0]);
      assert Join(qs, ',') == Quote(fs[0]);
      assert fs == [fs[0]];
    } else {
      assert qs[1..] == QuoteAll(fs[1..]);
      var tail := Join(QuoteAll(fs[1..]), ',');
      assert Join(qs, ',') == Quote(fs[0]) + ([','] + tail);
      ReadQuotedField(fs[0], [','] + tail);
      assert ([','] + tail)[1..] == tail;
      ParseQuotedFields(fs[1..]);
      assert [fs[0]] + fs[1..] == fs;
    }
  }

  function ExportedRows(data: seq<Record>): (rows: seq<seq<string>>)
    ensures |rows| == |data| && forall k :: 0 <= k < |data| ==> rows[k] == CsvFields(data[k])
  {
    seq(|data|, k requires 0 <= k < |data| => CsvFields(data[k]))
  }

  lemma ParseRowsCons(lines: seq<string>, fs: seq<string>, rest: seq<seq<string>>)
    requires |lines| > 0 && ParseFields(lines[0]) == Some(fs)
    requires ParseRows(lines[1..]) == Some(rest)
    ensures ParseRows(lines) == Some([fs] + rest)
  {
  }

  lemma FieldsFreeTail(data: seq<Record>, c: char)
    requires |data| > 0 && FieldsFree(data, c)
    ensures FieldsFree(data[1..], c)
  {
    var rest := data[1..];
    forall i, k | 0 <= i < |rest| && 0 <= k < Columns ensures c !in CsvFields(rest[i])[k] {
      assert rest[i] == data[i + 1];
    }
  }

  /** The line of one record reads back as its fields. */
  lemma ParseRowLine(r: Record)
    requires forall k :: 0 <= k < Columns ==> '"' !in CsvFields(r)[k]
    ensures ParseFields(RowLine(r)) == Some(CsvFields(r))
  {
    ParseQuotedFields(CsvFields(r));
  }

  lemma {:induction false} ParseRowLines(data: seq<Record>)
    requires FieldsFree(data, '"')
    ensures ParseRows(RowLines(data)) == Some(ExportedRows(data))
    decreases |data|
  {
    if |data| > 0 {
      var lines := RowLines(data);
      var rest := data[1..];
      assert lines[1..] == RowLines(rest);
      FieldsFreeTail(data, '"');
      ParseRowLines(rest);
      ParseRowLine(data[0]);
      ParseRowsCons(lines, CsvFields(data[0]), ExportedRows(rest));
      assert ExportedRows(data) == [CsvFields(data[0])] + ExportedRows(rest);
    }
  }

  /** Round trip: when no field holds a double quote or a newline, reading the
      exported text gives back every record's exported fields, in order. */
  lemma CsvRoundTrip(data: seq<Record>)
    requires FieldsFree(data, '"') && FieldsFree(data, '\n')
    ensures ParseCsv(CsvText(data)) == Some(ExportedRows(data))
  {
    CsvLines(data);
    var lines := [HeaderLine] + RowLines(data) + [""];
    assert lines[1..|lines| - 1] == RowLines(data);
    ParseRowLines(data);
  }
}
