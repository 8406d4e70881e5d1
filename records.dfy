/** The record type and the one-time extraction of records from the
    server-rendered department tables (initializeData). The DOM walk is
    replaced by its input: one entry per department drop-down, holding the
    text of its heading and, when the drop-down has a table, the text content
    of every cell of every body row. */
module Records {
  import opened Basics
  import opened Strings

  /** One tracked site, as initializeData builds it: the department label
      plus the trimmed text of table columns 0 to 10. */
  datatype Record = Record(
    department: string,
    id: string,
    title: string,
    environments: string,
    aliases: string,
    owners: string,
    primaryUrl: string,
    notes: string,
    popeTech: string,
    errors: string,
    active: string,
    cms: string)

  /** The record's values in property order, as Object.values lists them. */
  function Fields(r: Record): (fs: seq<string>)
    ensures |fs| == 12
  {
    [r.department, r.id, r.title, r.environments, r.aliases, r.owners,
     r.primaryUrl, r.notes, r.popeTech, r.errors, r.active, r.cms]
  }

  /** A department drop-down of the rendered page: the text of its heading
      and, if it contains a table, the cell texts of each body row. */
  datatype DepartmentTable = DepartmentTable(heading: string, rows: Option<seq<seq<string>>>)

  /** The number of cells below which a row is skipped. */
  const MinCells: nat := 11

  predicate IsLongRow(cells: seq<string>) { |cells| >= MinCells }

  function RowRecord(department: string, cells: seq<string>): (r: Record)
    requires IsLongRow(cells)
  {
    Record(department, Trim(cells[0]), Trim(cells[1]), Trim(cells[2]), Trim(cells[3]),
           Trim(cells[4]), Trim(cells[5]), Trim(cells[6]), Trim(cells[7]), Trim(cells[8]),
           Trim(cells[9]), Trim(cells[10]))
  }

  /** The records that the rows of one table contribute, in row order. */
  function TableRecords(department: string, rows: seq<seq<string>>): seq<Record>
    decreases |rows|
  {
    if |rows| == 0 then []
    else
      var last := rows[|rows| - 1];
      TableRecords(department, rows[..|rows| - 1])
        + (if IsLongRow(last) then [RowRecord(department, last)] else [])
  }

  function DropdownRecords(t: DepartmentTable): seq<Record>
  {
    match t.rows
    case None => []
    case Some(rows) => TableRecords(Trim(t.heading), rows)
  }

  /** The whole dataset that initializeData collects into window.allData. */
  function Extract(tables: seq<DepartmentTable>): seq<Record>
    decreases |tables|
  {
    if |tables| == 0 then []
    else Extract(tables[..|tables| - 1]) + DropdownRecords(tables[|tables| - 1])
  }

  lemma TableStep(department: string, rows: seq<seq<string>>, j: nat)
    requires j < |rows|
    ensures TableRecords(department, rows[..j + 1]) == TableRecords(department, rows[..j])
      + (if IsLongRow(rows[j]) then [RowRecord(department, rows[j])] else [])
  {
    assert rows[..j + 1][..j] == rows[..j];
  }

  lemma ExtractStep(tables: seq<DepartmentTable>, i: nat)
    requires i < |tables|
    ensures Extract(tables[..i + 1]) == Extract(tables[..i]) + DropdownRecords(tables[i])
  {
    assert tables[..i + 1][..i] == tables[..i];
  }

  /** The inner forEach of initializeData: pushes onto `records` one record
      for every row of the table that has at least eleven cells. */
  method CollectRows(department: string, rows: seq<seq<string>>, records: seq<Record>)
    returns (pushed: seq<Record>)
    ensures pushed == records + TableRecords(department, rows)
  {
    pushed := records;
    var j := 0;
    while j < |rows|
      invariant 0 <= j <= |rows|
      invariant pushed == records + TableRecords(department, rows[..j])
    {
      TableStep(department, rows, j);
      var cells := rows[j];
      if |cells| >= 11 {
        pushed := pushed + [RowRecord(department, cells)];
      }
      j := j + 1;
    }
    assert rows[..j] == rows;
  }

  /** initializeData: the forEach over drop-downs, collecting the rows of
      every drop-down that holds a table. */
  method CollectRecords(tables: seq<DepartmentTable>) returns (records: seq<Record>)
    ensures records == Extract(tables)
  {
    records := [];
    var i := 0;
    while i < |tables|
      invariant 0 <= i <= |tables|
      invariant records == Extract(tables[..i])
    {
      ExtractStep(tables, i);
      var department := Trim(tables[i].heading);
      if tables[i].rows.Some? {
        records := CollectRows(department, tables[i].rows.value, records);
      }
      i := i + 1;
    }
    assert tables[..i] == tables;
  }

  // ---------------------------------------------------------------------------
  // What extraction promises

  /** Row by row: the records of a table are exactly its long rows, each
      turned into a record, in row order; short rows are skipped. */
  lemma {:induction false} TableRecordsAreLongRows(department: string, rows: seq<seq<string>>)
    ensures |TableRecords(department, rows)| == |Filter(rows, IsLongRow)|
    ensures forall k :: 0 <= k < |TableRecords(department, rows)| ==>
              IsLongRow(Filter(rows, IsLongRow)[k])
              && TableRecords(department, rows)[k] == RowRecord(department, Filter(rows, IsLongRow)[k])
    decreases |rows|
  {
    if |rows| > 0 {
      var init, last := rows[..|rows| - 1], rows[|rows| - 1];
      TableRecordsAreLongRows(department, init);
      FilterAppend(init, [last], IsLongRow);
      assert init + [last] == rows;
    }
  }

  /** Every extracted field is already trimmed, and every record carries the
      trimmed heading of a drop-down that has a table. */
  lemma {:induction false} ExtractedRecordsAreTrimmed(tables: seq<DepartmentTable>, r: Record)
    requires r in Extract(tables)
    ensures forall k :: 0 <= k < 12 ==> Trim(Fields(r)[k]) == Fields(r)[k]
    ensures exists t :: t in tables && t.rows.Some? && r.department == Trim(t.heading)
    decreases |tables|
  {
    var init, last := tables[..|tables| - 1], tables[|tables| - 1];
    if r in Extract(init) {
      ExtractedRecordsAreTrimmed(init, r);
      var t :| t in init && t.rows.Some? && r.department == Trim(t.heading);
      assert t in tables;
    } else {
      assert r in DropdownRecords(last);
      var rows := last.rows.value;
      TrimIdempotent(last.heading);
      RowOfTable(Trim(last.heading), rows, r);
      assert last in tables;
    }
  }

  lemma {:induction false} RowOfTable(department: string, rows: seq<seq<string>>, r: Record)
    requires Trim(department) == department
    requires r in TableRecords(department, rows)
    ensures forall k :: 0 <= k < 12 ==> Trim(Fields(r)[k]) == Fields(r)[k]
    ensures r.department == department
    decreases |rows|
  {
    var init, last := rows[..|rows| - 1], rows[|rows| - 1];
    if r in TableRecords(department, init) {
      RowOfTable(department, init, r);
    } else {
      assert IsLongRow(last) && r == RowRecord(department, last);
      forall k | 0 <= k < 11 { TrimIdempotent(last[k]); }
    }
  }
}
