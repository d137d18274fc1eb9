/**
 * Sheet extraction: the first row of a sheet gives the column headers, and
 * every later row that is not entirely empty becomes a record mapping each
 * header to the normalised value below it.
 */
module Extract {
  import opened Strings
  import opened Cells
  import opened OrderedDict
  import opened Wrappers

  type Row = seq<Cell>

  /** One row as a dictionary from header to normalised value. */
  type Record = Dict<string, Cell>

  /** A worksheet as the workbook reader yields it: its name and its rows of
      raw values, in order. */
  datatype Sheet = Sheet(name: string, rows: seq<Row>)

  // ----- headers -----

  /** The header of the first-row cell at 1-based position `pos`: its
      `str()` text, or the placeholder `Col_<pos>` for an empty cell. */
  function HeaderText(h: Cell, pos: int): string
  {
    if h.Absent? then "Col_" + IntToString(pos) else PyStr(h)
  }

  function Headers(first: Row): (hs: seq<string>)
    ensures |hs| == |first|
  {
    seq(|first|, i requires 0 <= i < |first| => HeaderText(first[i], i + 1))
  }

  /** A present header cell is named by its text; an empty one by a
      placeholder from which its 1-based position can be read back. */
  lemma HeaderMeaning(first: Row, i: nat)
    requires i < |first|
    ensures !first[i].Absent? ==> Headers(first)[i] == PyStr(first[i])
    ensures first[i].Absent? ==> "Col_" <= Headers(first)[i] && ParseInt(Headers(first)[i][4..]) == i + 1
  {
    if first[i].Absent? {
      IntToStringRoundTrip(i + 1);
      assert Headers(first)[i][4..] == IntToString(i + 1);
    }
  }

  /** Placeholders never collide with one another. */
  lemma PlaceholdersDistinct(first: Row, i: nat, j: nat)
    requires i < j < |first|
    requires first[i].Absent? && first[j].Absent?
    ensures Headers(first)[i] != Headers(first)[j]
  {
    HeaderMeaning(first, i);
    HeaderMeaning(first, j);
  }

  // ----- records -----

  predicate AllAbsent(row: Row)
  {
    forall i :: 0 <= i < |row| ==> row[i].Absent?
  }

  function Min(a: int, b: int): int { if a < b then a else b }

  /** `zip(headers, row)` with each value normalised: stops at the shorter. */
  function Zip(headers: seq<string>, row: Row): (ps: seq<(string, Cell)>)
    ensures |ps| == Min(|headers|, |row|)
    ensures Keys(ps) == headers[..|ps|]
  {
    var n := Min(|headers|, |row|);
    seq(n, k requires 0 <= k < n => (headers[k], Normalise(row[k])))
  }

  /** `{h: normalise(v) for h, v in zip(headers, row)}`: the record's keys
      are the headers of the zipped columns, each once, in order of first
      appearance. */
  function MakeRecord(headers: seq<string>, row: Row): (rec: Record)
    ensures Keys(rec) == AppendNew([], headers[..Min(|headers|, |row|)])
    ensures Unique(Keys(rec))
  {
    PutAllKeys([], Zip(headers, row));
    AppendNewContents([], headers[..Min(|headers|, |row|)]);
    PutAll([], Zip(headers, row))
  }

  /** With distinct headers and a row at least as wide, the keys are exactly
      the headers. */
  lemma RecordKeysAreHeaders(headers: seq<string>, row: Row)
    requires Unique(headers) && |row| >= |headers|
    ensures Keys(MakeRecord(headers, row)) == headers
  {
    assert headers[..|headers|] == headers;
    AppendNewUnique(headers);
  }

  /** The value under the header of column `k`, when no later zipped column
      has the same header, is that column's normalised cell; when a later
      column repeats the header, the later value is the one kept. */
  lemma RecordValue(headers: seq<string>, row: Row, k: nat)
    requires k < |headers| && k < |row|
    requires forall j :: k < j < Min(|headers|, |row|) ==> headers[j] != headers[k]
    ensures Get(MakeRecord(headers, row), headers[k]) == Some(Normalise(row[k]))
  {
    var ps := Zip(headers, row);
    LastForAt(ps, k);
    PutAllGet([], ps, headers[k]);
  }

  /** A header that is not among the zipped columns (a cell missing from a
      short row) has no entry. */
  lemma RecordMissing(headers: seq<string>, row: Row, h: string)
    requires h !in headers[..Min(|headers|, |row|)]
    ensures Get(MakeRecord(headers, row), h) == None
  {
    var ps := Zip(headers, row);
    LastForAbsent(ps, h);
    PutAllGet([], ps, h);
  }

  /** Cells beyond the header row's width are dropped. */
  lemma RecordIgnoresExtraCells(headers: seq<string>, row: Row, extra: Row)
    requires |row| >= |headers|
    ensures MakeRecord(headers, row + extra) == MakeRecord(headers, row)
  {
    assert Zip(headers, row + extra) == Zip(headers, row);
  }

  // ----- a sheet's records -----

  /** The data rows kept, in order: as many as the rows less the entirely
      empty ones. */
  function KeptRows(body: seq<Row>): (kept: seq<Row>)
    ensures |kept| == |body| - CountAllAbsent(body)
  {
    if body == [] then []
    else KeptRows(body[..|body| - 1]) + (if AllAbsent(body[|body| - 1]) then [] else [body[|body| - 1]])
  }

  /** The kept rows are exactly the rows that are not entirely empty. */
  lemma {:induction false} KeptRowsMembers(body: seq<Row>)
    ensures forall r :: r in KeptRows(body) <==> r in body && !AllAbsent(r)
  {
    if body != [] {
      var init := body[..|body| - 1];
      KeptRowsMembers(init);
      assert body == init + [body[|body| - 1]];
    }
  }

  function CountAllAbsent(body: seq<Row>): nat
  {
    if body == [] then 0
    else CountAllAbsent(body[..|body| - 1]) + (if AllAbsent(body[|body| - 1]) then 1 else 0)
  }

  /** The records of the data rows below the header row. */
  function BodyRecords(headers: seq<string>, body: seq<Row>): seq<Record>
  {
    if body == [] then []
    else
      var last := body[|body| - 1];
      BodyRecords(headers, body[..|body| - 1]) + (if AllAbsent(last) then [] else [MakeRecord(headers, last)])
  }

  /** The records of a sheet: none for a sheet without rows, otherwise one
      per data row that is not entirely empty. */
  function SheetRecords(rows: seq<Row>): (recs: seq<Record>)
    ensures |recs| == if rows == [] then 0 else |rows| - 1 - CountAllAbsent(rows[1..])
  {
    if rows == [] then []
    else
      BodyRecordsOfKeptRows(Headers(rows[0]), rows[1..]);
      BodyRecords(Headers(rows[0]), rows[1..])
  }

  /** One record per kept row, in order, built from that row. */
  lemma {:induction false} BodyRecordsOfKeptRows(headers: seq<string>, body: seq<Row>)
    ensures |BodyRecords(headers, body)| == |KeptRows(body)|
    ensures forall i :: 0 <= i < |KeptRows(body)| ==>
      BodyRecords(headers, body)[i] == MakeRecord(headers, KeptRows(body)[i])
  {
    if body != [] {
      BodyRecordsOfKeptRows(headers, body[..|body| - 1]);
    }
  }

  /** The inner loop of the extraction: skip empty rows, append a record for
      every other one. */
  method CollectRecords(headers: seq<string>, body: seq<Row>) returns (records: seq<Record>)
    ensures records == BodyRecords(headers, body)
  {
    records := [];
    for i := 0 to |body|
      invariant records == BodyRecords(headers, body[..i])
    {
      assert body[..i + 1][..i] == body[..i];
      var row := body[i];
      if AllAbsent(row) {
        continue;
      }
      records := records + [MakeRecord(headers, row)];
    }
    assert body[..|body|] == body;
  }

  /** The assignments the outer extraction loop makes, one per sheet. */
  function SheetEntries(workbook: seq<Sheet>): (es: seq<(string, seq<Record>)>)
    ensures |es| == |workbook|
  {
    seq(|workbook|, i requires 0 <= i < |workbook| => (workbook[i].name, SheetRecords(workbook[i].rows)))
  }

  function SheetNames(workbook: seq<Sheet>): (ns: seq<string>)
    ensures |ns| == |workbook|
  {
    seq(|workbook|, i requires 0 <= i < |workbook| => workbook[i].name)
  }

  /** Extracting a workbook with distinct sheet names into an empty table
      yields one entry per sheet, in workbook order. */
  lemma ExtractAllInOrder(workbook: seq<Sheet>)
    requires Unique(SheetNames(workbook))
    ensures PutAll([], SheetEntries(workbook)) == SheetEntries(workbook)
    ensures Keys(PutAll([], SheetEntries(workbook))) == SheetNames(workbook)
  {
    assert Keys(SheetEntries(workbook)) == SheetNames(workbook);
    PutAllFresh(SheetEntries(workbook));
  }

  /** The header row `["Name", None, "Age"]` gives `["Name", "Col_2", "Age"]`. */
  lemma HeadersExample()
    ensures Headers([Text("Name"), Absent, Text("Age")]) == ["Name", "Col_2", "Age"]
  {
    var first := [Text("Name"), Absent, Text("Age")];
    var hs := Headers(first);
    assert IntToString(2) == [DigitChar(2)] == "2";
    assert hs[0] == "Name" && hs[1] == "Col_2" && hs[2] == "Age";
  }

  /** The record of a full two-column row under two distinct headers. */
  lemma TwoColumnRecord(a: string, b: string, x: Cell, y: Cell)
    requires a != b && IsDisplay(x) && IsDisplay(y)
    ensures MakeRecord([a, b], [x, y]) == [(a, x), (b, y)]
  {
    var z := Zip([a, b], [x, y]);
    assert z == [(a, x), (b, y)];
    assert z[..1] == [(a, x)] && z[..1][..0] == [];
    assert PutAll([], z[..1]) == [(a, x)];
    assert Put([(a, x)], b, y) == [(a, x)] + Put([], b, y);
  }

  /** Appending a data row appends its record, unless it is entirely empty. */
  lemma BodyRecordsSnoc(headers: seq<string>, body: seq<Row>, row: Row)
    ensures BodyRecords(headers, body + [row]) ==
      BodyRecords(headers, body) + (if AllAbsent(row) then [] else [MakeRecord(headers, row)])
  {
    var b := body + [row];
    assert b[..|b| - 1] == body && b[|b| - 1] == row;
  }

  /** A sheet with header row `Name, Age` and data rows `Ann, 30`, an empty
      row and `Bo, 25` yields two records, in order. */
  lemma SheetExample()
    ensures var rows := [[Text("Name"), Text("Age")], [Text("Ann"), Int(30)], [Absent, Absent], [Text("Bo"), Int(25)]];
      SheetRecords(rows) == [[("Name", Text("Ann")), ("Age", Int(30))], [("Name", Text("Bo")), ("Age", Int(25))]]
  {
    var r1, r2, r3 := [Text("Ann"), Int(30)], [Absent, Absent], [Text("Bo"), Int(25)];
    var rows := [[Text("Name"), Text("Age")], r1, r2, r3];
    var hs := ["Name", "Age"];
    assert Headers(rows[0]) == hs;
    assert rows[1..] == [r1, r2] + [r3];
    assert [r1, r2] == [r1] + [r2];
    assert [r1] == [] + [r1];
    assert AllAbsent(r2) && !AllAbsent(r1) && !AllAbsent(r3) by {
      assert r1[0] == Text("Ann") && r3[0] == Text("Bo");
    }
    BodyRecordsSnoc(hs, [], r1);
    assert BodyRecords(hs, [r1]) == [MakeRecord(hs, r1)];
    BodyRecordsSnoc(hs, [r1], r2);
    assert BodyRecords(hs, [r1, r2]) == [MakeRecord(hs, r1)];
    BodyRecordsSnoc(hs, [r1, r2], r3);
    assert BodyRecords(hs, rows[1..]) == [MakeRecord(hs, r1), MakeRecord(hs, r3)];
    TwoColumnRecord("Name", "Age", Text("Ann"), Int(30));
    TwoColumnRecord("Name", "Age", Text("Bo"), Int(25));
    assert SheetRecords(rows) == BodyRecords(hs, rows[1..]);
  }
}
