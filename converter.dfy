/**
 * The converter object for one workbook file: `ExtractData` fills its sheet
 * table from the workbook's rows, and `ToHtml` builds the document by
 * appending markup piece by piece.
 */
module Converter {
  import opened Strings
  import opened Cells
  import opened OrderedDict
  import opened Extract
  import opened Render

  class ExcelToHtml {
    /** The input path's stem (file name without extension) and file name. */
    const stem: string
    const fileName: string
    /** Sheet name to the sheet's records, in workbook order. */
    var data: SheetTable

    constructor (stem: string, fileName: string)
      ensures this.stem == stem && this.fileName == fileName
      ensures data == []
    {
      this.stem := stem;
      this.fileName := fileName;
      data := [];
    }

    /** For each sheet, assigns its records to its name in the table. */
    method ExtractData(workbook: seq<Sheet>)
      modifies this
      ensures data == PutAll(old(data), SheetEntries(workbook))
    {
      for i := 0 to |workbook|
        invariant data == PutAll(old(data), SheetEntries(workbook)[..i])
      {
        assert SheetEntries(workbook)[..i + 1][..i] == SheetEntries(workbook)[..i];
        var sheet := workbook[i];
        var rows := sheet.rows;
        if rows == [] {
          data := Put(data, sheet.name, []);
          continue;
        }
        var headers := Headers(rows[0]);
        var sheetData := CollectRecords(headers, rows[1..]);
        data := Put(data, sheet.name, sheetData);
      }
      assert SheetEntries(workbook)[..|workbook|] == SheetEntries(workbook);
    }

    /** The document for the current table, built by appending to `html`. */
    method ToHtml(now: Instant, style: string, script: string) returns (html: string)
      ensures html == Document(stem, fileName, data, now, style, script)
    {
      var total := TotalRows(data);
      html := Head(stem, fileName, total, now, style);
      html := AppendTabs(html, Keys(data));
      html := html + TabsClose;
      html := AppendPanels(html, data);
      html := html + Trailer(script);
    }
  }

  /** The sheet loop: one panel per sheet, in table order. */
  method AppendPanels(start: string, data: SheetTable) returns (html: string)
    ensures html == start + Concat(Panels(data))
  {
    html := start;
    for i := 0 to |data|
      invariant html == start + Concat(Panels(data)[..i])
    {
      ConcatPrefix(Panels(data), i);
      Regroup(start, Concat(Panels(data)[..i]), Panels(data)[i]);
      html := AppendPanel(html, i, data[i].0, data[i].1);
    }
    assert Panels(data)[..|data|] == Panels(data);
  }

  /** The tab loop: one button per sheet name. */
  method AppendTabs(start: string, names: seq<string>) returns (html: string)
    ensures html == start + Concat(TabButtons(names))
  {
    html := start;
    for i := 0 to |names|
      invariant html == start + Concat(TabButtons(names)[..i])
    {
      ConcatPrefix(TabButtons(names), i);
      Regroup(start, Concat(TabButtons(names)[..i]), TabButton(i, names[i]));
      html := html + TabButton(i, names[i]);
    }
    assert TabButtons(names)[..|names|] == TabButtons(names);
  }

  /** One pass of the sheet loop: the panel of the sheet at position `i`. */
  method AppendPanel(start: string, i: nat, name: string, rows: seq<Record>) returns (html: string)
    ensures html == start + Panel(i, name, rows)
  {
    var sheetId := SheetId(name);
    if rows == [] {
      html := start + (PanelOpen(i, sheetId) + NoDataTail);
      return;
    }
    var headers := Keys(rows[0]);
    html := start + PanelOpen(i, sheetId) + TableOpen(sheetId);
    html := AppendHeaderCells(html, sheetId, headers);
    html := html + HeadToBody;
    ghost var bodyStart := html;
    for r := 0 to |rows|
      invariant html == bodyStart + Concat(TableRows(headers, rows)[..r])
    {
      ConcatPrefix(TableRows(headers, rows), r);
      Regroup(bodyStart, Concat(TableRows(headers, rows)[..r]), RowHtml(headers, rows[r]));
      html := AppendRow(html, headers, rows[r]);
    }
    assert TableRows(headers, rows)[..|rows|] == TableRows(headers, rows);
    html := html + Counter(|rows|);
    PanelAppended(start, PanelOpen(i, sheetId), TableOpen(sheetId), Concat(HeaderCells(sheetId, headers)),
      Concat(TableRows(headers, rows)), Counter(|rows|));
  }

  /** The header loop: one sortable header cell per column. */
  method AppendHeaderCells(start: string, sheetId: string, headers: seq<string>) returns (html: string)
    ensures html == start + Concat(HeaderCells(sheetId, headers))
  {
    html := start;
    for j := 0 to |headers|
      invariant html == start + Concat(HeaderCells(sheetId, headers)[..j])
    {
      ConcatPrefix(HeaderCells(sheetId, headers), j);
      Regroup(start, Concat(HeaderCells(sheetId, headers)[..j]), HeaderCells(sheetId, headers)[j]);
      html := html + HeaderCell(sheetId, j, headers[j]);
    }
    assert HeaderCells(sheetId, headers)[..|headers|] == HeaderCells(sheetId, headers);
  }

  /** The cell loop of one body row: one cell per column. */
  method AppendRow(start: string, headers: seq<string>, row: Record) returns (html: string)
    ensures html == start + RowHtml(headers, row)
  {
    html := start + "<tr>";
    for c := 0 to |headers|
      invariant html == start + "<tr>" + Concat(DataCells(row, headers)[..c])
    {
      ConcatPrefix(DataCells(row, headers), c);
      Regroup(start + "<tr>", Concat(DataCells(row, headers)[..c]), DataCells(row, headers)[c]);
      html := html + DataCell(row, headers[c]);
    }
    assert DataCells(row, headers)[..|headers|] == DataCells(row, headers);
    html := html + "</tr>";
    RowAppended(start, Concat(DataCells(row, headers)));
  }

  /** One file's conversion without its I/O: a fresh converter extracts the
      workbook's rows and renders them. With distinct sheet names the table
      holds one entry per sheet, in workbook order. */
  method Convert(stem: string, fileName: string, workbook: seq<Sheet>, now: Instant, style: string, script: string)
    returns (html: string)
    ensures html == Document(stem, fileName, PutAll([], SheetEntries(workbook)), now, style, script)
    ensures Unique(SheetNames(workbook)) ==> html == Document(stem, fileName, SheetEntries(workbook), now, style, script)
  {
    var converter := new ExcelToHtml(stem, fileName);
    converter.ExtractData(workbook);
    html := converter.ToHtml(now, style, script);
    UniqueNamesDocument(stem, fileName, workbook, now, style, script);
  }

  /** With distinct sheet names the table is the sheet entries themselves. */
  lemma UniqueNamesDocument(stem: string, fileName: string, workbook: seq<Sheet>, now: Instant, style: string, script: string)
    ensures Unique(SheetNames(workbook)) ==>
      Document(stem, fileName, PutAll([], SheetEntries(workbook)), now, style, script)
      == Document(stem, fileName, SheetEntries(workbook), now, style, script)
  {
    if Unique(SheetNames(workbook)) {
      ExtractAllInOrder(workbook);
    }
  }

  lemma RowAppended(start: string, cells: string)
    ensures start + "<tr>" + cells + "</tr>" == start + ("<tr>" + cells + "</tr>")
  {
  }

  lemma PanelAppended(before: string, open: string, table: string, heads: string, body: string, counter: string)
    ensures before + open + table + heads + HeadToBody + body + counter
      == before + (open + (table + heads + HeadToBody + body + counter))
  {
  }
}
