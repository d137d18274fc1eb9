/**
 * The markup the converter produces: a head with the file name, the total
 * row count and the conversion time; one tab button per sheet; one panel per
 * sheet holding either a "No data" notice or a table whose columns are the
 * keys of the sheet's first record; and the closing script block.
 */
module Render {
  import opened Wrappers
  import opened Strings
  import opened Cells
  import opened OrderedDict
  import opened Escape
  import opened Extract

  /** The converter's table: sheet name to records, in sheet order. */
  type SheetTable = Dict<string, seq<Record>>

  /** `sum(len(rows) for rows in data.values())` */
  function TotalRows(data: SheetTable): nat
  {
    if data == [] then 0 else TotalRows(data[..|data| - 1]) + |data[|data| - 1].1|
  }

  /** The rows a sheet contributes: its data rows that are not entirely empty. */
  function KeptCount(rows: seq<Row>): int
  {
    if rows == [] then 0 else |rows| - 1 - CountAllAbsent(rows[1..])
  }

  function WorkbookKept(workbook: seq<Sheet>): int
  {
    if workbook == [] then 0
    else WorkbookKept(workbook[..|workbook| - 1]) + KeptCount(workbook[|workbook| - 1].rows)
  }

  /** The reported total counts every data row of every sheet, less the rows
      that are entirely empty. */
  lemma {:induction false} TotalRowsCountsKeptRows(workbook: seq<Sheet>)
    requires Unique(SheetNames(workbook))
    ensures TotalRows(PutAll([], SheetEntries(workbook))) == WorkbookKept(workbook)
  {
    ExtractAllInOrder(workbook);
    EntriesTotal(workbook);
  }

  lemma {:induction false} EntriesTotal(workbook: seq<Sheet>)
    ensures TotalRows(SheetEntries(workbook)) == WorkbookKept(workbook)
  {
    if workbook != [] {
      var n, es := |workbook| - 1, SheetEntries(workbook);
      assert es[..n] == SheetEntries(workbook[..n]);
      assert |es[n].1| == KeptCount(workbook[n].rows);
      EntriesTotal(workbook[..n]);
      assert TotalRows(es) == TotalRows(es[..n]) + |es[n].1|;
    }
  }

  // ----- sheet identifiers -----

  /** A sheet's identifier: spaces become `_` and apostrophes are dropped,
      one character at a time, so the identifier has no space and no
      apostrophe and every other character of the name survives in order. */
  function SheetId(name: string): (r: string)
    ensures r == SheetIdRef(name)
    ensures ' ' !in r && '\'' !in r
    ensures |r| == |name| - Count(name, '\'')
  {
    SheetIdIsPerChar(name);
    RefClean(name);
    Replace(Replace(name, ' ', "_"), '\'', "")
  }

  /** The same derivation, one character at a time. */
  function SheetIdRef(name: string): string
  {
    if name == [] then ""
    else (if name[0] == ' ' then "_" else if name[0] == '\'' then "" else [name[0]]) + SheetIdRef(name[1..])
  }

  /** The two chained replacements act on each character independently. */
  lemma {:induction false} SheetIdIsPerChar(name: string)
    ensures Replace(Replace(name, ' ', "_"), '\'', "") == SheetIdRef(name)
  {
    if name != [] {
      var c := name[0];
      assert name == [c] + name[1..];
      ReplaceAppend([c], name[1..], ' ', "_");
      assert [c][1..] == [];
      var a, b := Replace([c], ' ', "_"), Replace(name[1..], ' ', "_");
      ReplaceAppend(a, b, '\'', "");
      if c == ' ' {
        assert a == "_";
        ReplaceAbsent(a, '\'', "");
      } else {
        assert a == [c];
        assert a[1..] == [];
      }
      SheetIdIsPerChar(name[1..]);
    }
  }

  lemma {:induction false} RefClean(name: string)
    ensures ' ' !in SheetIdRef(name) && '\'' !in SheetIdRef(name)
    ensures |SheetIdRef(name)| == |name| - Count(name, '\'')
  {
    if name != [] {
      RefClean(name[1..]);
    }
  }

  /** Distinct sheet names can share an identifier. */
  lemma SheetIdCollision()
    ensures SheetId("A B") == SheetId("A_B") == "A_B"
  {
    assert "A B"[1..] == " B" && " B"[1..] == "B" && "B"[1..] == "";
    assert "A_B"[1..] == "_B" && "_B"[1..] == "B";
  }

  // ----- pieces of the document -----

  function ActiveClass(i: nat): string
  {
    if i == 0 then " active" else ""
  }

  const TabClassPrefix := "<button class=\""

  function TabButton(i: nat, name: string): string
  {
    TabClassPrefix + ("tab" + ActiveClass(i)) + "\"" + TabRest(name)
  }

  function TabRest(name: string): string
  {
    " onclick=\"showSheet('" + name + "')\">" + EscapeHtml(name) + "</button>"
  }

  function TabButtons(names: seq<string>): (ts: seq<string>)
    ensures |ts| == |names|
  {
    seq(|names|, i requires 0 <= i < |names| => TabButton(i, names[i]))
  }

  /** The opening of a panel's class attribute, after its id. */
  function PanelClassPrefix(sid: string): string
  {
    "<div id=\"sheet_" + sid + "\" class=\""
  }

  function PanelOpen(i: nat, sid: string): string
  {
    PanelClassPrefix(sid) + ("sheet" + ActiveClass(i)) + "\"" + ">"
  }

  const NoDataTail := "<div class=\"empty\">No data</div></div>"

  /** The start of a header cell, up to its sort index. */
  function SortPrefix(sid: string): string
  {
    "<th onclick=\"sort('tbl_" + sid + "',"
  }

  function HeaderCell(sid: string, j: nat, h: string): string
  {
    SortPrefix(sid) + IntToString(j) + ")\">" + EscapeHtml(h) + "</th>"
  }

  function HeaderCells(sid: string, cols: seq<string>): (hs: seq<string>)
    ensures |hs| == |cols|
  {
    seq(|cols|, j requires 0 <= j < |cols| => HeaderCell(sid, j, cols[j]))
  }

  /** `str(row.get(h, ""))`: the value's text, or nothing for a missing key. */
  function CellText(rec: Record, h: string): string
  {
    PyStr(Get(rec, h).GetOr(Text("")))
  }

  function DataCell(rec: Record, h: string): string
  {
    "<td>" + EscapeHtml(CellText(rec, h)) + "</td>"
  }

  function DataCells(rec: Record, cols: seq<string>): (cs: seq<string>)
    ensures |cs| == |cols|
  {
    seq(|cols|, c requires 0 <= c < |cols| => DataCell(rec, cols[c]))
  }

  function RowHtml(cols: seq<string>, rec: Record): string
  {
    "<tr>" + Concat(DataCells(rec, cols)) + "</tr>"
  }

  function TableRows(cols: seq<string>, recs: seq<Record>): (rs: seq<string>)
    ensures |rs| == |recs|
  {
    seq(|recs|, r requires 0 <= r < |recs| => RowHtml(cols, recs[r]))
  }

  function TableOpen(sid: string): string
  {
    "<div class=\"table-wrap\"><table id=\"tbl_" + sid + "\"><thead><tr>"
  }

  const HeadToBody := "</tr></thead><tbody>"

  const RowsTail := " rows</div></div>"

  /** `Showing n of n rows` */
  function CounterTail(n: nat): string
  {
    "<div class=\"row-count\">Showing " + IntToString(n) + " of " + IntToString(n) + RowsTail
  }

  function Counter(n: nat): string
  {
    "</tbody></table></div>" + CounterTail(n)
  }

  /** The table's columns: the keys of the first record. */
  function Columns(recs: seq<Record>): seq<string>
    requires recs != []
  {
    Keys(recs[0])
  }

  /** The panel of the sheet at position `i`. */
  function Panel(i: nat, name: string, recs: seq<Record>): string
  {
    PanelOpen(i, SheetId(name)) + PanelBody(SheetId(name), recs)
  }

  /** A panel's content: the "No data" notice, or the table and its counter. */
  function PanelBody(sid: string, recs: seq<Record>): string
  {
    if recs == [] then
      NoDataTail
    else
      var cols := Columns(recs);
      TableOpen(sid) + Concat(HeaderCells(sid, cols)) + HeadToBody + Concat(TableRows(cols, recs)) + Counter(|recs|)
  }

  function Panels(data: SheetTable): (ps: seq<string>)
    ensures |ps| == |data|
  {
    seq(|data|, i requires 0 <= i < |data| => Panel(i, data[i].0, data[i].1))
  }

  /** Everything up to the opening of the tab bar. `style` is the text of the
      style sheet and `now` the moment of conversion. */
  function Head(stem: string, fileName: string, total: int, now: Instant, style: string): string
  {
    "<!DOCTYPE html>\n<html lang=\"en\">\n<head>\n    <meta charset=\"UTF-8\">\n"
    + "    <meta name=\"viewport\" content=\"width=device-width, initial-scale=1.0\">\n"
    + "    <title>" + EscapeHtml(stem) + "</title>\n    <style>" + style + "</style>\n</head>\n<body>\n"
    + "    <h1>" + EscapeHtml(stem) + "</h1>\n"
    + "    <p class=\"meta\">Source: " + EscapeHtml(fileName) + " | " + IntToString(total)
    + " rows | Converted: " + FormatMinute(now) + "</p>\n"
    + "    <div class=\"search-box\">\n"
    + "        <input type=\"text\" id=\"search\" placeholder=\"Search...\" oninput=\"filter()\">\n"
    + "    </div>\n    <div class=\"tabs\">"
  }

  const TabsClose := "</div>"

  /** The closing part: the client script (its text is `script`) and the end
      of the document. */
  function Trailer(script: string): string
  {
    "\n    <script>" + script + "</script>\n</body>\n</html>"
  }

  /** The whole document for the sheet table `data`. */
  function Document(stem: string, fileName: string, data: SheetTable, now: Instant, style: string, script: string): string
  {
    Head(stem, fileName, TotalRows(data), now, style) + Concat(TabButtons(Keys(data))) + TabsClose
      + Concat(Panels(data)) + Trailer(script)
  }

  // ----- the class attribute: exactly the first tab and panel are active -----

  /** The text up to the first double quote. */
  function UpToQuote(t: string): string
  {
    if t == [] || t[0] == '"' then "" else [t[0]] + UpToQuote(t[1..])
  }

  /** The value of the attribute whose opening `prefix` ends with `="`. */
  function AttrAfter(s: string, prefix: string): string
  {
    if prefix <= s then UpToQuote(s[|prefix|..]) else ""
  }

  lemma {:induction false} UpToQuoteOf(a: string, b: string)
    requires '"' !in a
    ensures UpToQuote(a + "\"" + b) == a
  {
    if a != [] {
      assert (a + "\"" + b)[1..] == a[1..] + "\"" + b;
      UpToQuoteOf(a[1..], b);
    }
  }

  /** An attribute whose value holds no double quote reads back as that value. */
  lemma AttrAfterOf(p: string, a: string, b: string)
    requires '"' !in a
    ensures AttrAfter(p + a + "\"" + b, p) == a
  {
    var s := p + a + "\"" + b;
    assert s[..|p|] == p;
    assert s[|p|..] == a + "\"" + b;
    UpToQuoteOf(a, b);
  }

  lemma Regroup(x: string, y: string, z: string)
    ensures x + y + z == x + (y + z)
  {
  }

  lemma RegroupFive(a: string, b: string, c: string, d: string, e: string)
    ensures a + b + c + d + e == a + (b + (c + (d + e)))
  {
  }

  /** A tab's class is `tab active` for the first tab and `tab` otherwise. */
  lemma TabClass(i: nat, name: string)
    ensures AttrAfter(TabButton(i, name), TabClassPrefix) == if i == 0 then "tab active" else "tab"
  {
    AttrAfterOf(TabClassPrefix, "tab" + ActiveClass(i), TabRest(name));
    TabActive(i);
  }

  lemma TabActive(i: nat)
    ensures "tab" + ActiveClass(i) == if i == 0 then "tab active" else "tab"
  {
  }

  /** Exactly the first tab button is marked active. */
  lemma FirstTabOnlyActive(names: seq<string>)
    ensures forall i :: 0 <= i < |names| ==>
      (AttrAfter(TabButtons(names)[i], TabClassPrefix) == "tab active" <==> i == 0)
  {
    forall i | 0 <= i < |names|
      ensures AttrAfter(TabButtons(names)[i], TabClassPrefix) == "tab active" <==> i == 0
    {
      TabClass(i, names[i]);
    }
  }

  lemma PanelOpenAttr(i: nat, sid: string, body: string)
    ensures AttrAfter(PanelOpen(i, sid) + body, PanelClassPrefix(sid)) == "sheet" + ActiveClass(i)
  {
    var p, a := PanelClassPrefix(sid), "sheet" + ActiveClass(i);
    var q, r := "\"", ">";
    assert PanelOpen(i, sid) == p + a + q + r;
    Regroup(p + a + q, r, body);
    AttrAfterOf(p, a, r + body);
  }

  lemma PanelClassAttr(i: nat, name: string, recs: seq<Record>)
    ensures AttrAfter(Panel(i, name, recs), PanelClassPrefix(SheetId(name))) == "sheet" + ActiveClass(i)
  {
    PanelOpenAttr(i, SheetId(name), PanelBody(SheetId(name), recs));
  }

  /** A panel's class is `sheet active` for the first sheet and `sheet` otherwise. */
  lemma PanelClass(i: nat, name: string, recs: seq<Record>)
    ensures AttrAfter(Panel(i, name, recs), PanelClassPrefix(SheetId(name))) == if i == 0 then "sheet active" else "sheet"
  {
    PanelClassAttr(i, name, recs);
    SheetActive(i);
  }

  lemma SheetActive(i: nat)
    ensures "sheet" + ActiveClass(i) == if i == 0 then "sheet active" else "sheet"
  {
  }

  /** Exactly the first sheet panel is marked active. */
  lemma FirstPanelOnlyActive(data: SheetTable)
    ensures forall i :: 0 <= i < |data| ==>
      (AttrAfter(Panels(data)[i], PanelClassPrefix(SheetId(data[i].0))) == "sheet active" <==> i == 0)
  {
    forall i | 0 <= i < |data|
      ensures AttrAfter(Panels(data)[i], PanelClassPrefix(SheetId(data[i].0))) == "sheet active" <==> i == 0
    {
      PanelClass(i, data[i].0, data[i].1);
    }
  }

  // ----- empty sheets and the row counter -----

  predicate EndsWith(s: string, suffix: string)
  {
    |suffix| <= |s| && s[|s| - |suffix|..] == suffix
  }

  lemma EndsWithAppend(a: string, b: string)
    ensures EndsWith(a + b, b)
  {
    assert (a + b)[|a + b| - |b|..] == b;
  }

  lemma EndsWithTrans(s: string, t: string, u: string)
    requires EndsWith(s, t) && EndsWith(t, u)
    ensures EndsWith(s, u)
  {
    assert s[|s| - |u|..] == s[|s| - |t|..][|t| - |u|..];
  }

  /** A panel ends with its body. */
  lemma PanelEndsWithBody(i: nat, name: string, recs: seq<Record>)
    ensures EndsWith(Panel(i, name, recs), PanelBody(SheetId(name), recs))
  {
    EndsWithAppend(PanelOpen(i, SheetId(name)), PanelBody(SheetId(name), recs));
  }

  /** A table body ends with the counter. */
  lemma BodyEndsWithCounter(sid: string, recs: seq<Record>)
    requires recs != []
    ensures EndsWith(PanelBody(sid, recs), CounterTail(|recs|))
  {
    var n := |recs|;
    var pre := TableOpen(sid) + Concat(HeaderCells(sid, Columns(recs))) + HeadToBody + Concat(TableRows(Columns(recs), recs));
    assert PanelBody(sid, recs) == pre + Counter(n);
    EndsWithAppend(pre, Counter(n));
    EndsWithAppend("</tbody></table></div>", CounterTail(n));
    EndsWithTrans(PanelBody(sid, recs), Counter(n), CounterTail(n));
  }

  lemma CounterEndsWithRows(n: nat)
    ensures EndsWith(CounterTail(n), RowsTail)
  {
    EndsWithAppend("<div class=\"row-count\">Showing " + IntToString(n) + " of " + IntToString(n), RowsTail);
  }

  /** The notice and the counter differ in their thirteenth character from the end. */
  lemma TailsDiffer()
    ensures |NoDataTail| >= 13 && |RowsTail| >= 13
    ensures NoDataTail[|NoDataTail| - 13] != RowsTail[|RowsTail| - 13]
  {
    assert RowsTail[|RowsTail| - 13] == 's';
    assert NoDataTail[|NoDataTail| - 13] == 'a';
  }

  /** A panel shows "No data" exactly when the sheet has no records. */
  lemma PanelNoData(i: nat, name: string, recs: seq<Record>)
    ensures EndsWith(Panel(i, name, recs), NoDataTail) <==> recs == []
  {
    var t := Panel(i, name, recs);
    PanelEndsWithBody(i, name, recs);
    if recs != [] {
      BodyEndsWithCounter(SheetId(name), recs);
      CounterEndsWithRows(|recs|);
      EndsWithTrans(t, PanelBody(SheetId(name), recs), CounterTail(|recs|));
      EndsWithTrans(t, CounterTail(|recs|), RowsTail);
      TailsDiffer();
    }
  }

  /** A sheet with records ends with the counter `Showing n of n rows`,
      where n is its number of records. */
  lemma PanelCounter(i: nat, name: string, recs: seq<Record>)
    requires recs != []
    ensures EndsWith(Panel(i, name, recs), CounterTail(|recs|))
    ensures CounterTail(|recs|) == "<div class=\"row-count\">Showing " + IntToString(|recs|) + " of " + IntToString(|recs|) + " rows</div></div>"
  {
    PanelEndsWithBody(i, name, recs);
    BodyEndsWithCounter(SheetId(name), recs);
    EndsWithTrans(Panel(i, name, recs), PanelBody(SheetId(name), recs), CounterTail(|recs|));
  }

  // ----- body rows read back -----

  /** The length of the text before the first `<`. */
  function TextLen(t: string): (n: nat)
    ensures n <= |t|
  {
    if t == [] || t[0] == '<' then 0 else 1 + TextLen(t[1..])
  }

  /** Reads the cells `<td>text</td>...</tr>`, decoding each cell's text. */
  function ParseCells(s: string): Option<seq<string>>
    decreases |s|
  {
    if s == "</tr>" then Some([])
    else if "<td>" <= s then
      var k := TextLen(s[4..]);
      var rest := s[4 + k..];
      if "</td>" <= rest then
        match ParseCells(rest[5..])
        case Some(cs) => Some([Unescape(s[4..4 + k])] + cs)
        case None => None
      else None
    else None
  }

  /** Reads one body row `<tr>...</tr>` back into its cell texts. */
  function ParseRow(s: string): Option<seq<string>>
  {
    if "<tr>" <= s then ParseCells(s[4..]) else None
  }

  /** What each cell of a row shows, column by column. */
  function CellTexts(cols: seq<string>, rec: Record): (ts: seq<string>)
    ensures |ts| == |cols|
  {
    seq(|cols|, c requires 0 <= c < |cols| => CellText(rec, cols[c]))
  }

  lemma {:induction false} TextLenStopsAtTag(e: string, rest: string)
    requires forall i :: 0 <= i < |e| ==> e[i] != '<'
    requires rest != [] && rest[0] == '<'
    ensures TextLen(e + rest) == |e|
  {
    if e != [] {
      assert (e + rest)[1..] == e[1..] + rest;
      TextLenStopsAtTag(e[1..], rest);
    }
  }

  /** One cell `<td>e</td>` in front of the rest of the row. */
  lemma ParseCellStep(e: string, x: string)
    requires forall i :: 0 <= i < |e| ==> e[i] != '<'
    ensures ParseCells("<td>" + e + "</td>" + x) ==
      if ParseCells(x).Some? then Some([Unescape(e)] + ParseCells(x).value) else None
  {
    var s := "<td>" + e + "</td>" + x;
    var rest := "</td>" + x;
    assert s[1] == 't';
    assert s != "</tr>";
    assert s[..4] == "<td>";
    assert s[4..] == e + rest;
    TextLenStopsAtTag(e, rest);
    var k := TextLen(s[4..]);
    assert k == |e|;
    assert s[4..4 + k] == e;
    assert s[4 + k..] == rest;
    assert rest[..5] == "</td>";
    assert rest[5..] == x;
    assert ParseCells(s) == match ParseCells(x)
      case Some(cs) => Some([Unescape(e)] + cs)
      case None => None;
  }

  /** One data cell in front of the rest of the row reads back as its text. */
  lemma DataCellStep(rec: Record, h: string, x: string)
    ensures ParseCells(DataCell(rec, h) + x) ==
      if ParseCells(x).Some? then Some([CellText(rec, h)] + ParseCells(x).value) else None
  {
    ParseCellStep(EscapeHtml(CellText(rec, h)), x);
  }

  lemma DataCellsCons(rec: Record, cols: seq<string>)
    requires cols != []
    ensures Concat(DataCells(rec, cols)) == DataCell(rec, cols[0]) + Concat(DataCells(rec, cols[1..]))
  {
    ConcatCons(DataCells(rec, cols));
    DataCellsTail(rec, cols);
  }

  lemma DataCellsTail(rec: Record, cols: seq<string>)
    requires cols != []
    ensures DataCells(rec, cols)[1..] == DataCells(rec, cols[1..])
  {
    var cells, rest := DataCells(rec, cols), DataCells(rec, cols[1..]);
    assert |cells[1..]| == |rest|;
    forall k | 0 <= k < |rest|
      ensures cells[1..][k] == rest[k]
    {
      var h := cols[k + 1];
      assert cols[1..][k] == h;
      assert rest[k] == DataCell(rec, h) == cells[k + 1];
    }
  }

  lemma CellTextsCons(rec: Record, cols: seq<string>)
    requires cols != []
    ensures CellTexts(cols, rec) == [CellText(rec, cols[0])] + CellTexts(cols[1..], rec)
  {
  }

  lemma {:induction false} CellsRoundTrip(cols: seq<string>, rec: Record)
    ensures ParseCells(Concat(DataCells(rec, cols)) + "</tr>") == Some(CellTexts(cols, rec))
  {
    if cols == [] {
      assert Concat(DataCells(rec, cols)) == "";
    } else {
      var d, y := DataCell(rec, cols[0]), Concat(DataCells(rec, cols[1..]));
      DataCellsCons(rec, cols);
      CellTextsCons(rec, cols);
      Regroup(d, y, "</tr>");
      DataCellStep(rec, cols[0], y + "</tr>");
      CellsRoundTrip(cols[1..], rec);
    }
  }

  /** A body row holds one cell per column, each showing the text of the
      record's value for that column, empty when the record lacks the key. */
  lemma RowRoundTrip(cols: seq<string>, rec: Record)
    ensures ParseRow(RowHtml(cols, rec)) == Some(CellTexts(cols, rec))
  {
    var c := Concat(DataCells(rec, cols));
    Regroup("<tr>", c, "</tr>");
    ParseRowOpen(c + "</tr>");
    CellsRoundTrip(cols, rec);
  }

  lemma ParseRowOpen(x: string)
    ensures ParseRow("<tr>" + x) == ParseCells(x)
  {
    assert ("<tr>" + x)[..4] == "<tr>" && ("<tr>" + x)[4..] == x;
  }

  /** Every body row of a sheet's table reads back as one cell per column
      of the first record, in the order of the records. */
  lemma TableRowsRoundTrip(recs: seq<Record>)
    requires recs != []
    ensures forall r :: 0 <= r < |recs| ==>
      ParseRow(TableRows(Columns(recs), recs)[r]) == Some(CellTexts(Columns(recs), recs[r]))
  {
    forall r | 0 <= r < |recs|
      ensures ParseRow(TableRows(Columns(recs), recs)[r]) == Some(CellTexts(Columns(recs), recs[r]))
    {
      RowRoundTrip(Columns(recs), recs[r]);
    }
  }

  // ----- header cells read back -----

  /** The length of the run of decimal digits at the front of `t`. */
  function DigitsLen(t: string): (n: nat)
    ensures n <= |t|
  {
    if t == [] || !IsDigit(t[0]) then 0 else 1 + DigitsLen(t[1..])
  }

  /** Reads a header cell of the table `tbl_<sid>` back into the column
      index its click sorts by and its decoded text. */
  function ParseHeaderCell(sid: string, t: string): Option<(int, string)>
  {
    var p := SortPrefix(sid);
    if p <= t then ParseSortIndex(t[|p|..]) else None
  }

  /** Reads `<digits>")>text</th>`. */
  function ParseSortIndex(u: string): Option<(int, string)>
  {
    var k := DigitsLen(u);
    var v := u[k..];
    if ")\">" <= v then
      match ParseHeaderText(v[3..])
      case Some(x) => Some((ParseNat(u[..k]), x))
      case None => None
    else None
  }

  /** Reads `text</th>`, decoding the text. */
  function ParseHeaderText(w: string): Option<string>
  {
    var m := TextLen(w);
    if w[m..] == "</th>" then Some(Unescape(w[..m])) else None
  }

  lemma {:induction false} DigitsLenStops(d: string, rest: string)
    requires AllDigits(d)
    requires rest != [] && !IsDigit(rest[0])
    ensures DigitsLen(d + rest) == |d|
  {
    if d != [] {
      assert (d + rest)[1..] == d[1..] + rest;
      DigitsLenStops(d[1..], rest);
    }
  }

  lemma HeaderTextParts(e: string)
    requires forall i :: 0 <= i < |e| ==> e[i] != '<'
    ensures ParseHeaderText(e + "</th>") == Some(Unescape(e))
  {
    var tail := "</th>";
    var w := e + tail;
    TextLenStopsAtTag(e, tail);
    assert w[..|e|] == e && w[|e|..] == tail;
  }

  lemma SortIndexParts(d: string, x: string)
    requires AllDigits(d)
    ensures ParseSortIndex(d + (")\">" + x)) ==
      if ParseHeaderText(x).Some? then Some((ParseNat(d), ParseHeaderText(x).value)) else None
  {
    var close := ")\">";
    var v := close + x;
    var u := d + v;
    DigitsLenStops(d, v);
    assert u[..|d|] == d && u[|d|..] == v;
    assert v[..3] == close && v[3..] == x;
  }

  lemma PrefixParts(sid: string, u: string)
    ensures ParseHeaderCell(sid, SortPrefix(sid) + u) == ParseSortIndex(u)
  {
    var p := SortPrefix(sid);
    assert (p + u)[..|p|] == p && (p + u)[|p|..] == u;
  }

  /** A header cell built from digits `d` and markup-free text `e`. */
  lemma HeaderCellParts(sid: string, d: string, e: string)
    requires AllDigits(d)
    requires forall i :: 0 <= i < |e| ==> e[i] != '<'
    ensures ParseHeaderCell(sid, SortPrefix(sid) + (d + (")\">" + (e + "</th>")))) == Some((ParseNat(d), Unescape(e)))
  {
    PrefixParts(sid, d + (")\">" + (e + "</th>")));
    SortIndexParts(d, e + "</th>");
    HeaderTextParts(e);
  }

  /** A header cell reads back as its column index and its header text. */
  lemma HeaderCellRoundTrip(sid: string, j: nat, h: string)
    ensures ParseHeaderCell(sid, HeaderCell(sid, j, h)) == Some((j, h))
  {
    var p, d, e := SortPrefix(sid), NatToString(j), EscapeHtml(h);
    assert HeaderCell(sid, j, h) == p + d + ")\">" + e + "</th>";
    RegroupFive(p, d, ")\">", e, "</th>");
    HeaderCellParts(sid, d, e);
    NatToStringRoundTrip(j);
  }

  /** The j-th header cell of a sheet's table sorts by column j and shows
      the j-th key of the first record. */
  lemma HeaderRowRoundTrip(sid: string, recs: seq<Record>)
    requires recs != []
    ensures forall j :: 0 <= j < |Columns(recs)| ==>
      ParseHeaderCell(sid, HeaderCells(sid, Columns(recs))[j]) == Some((j, Columns(recs)[j]))
  {
    forall j | 0 <= j < |Columns(recs)|
      ensures ParseHeaderCell(sid, HeaderCells(sid, Columns(recs))[j]) == Some((j, Columns(recs)[j]))
    {
      HeaderCellRoundTrip(sid, j, Columns(recs)[j]);
    }
  }

  /** For a sheet whose header row has distinct headers and whose first kept
      row is at least as wide, the table's columns are the headers. */
  lemma ColumnsAreHeaders(rows: seq<Row>)
    requires rows != [] && KeptRows(rows[1..]) != []
    requires Unique(Headers(rows[0]))
    requires |KeptRows(rows[1..])[0]| >= |rows[0]|
    ensures SheetRecords(rows) != [] && Columns(SheetRecords(rows)) == Headers(rows[0])
  {
    BodyRecordsOfKeptRows(Headers(rows[0]), rows[1..]);
    RecordKeysAreHeaders(Headers(rows[0]), KeptRows(rows[1..])[0]);
  }
}
