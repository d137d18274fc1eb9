# Excel-to-HTML converter, modelled in Dafny

This project models the conversion core of the `ExcelToHtml` class of the
xlsx-to-html skill. The class turns the sheets of a spreadsheet workbook into
one self-contained HTML page with a tab per sheet and a table per sheet.

The model takes the rows the workbook reader has already produced. It covers
four steps:

- **Cell normalisation** (`Cells`). A raw cell is one of: absent, text,
  integer, boolean, float, date, date-time or time. An absent cell becomes
  `""`. A date-time becomes `YYYY-MM-DD HH:MM`. A date becomes `YYYY-MM-DD`.
  Every other value passes through. `PyStr` gives Python's `str()` of each
  kind, and `Falsy` gives its truthiness.
- **Sheet extraction** (`Extract`, and `ExcelToHtml.ExtractData`). The first
  row gives the headers, with a `Col_<i>` placeholder for an empty cell.
  Rows whose cells are all absent are skipped. Every other row is zipped with
  the headers into an insertion-ordered dictionary (`OrderedDict`). So cells
  past the header width are dropped, and a repeated header keeps the later
  value.
- **HTML escaping** (`Escape`). Four chained replacements, `&` first, then
  `<`, `>` and `"`. A falsy non-string value becomes `""`.
- **Document rendering** (`Render`, and `ExcelToHtml.ToHtml`). The model
  builds the head with the total row count and one tab button per sheet,
  with only the first marked `active`. Then one panel per sheet: a "No data"
  notice, or a table whose columns are the keys of the sheet's first record,
  one cell per column in every row, and a `Showing n of n rows` counter.

The source builds its table and its document imperatively, and so does the
model. `ExcelToHtml` is a class whose `data` field `ExtractData` reassigns
sheet by sheet. Its inner loop is `CollectRecords`. `ToHtml` appends to a
string. Its nested loops over sheets, header cells, rows and cells are the
helper methods `AppendTabs`, `AppendPanels`, `AppendPanel`, `AppendHeaderCells` and
`AppendRow`. Each method is proved equal to a specification function
(`BodyRecords`, `Document`, `Panel`, `RowHtml`, …). The lemmas then state what
those functions promise.

Some behaviour of the code is worth stating up front:

- The table columns are the keys of the first record
  (`skills/xlsx-to-html/xlsx_to_web.py:162`), not the headers derived from
  the first row. The two coincide when the headers are distinct and the
  first kept row is full width (`ColumnsAreHeaders`).
- Extraction keeps only the records (line 77). The headers are not stored.
- Sheet names are placed raw (unescaped) in the tab's `onclick` attribute
  and in the panel's `id` (lines 149, 156, 159, 163).
- Two names can map to the same identifier (`SheetIdCollision`).

## Model

| member | source | states |
|---|---|---|
| Cells.Normalise | skills/xlsx-to-html/xlsx_to_web.py:46-54 | The result is never absent, a date or a date-time. An absent cell gives `""`. A date gives text that reads back as its year, month and day. A date-time gives text that reads back as its year, month, day, hour and minute. Any other value is returned unchanged. |
| Cells.NormaliseDateTimeMinutePrecision | skills/xlsx-to-html/xlsx_to_web.py:50-51 | Two date-times normalise alike exactly when they agree on year, month, day, hour and minute, so seconds are dropped and nothing else is. |
| Cells.DateTimeBranchFirst | skills/xlsx-to-html/xlsx_to_web.py:50-53 | A date-time goes through the date-time branch before the date test: 16 characters, starting with its date. |
| Cells.NormaliseIdempotent | skills/xlsx-to-html/xlsx_to_web.py:46-54 | Normalising a normalised value changes nothing. |
| Cells.FormatDateRoundTrip | skills/xlsx-to-html/xlsx_to_web.py:53 | `%Y-%m-%d` text parses back to the date's fields. |
| Cells.FormatMinuteRoundTrip | skills/xlsx-to-html/xlsx_to_web.py:51 | `%Y-%m-%d %H:%M` text parses back to the year, month, day, hour and minute. |
| Cells.Falsy | skills/xlsx-to-html/xlsx_to_web.py:81-82 | Python truthiness: `None`, `0`, `False`, a zero float and `""` are falsy, and every other value is truthy. `Escape.EscapeValue` ties it to an empty result. |
| Cells.PyStr | skills/xlsx-to-html/xlsx_to_web.py:67 | `str()` of a cell that is not text is never empty. |
| Strings.IntToStringRoundTrip | skills/xlsx-to-html/xlsx_to_web.py:67 | The decimal text of an integer (placeholders, counts) parses back to that integer. |
| Strings.IntToStringInjective | skills/xlsx-to-html/xlsx_to_web.py:176 | Different integers have different decimal texts. |
| Strings.FixedRoundTrip | skills/xlsx-to-html/xlsx_to_web.py:51 | A zero-padded field of width w holds every value below 10^w exactly. |
| Strings.Replace | skills/xlsx-to-html/xlsx_to_web.py:83-84 | `str.replace` with a one-character needle, left to right. When the substitute does not contain the needle, no needle is left in the result. |
| Strings.ReplaceAbsent | skills/xlsx-to-html/xlsx_to_web.py:83-84 | Replacing a character that does not occur leaves the text unchanged. |
| Strings.ReplaceAppend | skills/xlsx-to-html/xlsx_to_web.py:83-84 | One-character replacement distributes over concatenation. |
| Escape.EscapeHtml | skills/xlsx-to-html/xlsx_to_web.py:83-84 | The result equals escaping each character on its own (`EscapeRef`). It holds no raw `<`, `>` or `"`. Every `&` in it begins `&amp;`, `&lt;`, `&gt;` or `&quot;`. Its length is the input length + 4·#`&` + 3·#`<` + 3·#`>` + 5·#`"`. Decoding the four entities gives back the input. |
| Escape.ChainIsPerChar | skills/xlsx-to-html/xlsx_to_web.py:83-84 | The four chained replacements, with `&` first, escape each character independently: no entity a later step produces is escaped again. |
| Escape.EscapeValue | skills/xlsx-to-html/xlsx_to_web.py:79-84 | A string is escaped as it is. Any other value is escaped as its `str()` text, or as `""` when it is falsy. The result is empty exactly when the value is falsy. It holds no raw `<`, `>` or `"`, and every `&` in it begins an entity. Decoding it gives `""` for a falsy value and the value's `str()` text otherwise. |
| Escape.AmpersandOrderMatters | skills/xlsx-to-html/xlsx_to_web.py:83-84 | `<` escapes to `&lt;`; with `&` replaced last it would become `&amp;lt;`. |
| Escape.EscapePlainUnchanged | skills/xlsx-to-html/xlsx_to_web.py:83-84 | Text with none of the four characters is returned unchanged. |
| OrderedDict.Put | skills/xlsx-to-html/xlsx_to_web.py:77 | `d[k] = v`: a new key goes to the end of the key order, and an existing key keeps its place. |
| OrderedDict.Get | skills/xlsx-to-html/xlsx_to_web.py:172 | `d.get(k)` finds a value exactly when `k` is among the keys. |
| OrderedDict.PutGet | skills/xlsx-to-html/xlsx_to_web.py:77 | After `d[k] = v`, `d.get(k)` is `v` and every other key is unchanged. |
| OrderedDict.PutAllGet | skills/xlsx-to-html/xlsx_to_web.py:74 | After a run of assignments, each key holds the last value assigned to it. A key never assigned keeps its old value. |
| OrderedDict.PutAllKeys | skills/xlsx-to-html/xlsx_to_web.py:74 | After a run of assignments, the keys are the old keys followed by the new ones, in order of first assignment. |
| OrderedDict.PutAllFresh | skills/xlsx-to-html/xlsx_to_web.py:58-77 | Assignments of distinct keys to an empty dict just list them in order. |
| Extract.Headers | skills/xlsx-to-html/xlsx_to_web.py:67 | One header per cell of the first row. `HeaderText` names each cell; `HeaderMeaning` and `PlaceholdersDistinct` state what the names are. |
| Extract.HeaderMeaning | skills/xlsx-to-html/xlsx_to_web.py:67 | A present header cell is named by its `str()` text. An empty one is named `Col_<i>`, and its 1-based position i reads back from the name. |
| Extract.PlaceholdersDistinct | skills/xlsx-to-html/xlsx_to_web.py:67 | Placeholder headers of two empty cells never coincide. |
| Extract.HeadersExample | skills/xlsx-to-html/xlsx_to_web.py:67 | `["Name", None, "Age"]` gives headers `["Name", "Col_2", "Age"]`. |
| Extract.Zip | skills/xlsx-to-html/xlsx_to_web.py:74 | `zip` stops at the shorter of headers and row. Its keys are the leading headers, in order. |
| Extract.MakeRecord | skills/xlsx-to-html/xlsx_to_web.py:74 | The dict comprehension over the zip. The record's keys are the headers of the zipped columns, each once, in order of first appearance. |
| Extract.RecordKeysAreHeaders | skills/xlsx-to-html/xlsx_to_web.py:74 | With distinct headers and a row at least as wide, a record's keys are exactly the headers. |
| Extract.RecordValue | skills/xlsx-to-html/xlsx_to_web.py:74 | The value under column k's header is column k's normalised cell when no later zipped column repeats the header. So with a duplicate header the later value wins. |
| Extract.RecordMissing | skills/xlsx-to-html/xlsx_to_web.py:74 | A header beyond a short row's width has no entry in its record. |
| Extract.RecordIgnoresExtraCells | skills/xlsx-to-html/xlsx_to_web.py:74 | Cells beyond the header width do not change the record. |
| Extract.TwoColumnRecord | skills/xlsx-to-html/xlsx_to_web.py:74 | A full row under two distinct headers becomes the two pairs, in column order. |
| Extract.KeptRows | skills/xlsx-to-html/xlsx_to_web.py:71-73 | The number of kept data rows is the number of rows less the all-absent ones. |
| Extract.KeptRowsMembers | skills/xlsx-to-html/xlsx_to_web.py:71-73 | A row is kept exactly when it is a data row that is not entirely absent. |
| Extract.BodyRecordsOfKeptRows | skills/xlsx-to-html/xlsx_to_web.py:70-75 | There is one record per kept row, in row order, each built from that row. |
| Extract.SheetRecords | skills/xlsx-to-html/xlsx_to_web.py:62-75 | A sheet without rows has no records. Otherwise the record count = data rows − all-absent rows. |
| Extract.SheetExample | skills/xlsx-to-html/xlsx_to_web.py:58-77 | Header `Name, Age` over rows `Ann, 30` / empty / `Bo, 25` gives exactly the two records for Ann and Bo. |
| Extract.CollectRecords | skills/xlsx-to-html/xlsx_to_web.py:70-75 | The loop skips all-absent rows and appends one record per other row. The result equals the sheet's specified records. |
| Extract.ExtractAllInOrder | skills/xlsx-to-html/xlsx_to_web.py:58-77 | With distinct sheet names, the table holds one entry per sheet, in workbook order. |
| Render.TotalRows | skills/xlsx-to-html/xlsx_to_web.py:88 | The sum of the record counts over the table. `TotalRowsCountsKeptRows` relates it to the workbook. |
| Render.TotalRowsCountsKeptRows | skills/xlsx-to-html/xlsx_to_web.py:88 | The reported total = the sum over sheets of (data rows − all-absent rows). |
| Render.SheetId | skills/xlsx-to-html/xlsx_to_web.py:156 | The identifier is the per-character derivation (`SheetIdRef`): each space becomes `_` and each apostrophe is dropped. It contains no space and no apostrophe. Its length is the name's length less its apostrophes. |
| Render.SheetIdIsPerChar | skills/xlsx-to-html/xlsx_to_web.py:156 | The two chained replacements act per character: each space becomes `_`, each apostrophe is dropped, and every other character is kept. |
| Render.SheetIdCollision | skills/xlsx-to-html/xlsx_to_web.py:156 | `"A B"` and `"A_B"` get the same id. |
| Render.TabButtons | skills/xlsx-to-html/xlsx_to_web.py:147-149 | One tab button per sheet name, in order. `TabButton` builds each; `TabClass` and `FirstTabOnlyActive` state their class attribute. |
| Render.TabClass | skills/xlsx-to-html/xlsx_to_web.py:147-149 | A tab's class attribute is `tab active` for the first sheet and `tab` otherwise. |
| Render.FirstTabOnlyActive | skills/xlsx-to-html/xlsx_to_web.py:147-149 | Exactly the first tab button is marked active. |
| Render.Panel | skills/xlsx-to-html/xlsx_to_web.py:153-176 | A sheet's panel: its opening `div`, then the "No data" notice or the table and its counter (`PanelBody`). `PanelClass`, `PanelNoData` and `PanelCounter` state what it holds. |
| Render.PanelClass | skills/xlsx-to-html/xlsx_to_web.py:154-163 | A panel's class attribute is `sheet active` for the first sheet and `sheet` otherwise. |
| Render.FirstPanelOnlyActive | skills/xlsx-to-html/xlsx_to_web.py:154-163 | Exactly the first sheet panel is marked active. |
| Render.PanelNoData | skills/xlsx-to-html/xlsx_to_web.py:158-160 | A panel ends with the "No data" notice exactly when the sheet has no records. |
| Render.PanelCounter | skills/xlsx-to-html/xlsx_to_web.py:176 | A panel with records ends with `Showing n of n rows`, where n is its record count. |
| Render.CellText | skills/xlsx-to-html/xlsx_to_web.py:172-173 | What a body cell shows: the `str()` text of the record's value for the column, or `str("")` when the key is missing (`dict.get` with a default). `RowRoundTrip` reads it back. |
| Render.HeaderCellRoundTrip | skills/xlsx-to-html/xlsx_to_web.py:166 | A header cell reads back as the column index its click sorts by and its decoded header text. |
| Render.HeaderRowRoundTrip | skills/xlsx-to-html/xlsx_to_web.py:164-167 | The j-th header cell of a table sorts by column j and shows the j-th key of the first record. |
| Render.RowRoundTrip | skills/xlsx-to-html/xlsx_to_web.py:169-174 | A body row reads back as one cell per column. Each cell is the `str()` text of the record's value, or empty when the key is missing. |
| Render.TableRowsRoundTrip | skills/xlsx-to-html/xlsx_to_web.py:162-174 | Each body row of a table, in record order, reads back as one cell per key of the first record. |
| Render.ColumnsAreHeaders | skills/xlsx-to-html/xlsx_to_web.py:162 | With distinct headers and a full-width first kept row, the table columns are the headers. |
| Render.Document | skills/xlsx-to-html/xlsx_to_web.py:86-221 | The whole page: the head (`Head`, lines 90-144), the tab bar, one panel per table entry, and the trailer with the script (`Trailer`, lines 178-220). `ToHtml` is proved to build it. |
| Converter.ExcelToHtml.constructor | skills/xlsx-to-html/xlsx_to_web.py:31-35 | A new converter has an empty sheet table. |
| Converter.ExcelToHtml.ExtractData | skills/xlsx-to-html/xlsx_to_web.py:56-77 | Each sheet's records (none for a sheet without rows) are assigned to its name in the table. |
| Converter.ExcelToHtml.ToHtml | skills/xlsx-to-html/xlsx_to_web.py:86-221 | The appended text is the specified document: head with total, tab bar, one panel per sheet, closing script. |
| Converter.AppendTabs | skills/xlsx-to-html/xlsx_to_web.py:147-151 | The tab loop appends one button per sheet name, in order. |
| Converter.AppendPanels | skills/xlsx-to-html/xlsx_to_web.py:153-176 | The sheet loop appends one panel per sheet, in table order. |
| Converter.AppendPanel | skills/xlsx-to-html/xlsx_to_web.py:153-176 | One pass of the sheet loop appends exactly that sheet's panel. |
| Converter.AppendHeaderCells | skills/xlsx-to-html/xlsx_to_web.py:164-167 | The header loop appends one sortable header cell per column, with its index. |
| Converter.AppendRow | skills/xlsx-to-html/xlsx_to_web.py:169-174 | The cell loop appends exactly one row's markup: one cell per column. |
| Converter.Convert | skills/xlsx-to-html/xlsx_to_web.py:42-44 | Extracting then rendering a workbook gives the document of its sheet entries. With distinct sheet names there is one entry per sheet, in workbook order. |

## Left out

- Workbook loading through the spreadsheet library and the file-existence check (lines 39-42). These are I/O and a foreign library. The model takes the rows as input (`Sheet`).
- `save` (lines 223-228) and the command-line driver `main` (lines 231-254): directory creation, file writing, globbing, argument parsing and printing.
- The style sheet and the embedded script are the parameters `style` and `script` of `Document`. Their browser behaviour is not modelled: search filtering, highlighting, numeric/locale sorting and tab switching through the global `event`.
- The `Converted:` clock reading (line 140) is the parameter `now`.
- The input path's stem and name are given as `stem` and `fileName`, not derived from a path.
- Float text: a `Float` cell carries its `str()` text, because the model does not format floating point. It is falsy exactly when that text is `0.0` or `-0.0`.
- Instant and Time: date-time and time cells carry no microseconds. So `str()` of a time cell (in a body cell, line 173, or a header, line 67) and of a date-time header cell never shows the `.ffffff` part.
- Cells.FormatDate: years are zero-padded to four digits, as `str()` does. The platform `strftime` may leave years below 1000 unpadded. Spreadsheet dates never fall there.
- Cells: day-of-month validity (such as 30 February) is not checked. Only field ranges are.
- Other value kinds the reader may return, such as durations, are not modelled. They would pass through normalisation like any other non-date value.
