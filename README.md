# Lease document merge — a Dafny model of `dashboard.py`

The lease dashboard takes the text of an uploaded lease PDF, one string per
page, and an uploaded Excel workbook. `process_excel` reads four fields from
the first page with `extract_information`:

- the ATC region;
- the lessee site number;
- the monthly total;
- the renewal-term commencement date.

It then appends them as one new row of the sheet "Additions and Modification",
creating that sheet if it is missing. It saves the workbook, records the
upload in the module-level `backup_history` list, and returns a one-row
summary. Any exception raised before the history append (dashboard.py:70)
yields an empty summary and no workbook, and leaves the history alone.

The model has one module per part of that pipeline:

- `Wrappers`: `Option` and `Result`.
- `PyText`: Python's `str.isspace` set and `str.strip()`, written as the two
  index scans CPython performs.
- `Patterns`: the three regular-expression shapes the extraction uses, as
  scans.
  - `\s+(.+)` with backtracking of the greedy whitespace run.
  - ` (.+)`.
  - The lazy ` (.+?) R`.
  - `Matches` is a declarative reading of each shape. The scan `MatchAt` is
    proved to find exactly those matches.
  - `Search` is proved to return the group of the leftmost match.
- `Extraction`: `extract_information` as `ExtractInformation`, a `Result`
  whose error names the first field whose search found nothing. That is where
  Python raises `AttributeError`.
- `Sheets`: the openpyxl objects process_excel touches.
  - A sheet is a sparse cell map with `max_row` / `max_column`. Both are at
    least 1, and `sheet[1]` yields `max_column` cells.
  - `Workbook` is a class whose `sheetNames` and `sheets` fields the methods
    `CreateSheet` and `Cell` update in place.
  - `Cell` creates the cell first, keeps at most 32767 characters of a string,
    and after the cut refuses the control characters 0x00-0x08, 0x0B, 0x0C
    and 0x0E-0x1F; tab, line feed and carriage return pass.
- `Columns`: the header lookup of lines 47-51, which is `list.index` plus a
  fixed offset per absent field.
- `Merging`: the whole of `process_excel` as one value-level function,
  `Merge`, and the lemmas about it.
  - Sheet selection or creation.
  - Extraction of the first page.
  - The header snapshot.
  - The write row `max_row + 1`.
  - The four writes in source order.
- `Dashboard`: the imperative process_excel.
  - `Session` holds `backup_history`.
  - `Session.ProcessExcel` loads a `Workbook`, creates the sheet, writes the
    four cells and appends the history entry step by step.
  - Its contract ties the outcome to `Merging.Merge`, on success and on
    failure.

What the code does, and the model with it:

- An absent field's column is `len(headers)` plus a fixed offset (1 to 4,
  one per field), all four taken from one header snapshot.
- No header label is ever written, so a field whose name is missing from
  row 1 is still missing at every later upload, and on a sheet whose row 1
  names none of the four fields every field goes past the last column
  (`AppendWithoutHeaders`). A freshly created sheet reads one empty header cell
  and `max_row == 1`, so its first row goes to row 2, columns 2 to 5; every
  further upload into that sheet lands one row lower and four columns
  further right (row 3 goes to columns 6 to 9).
- The monthly total is the shortest non-empty text after the label's blank that
  " R" follows on the same line.
- A field whose captured text is all whitespace strips to the empty string,
  and that empty string is filed.
- `\s` and `strip()` use Python's `str.isspace` set (29 code points).
- `sheet.cell` raises for a row past 1,048,576, the last row a worksheet
  can address, so a sheet that already reaches it makes the merge give up.

## Model

| member | source | states |
|---|---|---|
| PyText.SkipSpace | dashboard.py:13-16 | the forward scan of `strip()` stops at the first non-whitespace character at or after i, or at the end |
| PyText.IsSpace | dashboard.py:13-16 | the characters `\s` matches and `strip()` removes: the 29 code points of `str.isspace`; used by SkipSpace, SkipSpaceBack, Strip and SpaceRun |
| PyText.SkipSpaceBack | dashboard.py:13-16 | the backward scan of `strip()` stops just after the last non-whitespace character above the lower bound, or at the bound |
| PyText.Strip | dashboard.py:13-16 | `strip()` leaves no whitespace at either end of its result |
| PyText.StripSlice | dashboard.py:13-16 | `strip()` returns a contiguous slice of its input and cuts only whitespace before and after it |
| PyText.StripUnique | dashboard.py:13-16 | whitespace, then a string with no whitespace at its ends, then whitespace strips to exactly that string |
| PyText.StripKeeps | dashboard.py:13-16 | every character of the stripped string occurs in the input, so a group with no line break strips to a value with none |
| PyText.StripIdempotent | dashboard.py:13-16 | stripping twice is stripping once |
| Patterns.LineEnd | dashboard.py:13-16 | a greedy `.+` runs to the next newline or the end of the text |
| Patterns.SpaceRun | dashboard.py:13-14 | a greedy `\s+` first takes the whole whitespace run after the label |
| Patterns.Backtrack | dashboard.py:13-14 | the whitespace run gives back characters until `.+` can start, choosing the last such start; none exists exactly when every candidate is a newline |
| Patterns.LazyEnd | dashboard.py:15 | the lazy `(.+?) R` ends at the first position followed by " R", with no newline before it, and finds every such end no later than any other |
| Patterns.MatchAt | dashboard.py:13-16 | a match at one start position has a non-empty group inside the text with no newline |
| Patterns.Matches | dashboard.py:13-16 | the declarative reading of the three capture shapes at one start: the label, then the group's span as each shape allows it; MatchAtSound, MatchAtComplete and SearchSpec state the scans against it |
| Patterns.MatchAtSound | dashboard.py:13-16 | what the scan finds at a position is a match of the pattern's declarative reading there |
| Patterns.MatchAtComplete | dashboard.py:13-16 | every declarative match at a position is the one the scan finds, so the match at a position is unique |
| Patterns.FirstMatch | dashboard.py:13-16 | the leftmost start position at or after `from` where the pattern matches; none before it matches |
| Patterns.Search | dashboard.py:13-16 | `re.search(...).group(1)`: a found group is non-empty and holds no newline |
| Patterns.SearchSpec | dashboard.py:13-16 | a found group is the group of the leftmost declarative match; nothing is found exactly when the pattern matches nowhere |
| Patterns.SearchFinds | dashboard.py:13-16 | a match at i that no earlier position can start is the one `re.search` returns |
| Extraction.ExtractFieldSpec | dashboard.py:13-16 | a field is the stripped group of its pattern's leftmost match, with no whitespace at its ends and no line break; it fails exactly when the pattern matches nowhere |
| Extraction.ExtractInformationSpec | dashboard.py:12-18 | the record succeeds exactly when all four searches do and then holds each field's own extraction; a failure names the first field in search order whose pattern is absent |
| Extraction.PatternOf | dashboard.py:13-16 | the four searches: "ATC REGION" and "LESSEE  SITE NUMBER" followed by `\s+(.+)`, "TOTAL  -  per month (exclusive of VAT)" followed by ` (.+?) R`, "RENEWAL TERM  COMMENCEMENT  DATE" followed by ` (.+)`; what each finds is stated by ExtractFieldSpec |
| Extraction.ExtractField | dashboard.py:13-16 | `re.search(...).group(1).strip()` for one field, failing where Python raises AttributeError; its meaning is stated by ExtractFieldSpec |
| Extraction.ExtractInformation | dashboard.py:12-18 | the four fields in search order, stopping at the first that fails; its meaning is stated by ExtractInformationSpec |
| Extraction.ExtractFieldFinds | dashboard.py:13-16 | a match that no earlier position can start yields the stripped text of its group |
| Extraction.NoEdgeStrip | dashboard.py:13-16 | a value with no whitespace at its ends strips to itself |
| Extraction.LineMatch | dashboard.py:13-16 | the label, one blank, a value and the end of the line match a line-valued pattern with the value as group |
| Extraction.LineAfterLabel | dashboard.py:13-16 | a page opening with the region, site-number or date label, one blank and a value on that line yields exactly that value |
| Extraction.TotalAfterLabel | dashboard.py:15 | a page opening with the monthly-total label, one blank, an amount and " R" yields exactly the amount, provided the amount itself holds no " R" |
| Sheets.StoredSpec | dashboard.py:57-60 | a cell keeps the longest prefix of the string that is within the length limit |
| Sheets.TouchSpec | dashboard.py:57-60 | creating a cell keeps the sheet well formed, changes no value and widens `max_row` to the row exactly when it lies below the last row |
| Sheets.PutSpec | dashboard.py:57-60 | writing a legal string keeps the sheet well formed, sets that one cell to the cut string and no other, and widens the bounds as creating the cell does |
| Sheets.HeaderRow | dashboard.py:47 | row 1 from column 1 to max_column, a missing cell read as empty; stated by FreshSheetColumns and HeaderRowAfterAppend |
| Sheets.Stored | dashboard.py:57-60 | the string openpyxl keeps, cut to 32767 characters; stated by StoredSpec |
| Sheets.Legal | dashboard.py:57-60 | openpyxl's IllegalCharacterError check, run on the cut string |
| Sheets.IllegalChar | dashboard.py:57-60 | the characters openpyxl refuses with IllegalCharacterError: 0x00-0x08, 0x0B, 0x0C and 0x0E-0x1F |
| Sheets.Writable | dashboard.py:54-60 | `sheet.cell` raises neither for the row (past 1,048,576) nor for the value |
| Sheets.Touch | dashboard.py:57-60 | `sheet.cell` creating the cell; stated by TouchSpec |
| Sheets.Put | dashboard.py:57-60 | `sheet.cell` creating the cell and storing the cut string; stated by PutSpec |
| Sheets.AfterCell | dashboard.py:57-60 | the sheet after one `sheet.cell` call whether or not it raised; how it relates to the sheet before is stated by TouchSpec, PutSpec, AfterCellValid and Workbook.Cell |
| Sheets.AfterCellValid | dashboard.py:57-60 | whatever one `sheet.cell` call does to a sheet of a well-formed workbook keeps the workbook well formed |
| Sheets.DistinctAppend | dashboard.py:39 | appending a title not yet present keeps the sheet titles distinct |
| Sheets.AddSheetValid | dashboard.py:39 | adding an empty sheet under a new title keeps a workbook well formed |
| Sheets.SameTitle | dashboard.py:37-41 | openpyxl's duplicate-title test, equal up to ASCII letter case; a clash makes line 39 rename the new sheet and line 41 raise KeyError, stated by SelectSheet |
| Sheets.TitleTaken | dashboard.py:37-41 | some existing title is the same as the given one up to letter case; SelectSheet fails exactly when the target title is absent and taken |
| Sheets.ReplaceSheetValid | dashboard.py:57-64 | replacing a sheet's content by a well-formed sheet keeps a workbook well formed |
| Sheets.Workbook.Load | dashboard.py:34 | the loaded workbook object holds exactly the file's sheets and titles |
| Sheets.Workbook.CreateSheet | dashboard.py:38-39 | creating the sheet appends its title after the existing ones, adds an empty sheet under it, and keeps the workbook well formed |
| Sheets.Workbook.Cell | dashboard.py:57-60 | `ok` holds exactly when the row is within the addressable range and the cut value has no refused character; the sheet becomes AfterCell of itself (untouched for a row out of range, the cell created either way and holding the cut value only on success); titles and other sheets are unchanged; a well-formed workbook stays well formed |
| Sheets.Workbook.Saved | dashboard.py:63-64 | the workbook `workbook.save(buffer)` writes: the object's titles and sheets as a Book; Load, CreateSheet and Cell state their effect through it |
| Columns.IndexOfSpec | dashboard.py:48-51 | `list.index` returns the first occurrence, and finds nothing exactly when the value is absent |
| Columns.IndexOf | dashboard.py:48-51 | `list.index`, with None where Python raises ValueError; stated by IndexOfSpec |
| Columns.HeaderName | dashboard.py:48-51 | the column name each field is looked up under |
| Columns.Offset | dashboard.py:48-51 | how far past the header snapshot an absent field's column lies: 1, 2, 3, 4 |
| Columns.ColumnFor | dashboard.py:48-51 | every resolved column is at least 1 |
| Columns.ColumnForSpec | dashboard.py:48-51 | a field's name is in the header row exactly when its column lies within it, and then the column is its first occurrence + 1; otherwise the column is `len(headers)` plus the field's fixed offset |
| Columns.ColumnsDistinct | dashboard.py:48-51 | two different fields never resolve to the same column, whatever the header row holds |
| Columns.FreshSheetColumns | dashboard.py:39-51 | a created sheet's header snapshot is one empty cell, so the fields resolve to columns 2 to 5 |
| Merging.SelectSheet | dashboard.py:37-41 | selection fails exactly when the title is absent but a title differing only in letter case blocks its creation; otherwise the workbook stays well formed and the target sheet is the existing one or a new empty one |
| Merging.SelectSheetKeeps | dashboard.py:37-41 | an existing target sheet leaves the workbook as it is; otherwise its title is appended; every existing sheet keeps its content |
| Merging.ExtractFirstPage | dashboard.py:44 | `extract_information(pdf_data[0])`, failing with NoPage for an empty page list; its outcome in the merge is stated by MergeFailure, MergeSuccess and MergeFirstPageOnly |
| Merging.WriteFields | dashboard.py:57-60 | the cell writes for a run of fields in order, stopping at the first that raises; stated by WriteFieldsFails, WriteFieldsKeeps, WriteFieldsCells, WriteFieldsWidth and WriteFieldsValid |
| Merging.WriteRow | dashboard.py:57-60 | the four cell writes in source order; stated by WriteRowFails, WriteRowWrites and WriteRowInOrder |
| Merging.NextRow | dashboard.py:54 | `sheet.max_row + 1`; that this becomes the new last row and nothing above it changes is stated by RowAppended |
| Merging.AppendToSheet | dashboard.py:47-60 | the header snapshot, the write row and the four writes; stated by RowAppended and HeaderRowAfterAppend |
| Merging.WriteField | dashboard.py:57-60 | one cell write succeeds exactly when the row is addressable and the value legal; a failure reports the row when it is out of range and otherwise the field's value |
| Merging.WriteFieldsFails | dashboard.py:57-60 | a run of cell writes fails exactly when some cell cannot be written; the failure names a field of the run that cannot be written, and reports the row exactly when the row is out of range |
| Merging.WriteFieldsKeeps | dashboard.py:57-60 | successful writes into one row change no other row and no other column of that row, and the last row reaches the written one |
| Merging.WriteFieldsCells | dashboard.py:57-60 | successful writes to distinct columns leave each written cell holding its cut value |
| Merging.WriteFieldsValid | dashboard.py:57-60 | successful cell writes keep a well-formed sheet well formed |
| Merging.WriteFieldsWidth | dashboard.py:57-60 | successful writes widen `max_column` exactly to the larger of the old width and the written columns |
| Merging.WriteRowInOrder | dashboard.py:57-60 | with every cell writable, the row write is the four cell writes in source order |
| Merging.WriteRowValid | dashboard.py:57-60 | a successful row write keeps a well-formed sheet well formed |
| Merging.AppendToSheetValid | dashboard.py:54-60 | a successful write at `max_row + 1` keeps a well-formed sheet well formed |
| Merging.WriteRowFails | dashboard.py:54-60 | the row write fails exactly when the row is out of range or some value is illegal; a row out of range is reported as such, and otherwise the failure names a field whose value is illegal |
| Merging.WriteRowWrites | dashboard.py:47-60 | with every cell writable, each field's cut value sits in its resolved column of the row, `max_row` reaches the row, and no cell outside those four changes |
| Merging.AppendRow | dashboard.py:37-60 | a successful row append yields a well-formed workbook |
| Merging.AppendRowFailure | dashboard.py:37-60 | the append fails exactly when a case-only title clash blocks sheet creation, the target sheet already reaches the last addressable row, or some value is illegal |
| Merging.AppendRowShape | dashboard.py:37-60 | the saved workbook is the selected one with the target sheet replaced by the row write at `max_row + 1` against its own header snapshot |
| Merging.AppendRowSheets | dashboard.py:37-41 | after the append the target sheet exists, its title was appended only if absent, and every other sheet is unchanged |
| Merging.RowAppended | dashboard.py:47-60 | the write row is `max_row + 1` and becomes the new `max_row`; every earlier row, header row included, is unchanged; the four resolved cells hold the values; the row's other cells are empty |
| Merging.RowAppendedToNewSheet | dashboard.py:39-60 | on a created sheet the row is 2 and the fields go to columns 2 to 5 |
| Merging.HeaderRowAfterAppend | dashboard.py:47-60 | the header snapshot of the written sheet keeps the old one as its prefix and has grown only by empty cells, at least to every written column and no further than the furthest one |
| Merging.ColumnsWithoutHeaders | dashboard.py:48-51 | with none of the four names in the header row, field f goes to `max_column + Offset(f)` |
| Merging.AppendWithoutHeaders | dashboard.py:47-60 | on a sheet whose header row names none of the four columns, an append widens the sheet by exactly four columns and the header row still names none of them |
| Merging.SecondAppendToNewSheet | dashboard.py:39-60 | a second upload into a sheet the first upload created goes to row 3, columns 6 to 9 |
| Merging.MergeFailure | dashboard.py:32-91 | process_excel gives up exactly when the sheet cannot be created, there is no first page, a field is not found, the target sheet already reaches the last addressable row, or a value is refused |
| Merging.MergeSuccess | dashboard.py:44-87 | on success the summary is what extract_information returns for the first page, and the saved workbook is the row append of that record |
| Merging.MergeFiles | dashboard.py:32-64 | a successful merge saves the target sheet with exactly one new row below its last one, whose resolved columns hold the first page's values cut to the length limit; earlier rows of the sheet and every other sheet are unchanged |
| Merging.MergeInSteps | dashboard.py:34-64 | selecting the sheet, extracting the first page and writing the four cells in order, all of them writable, is the merge |
| Merging.MergeRefused | dashboard.py:57-60 | when the first page yields a record but some cell of the write row cannot be written, the merge gives up |
| Merging.Merge | dashboard.py:29-91 | the outcome of process_excel; a saved workbook is well formed and holds the target sheet; what it holds is stated by MergeSuccess, AppendRowShape and RowAppended, and when it fails by MergeFailure |
| Merging.MergeFirstPageOnly | dashboard.py:44 | only the first page is read; later pages never change the outcome |
| Dashboard.WriteCells | dashboard.py:57-60 | the four cell writes on the workbook object succeed exactly when every cell is writable; the target sheet becomes CellsAfter of itself, on the failure path too; titles and other sheets are unchanged |
| Dashboard.CellsAfter | dashboard.py:57-60 | the target sheet after the four writes have run as far as they get; with every cell writable it is the four cell writes in order, and with the row out of range the sheet is untouched |
| Dashboard.Session.constructor | dashboard.py:10 | the history starts empty |
| Dashboard.Session.ProcessExcel | dashboard.py:29-91 | on success returns the merge's record as the one-row summary and its workbook as the buffer, and appends exactly one entry (the four values and the file name) to the history; on any failure returns an empty summary and no buffer, and the history is unchanged |

## Left out

- The Streamlit pages and navigation (dashboard.py:95-186) are presentation only.
- `process_pdf` (dashboard.py:20-27) is PDF text extraction through PyPDF2. The pages' text is a parameter.
- `load_workbook` and `workbook.save` to a `BytesIO` are library serialisation. The workbook file is the `Book` value that `Load` takes and `Saved` returns. Exceptions raised while reading or writing the file are not modelled.
- The pandas DataFrame is represented by the list of records it holds: one record on success, none on failure.
- The `print` calls (dashboard.py:67, 79, 90) are not modelled.
- Dashboard.Session.ProcessExcel: the prints at dashboard.py:67 and 79 are taken never to raise. If the one at line 79 raised (say, stdout cannot encode an extracted character), Python would return the failure pair with the history entry already recorded; the model's failure clause, which leaves the history unchanged, does not cover that case.
- `excel_file.name` is a parameter.
- Sheet titles that differ from "Additions and Modification" only in case:
  - openpyxl renames the created sheet, so `workbook[sheet_name]` raises `KeyError`;
  - the model gives up at that point with `TitleClash`, before creating a sheet;
  - letter case is folded for ASCII letters only, which is all the target title contains.
- Cell values other than strings are collapsed into `Other`. Only whether a header cell equals a field name matters, and the written values are always strings.
- Dashboard.Session.ProcessExcel:
  - the sheet is reached through the workbook's title map, not through a separate worksheet object;
  - aliasing between `sheet` and `workbook[sheet_name]` is therefore not modelled;
  - a workbook object that has given up is discarded, as Python drops it; its partial writes are stated by Dashboard.WriteCells but are not observable.
- Merging.MergeFailure: every sheet in the model is a worksheet. A chartsheet titled "Additions and Modification" is returned by `workbook[sheet_name]`, and reading its row 1 raises `TypeError`; that failure is not modelled.
- Column numbers past 18278 (column "ZZZ") make `workbook.save` raise; like every other save error, this is not modelled.
- Merging.AppendRow: its own contract states only well-formedness. What the append writes is stated by AppendRowShape, AppendRowSheets and RowAppended.
- Columns.ColumnFor: its own contract states only that the column is at least 1. Where the column lies is stated by ColumnForSpec and ColumnsDistinct.
