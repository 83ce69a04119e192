/**
 * The document-to-row merge of process_excel as values: Merge gives the
 * whole outcome (the summary record and the workbook that gets saved, or the
 * reason the merge fails), and the lemmas here state what that outcome is.
 */
module Merging {
  import opened Wrappers
  import opened Extraction
  import opened Sheets
  import opened Columns

  /** The sheet every merge writes to. */
  const SheetTitle := "Additions and Modification"

  /** One backup_history entry: the four values and the uploaded workbook's file name. */
  datatype Entry = Entry(record: Record, fileName: string)

  /** The exceptions process_excel catches, by cause. */
  datatype MergeError =
    | TitleClash          // create_sheet renamed the new sheet, so workbook[SheetTitle] raises KeyError
    | NoPage              // pdf_data[0] raises IndexError
    | NoMatch(field: Field)        // a pattern found nothing: `.group` on None
    | RowOutOfRange(field: Field)  // openpyxl refuses a row past MaxRow (ValueError)
    | IllegalValue(field: Field)   // openpyxl refuses a control character in the value

  /** The target sheet as it stands before the write: the existing one, or a new empty one. */
  function SheetBefore(file: Book): Sheet {
    if SheetTitle in file.sheets then file.sheets[SheetTitle] else EmptySheet
  }

  /** Select the target sheet, creating it (as the last sheet) when no sheet has its exact title. */
  function SelectSheet(file: Book): (r: Result<Book, MergeError>)
    requires file.Valid()
    ensures r.Failure? <==> SheetTitle !in file.sheetNames && TitleTaken(file.sheetNames, SheetTitle)
    ensures r.Success? ==> r.value.Valid() && SheetTitle in r.value.sheets && r.value.sheets[SheetTitle] == SheetBefore(file)
  {
    if SheetTitle in file.sheetNames then
      Success(file)
    else if TitleTaken(file.sheetNames, SheetTitle) then
      Failure(TitleClash)
    else
      AddSheetValid(file, SheetTitle);
      Success(Book(file.sheetNames + [SheetTitle], file.sheets[SheetTitle := EmptySheet]))
  }

  /** Selecting the sheet keeps every existing sheet; a created sheet comes last. */
  lemma SelectSheetKeeps(file: Book)
    requires file.Valid() && SelectSheet(file).Success?
    ensures SheetTitle in file.sheetNames ==> SelectSheet(file).value == file
    ensures SheetTitle !in file.sheetNames ==> SelectSheet(file).value.sheetNames == file.sheetNames + [SheetTitle]
    ensures forall n :: n in file.sheets ==>
              n in SelectSheet(file).value.sheets && SelectSheet(file).value.sheets[n] == file.sheets[n]
  {
  }

  /** The fields of the first page, or why there are none. */
  function ExtractFirstPage(pages: seq<string>): Result<Record, MergeError> {
    if |pages| == 0 then Failure(NoPage)
    else
      match ExtractInformation(pages[0])
      case Success(rec) => Success(rec)
      case Failure(f) => Failure(NoMatch(f))
  }

  /** `sheet.cell(row=row, column=<f's column>, value=<f's value>)`. */
  function WriteField(s: Sheet, row: nat, headers: seq<Value>, rec: Record, f: Field): (r: Result<Sheet, MergeError>)
    requires 1 <= row
    ensures r.Success? <==> Writable(row, rec.Get(f))
    ensures r.Failure? ==> r.error == (if row > MaxRow then RowOutOfRange(f) else IllegalValue(f))
  {
    if row > MaxRow then Failure(RowOutOfRange(f))
    else if Legal(rec.Get(f)) then Success(Put(s, row, ColumnFor(headers, f), rec.Get(f)))
    else Failure(IllegalValue(f))
  }

  /** The fields in the order the source writes them. */
  const FieldOrder: seq<Field> := [Region, SiteNumber, MonthlyTotal, CommencementDate]

  /** The cell writes for `fields`, in order, stopping at the first that raises. */
  function WriteFields(s: Sheet, row: nat, headers: seq<Value>, rec: Record, fields: seq<Field>): Result<Sheet, MergeError>
    requires 1 <= row
    decreases |fields|
  {
    if fields == [] then Success(s)
    else
      var next :- WriteField(s, row, headers, rec, fields[0]);
      WriteFields(next, row, headers, rec, fields[1..])
  }

  /** The four cell writes of lines 57-60. */
  function WriteRow(s: Sheet, row: nat, headers: seq<Value>, rec: Record): Result<Sheet, MergeError>
    requires 1 <= row
  {
    WriteFields(s, row, headers, rec, FieldOrder)
  }

  /** `sheet.max_row + 1`: the row below the last one. */
  function NextRow(s: Sheet): nat {
    s.maxRow + 1
  }

  /** Lines 47-60: the header snapshot, the row below the last one, and the four writes into it. */
  function AppendToSheet(before: Sheet, rec: Record): Result<Sheet, MergeError> {
    WriteRow(before, NextRow(before), HeaderRow(before), rec)
  }

  /**
   * Lines 37-60 for an already extracted record: select or create the
   * sheet, take the header snapshot and the write row, then write the four
   * cells. The result is the workbook that gets saved.
   */
  function AppendRow(file: Book, rec: Record): (r: Result<Book, MergeError>)
    requires file.Valid()
    ensures r.Success? ==> r.value.Valid()
  {
    var selected :- SelectSheet(file);
    var before := selected.sheets[SheetTitle];
    var written :- AppendToSheet(before, rec);
    AppendToSheetValid(before, rec);
    ReplaceSheetValid(selected, SheetTitle, written);
    Success(selected.WithSheet(SheetTitle, written))
  }

  /**
   * The outcome of process_excel on a loaded workbook and the pages' text:
   * the summary record and the workbook it saves, or why it gives up. The
   * sheet is selected (or created) before the first page is read.
   */
  function Merge(file: Book, pages: seq<string>): (r: Result<(Record, Book), MergeError>)
    requires file.Valid()
    ensures r.Success? ==> r.value.1.Valid() && SheetTitle in r.value.1.sheets
  {
    if SelectSheet(file).Failure? then Failure(TitleClash)
    else
      var rec :- ExtractFirstPage(pages);
      var saved :- AppendRow(file, rec);
      Success((rec, saved))
  }

  /** Where each field stands in FieldOrder. */
  function Position(f: Field): (i: nat)
    ensures i < |FieldOrder| && FieldOrder[i] == f
  {
    match f
    case Region => 0
    case SiteNumber => 1
    case MonthlyTotal => 2
    case CommencementDate => 3
  }

  /**
   * A run of writes fails exactly when some write would raise, and then it
   * names a field of the run that cannot be written: for the row when the
   * row is out of range, and otherwise for its value.
   */
  lemma {:induction false} WriteFieldsFails(s: Sheet, row: nat, headers: seq<Value>, rec: Record, fields: seq<Field>)
    requires 1 <= row
    ensures WriteFields(s, row, headers, rec, fields).Success? <==>
              forall i :: 0 <= i < |fields| ==> Writable(row, rec.Get(fields[i]))
    ensures WriteFields(s, row, headers, rec, fields).Failure? ==>
              var e := WriteFields(s, row, headers, rec, fields).error;
              && (e.RowOutOfRange? || e.IllegalValue?)
              && (e.RowOutOfRange? <==> row > MaxRow)
              && e.field in fields
              && !Writable(row, rec.Get(e.field))
    decreases |fields|
  {
    if fields != [] && Writable(row, rec.Get(fields[0])) {
      var next := Put(s, row, ColumnFor(headers, fields[0]), rec.Get(fields[0]));
      var rest := fields[1..];
      WriteFieldsFails(next, row, headers, rec, rest);
      assert WriteFields(s, row, headers, rec, fields) == WriteFields(next, row, headers, rec, rest);
      assert forall i :: 1 <= i < |fields| ==> fields[i] == rest[i - 1];
    }
  }

  /**
   * A successful run of writes into one row changes no other row and no
   * other column of that row, and the last row reaches the written one.
   */
  lemma {:induction false} WriteFieldsKeeps(s: Sheet, row: nat, headers: seq<Value>, rec: Record, fields: seq<Field>)
    requires 1 <= row && WriteFields(s, row, headers, rec, fields).Success?
    ensures var t := WriteFields(s, row, headers, rec, fields).value;
            && t.maxRow == (if fields == [] || row <= s.maxRow then s.maxRow else row)
            && (forall r: nat, c: nat :: r != row ==> t.At(r, c) == s.At(r, c))
            && (forall c: nat :: (forall i :: 0 <= i < |fields| ==> c != ColumnFor(headers, fields[i])) ==> t.At(row, c) == s.At(row, c))
    decreases |fields|
  {
    if fields != [] {
      var next := Put(s, row, ColumnFor(headers, fields[0]), rec.Get(fields[0]));
      var rest := fields[1..];
      WriteFieldsKeeps(next, row, headers, rec, rest);
      var t := WriteFields(next, row, headers, rec, rest).value;
      forall c: nat | forall i :: 0 <= i < |fields| ==> c != ColumnFor(headers, fields[i]) ensures t.At(row, c) == s.At(row, c) {
        assert c != ColumnFor(headers, fields[0]);
        forall j | 0 <= j < |rest| ensures c != ColumnFor(headers, rest[j]) {
          assert rest[j] == fields[j + 1];
        }
      }
    }
  }

  /** A successful run of writes to distinct columns of one row leaves each written cell holding its (cut) value. */
  lemma {:induction false} WriteFieldsCells(s: Sheet, row: nat, headers: seq<Value>, rec: Record, fields: seq<Field>)
    requires 1 <= row && WriteFields(s, row, headers, rec, fields).Success?
    requires forall i, j :: 0 <= i < j < |fields| ==> ColumnFor(headers, fields[i]) != ColumnFor(headers, fields[j])
    ensures forall i :: 0 <= i < |fields| ==>
              WriteFields(s, row, headers, rec, fields).value.At(row, ColumnFor(headers, fields[i])) == Text(Stored(rec.Get(fields[i])))
    decreases |fields|
  {
    if fields != [] {
      var col := ColumnFor(headers, fields[0]);
      var next := Put(s, row, col, rec.Get(fields[0]));
      var rest := fields[1..];
      assert forall i :: 1 <= i < |fields| ==> fields[i] == rest[i - 1];
      WriteFieldsCells(next, row, headers, rec, rest);
      WriteFieldsKeeps(next, row, headers, rec, rest);
      var t := WriteFields(next, row, headers, rec, rest).value;
      forall j | 0 <= j < |rest| ensures col != ColumnFor(headers, rest[j]) {
        assert rest[j] == fields[j + 1];
      }
      assert t.At(row, col) == Text(Stored(rec.Get(fields[0])));
    }
  }

  /** Successful cell writes keep a well-formed sheet well formed. */
  lemma {:induction false} WriteFieldsValid(s: Sheet, row: nat, headers: seq<Value>, rec: Record, fields: seq<Field>)
    requires s.Valid() && 1 <= row && WriteFields(s, row, headers, rec, fields).Success?
    ensures WriteFields(s, row, headers, rec, fields).value.Valid()
    decreases |fields|
  {
    if fields != [] {
      var col := ColumnFor(headers, fields[0]);
      PutSpec(s, row, col, rec.Get(fields[0]));
      WriteFieldsValid(Put(s, row, col, rec.Get(fields[0])), row, headers, rec, fields[1..]);
    }
  }

  /** With every cell writable, the row write is the four cell writes of lines 57-60, in that order. */
  lemma WriteRowInOrder(s: Sheet, row: nat, headers: seq<Value>, rec: Record)
    requires 1 <= row && forall f: Field :: Writable(row, rec.Get(f))
    ensures WriteRow(s, row, headers, rec).Success?
    ensures WriteRow(s, row, headers, rec).value ==
              var s1 := Put(s, row, ColumnFor(headers, Region), rec.region);
              var s2 := Put(s1, row, ColumnFor(headers, SiteNumber), rec.siteNumber);
              var s3 := Put(s2, row, ColumnFor(headers, MonthlyTotal), rec.monthlyTotal);
              Put(s3, row, ColumnFor(headers, CommencementDate), rec.commencementDate)
  {
  }

  /** A successful row write keeps a well-formed sheet well formed. */
  lemma WriteRowValid(s: Sheet, row: nat, headers: seq<Value>, rec: Record)
    requires s.Valid() && 1 <= row && WriteRow(s, row, headers, rec).Success?
    ensures WriteRow(s, row, headers, rec).value.Valid()
  {
    WriteFieldsValid(s, row, headers, rec, FieldOrder);
  }

  /** A successful row write below the last row keeps a well-formed sheet well formed. */
  lemma AppendToSheetValid(before: Sheet, rec: Record)
    requires before.Valid() && AppendToSheet(before, rec).Success?
    ensures AppendToSheet(before, rec).value.Valid()
  {
    WriteRowValid(before, NextRow(before), HeaderRow(before), rec);
  }

  /**
   * The row write fails exactly when the row is out of range or some value
   * is illegal; a row out of range is reported as such, and otherwise the
   * failure names a field whose value is illegal.
   */
  lemma WriteRowFails(s: Sheet, row: nat, headers: seq<Value>, rec: Record)
    requires 1 <= row
    ensures WriteRow(s, row, headers, rec).Success? <==> row <= MaxRow && forall f: Field :: Legal(rec.Get(f))
    ensures WriteRow(s, row, headers, rec).Failure? ==>
              var e := WriteRow(s, row, headers, rec).error;
              && (row > MaxRow ==> e.RowOutOfRange?)
              && (row <= MaxRow ==> e.IllegalValue? && !Legal(rec.Get(e.field)))
  {
    WriteFieldsFails(s, row, headers, rec, FieldOrder);
    assert FieldOrder[0] == Region;
    if forall i :: 0 <= i < |FieldOrder| ==> Writable(row, rec.Get(FieldOrder[i])) {
      forall f: Field ensures Writable(row, rec.Get(f)) {
        assert FieldOrder[Position(f)] == f;
      }
    }
  }

  /**
   * When every cell can be written the row write succeeds: each field's value (cut to the length limit) sits in its own
   * column of the row, and no cell outside those four changes.
   */
  lemma WriteRowWrites(s: Sheet, row: nat, headers: seq<Value>, rec: Record)
    requires 1 <= row
    requires forall f: Field :: Writable(row, rec.Get(f))
    ensures WriteRow(s, row, headers, rec).Success?
    ensures var t := WriteRow(s, row, headers, rec).value;
            && t.maxRow == (if row > s.maxRow then row else s.maxRow)
            && (forall f: Field :: t.At(row, ColumnFor(headers, f)) == Text(Stored(rec.Get(f))))
            && (forall r: nat, c: nat :: r != row ==> t.At(r, c) == s.At(r, c))
            && (forall c: nat :: (forall f: Field :: c != ColumnFor(headers, f)) ==> t.At(row, c) == s.At(row, c))
  {
    forall i, j | 0 <= i < j < |FieldOrder| ensures ColumnFor(headers, FieldOrder[i]) != ColumnFor(headers, FieldOrder[j]) {
      ColumnsDistinct(headers, FieldOrder[i], FieldOrder[j]);
    }
    WriteRowFails(s, row, headers, rec);
    WriteFieldsKeeps(s, row, headers, rec, FieldOrder);
    WriteFieldsCells(s, row, headers, rec, FieldOrder);
    var t := WriteRow(s, row, headers, rec).value;
    forall f: Field ensures t.At(row, ColumnFor(headers, f)) == Text(Stored(rec.Get(f))) {
      assert FieldOrder[Position(f)] == f;
    }
    forall c: nat | forall f: Field :: c != ColumnFor(headers, f) ensures t.At(row, c) == s.At(row, c) {
      assert forall i :: 0 <= i < |FieldOrder| ==> c != ColumnFor(headers, FieldOrder[i]);
    }
  }

  /**
   * The row append fails exactly when a sheet whose title differs from the
   * target's only in letter case blocks its creation, the target sheet
   * already reaches the last addressable row, or a value holds a character
   * openpyxl refuses.
   */
  lemma AppendRowFailure(file: Book, rec: Record)
    requires file.Valid()
    ensures AppendRow(file, rec).Failure? <==>
              || (SheetTitle !in file.sheetNames && TitleTaken(file.sheetNames, SheetTitle))
              || NextRow(SheetBefore(file)) > MaxRow
              || exists f: Field :: !Legal(rec.Get(f))
  {
    var sel := SelectSheet(file);
    if sel.Success? {
      var sheet := sel.value.sheets[SheetTitle];
      WriteRowFails(sheet, NextRow(sheet), HeaderRow(sheet), rec);
    }
  }

  /**
   * A successful row append saves the selected workbook with the target
   * sheet replaced by the row write of the sheet as it was, at the row
   * below its last one and against its header row as it was.
   */
  lemma AppendRowShape(file: Book, rec: Record)
    requires file.Valid() && AppendRow(file, rec).Success?
    ensures SelectSheet(file).Success? && SheetTitle in SelectSheet(file).value.sheets
    ensures var before := SelectSheet(file).value.sheets[SheetTitle];
            && before == SheetBefore(file)
            && AppendToSheet(before, rec).Success?
            && AppendRow(file, rec).value == SelectSheet(file).value.WithSheet(SheetTitle, AppendToSheet(before, rec).value)
  {
  }

  /**
   * After the row append the workbook has the target sheet, created as the last sheet only if no sheet had its title, and
   * every other sheet is as it was.
   */
  lemma AppendRowSheets(file: Book, rec: Record)
    requires file.Valid() && AppendRow(file, rec).Success?
    ensures SheetTitle in AppendRow(file, rec).value.sheets
    ensures SheetTitle in file.sheetNames ==> AppendRow(file, rec).value.sheetNames == file.sheetNames
    ensures SheetTitle !in file.sheetNames ==> AppendRow(file, rec).value.sheetNames == file.sheetNames + [SheetTitle]
    ensures forall n :: n in file.sheets && n != SheetTitle ==>
              n in AppendRow(file, rec).value.sheets && AppendRow(file, rec).value.sheets[n] == file.sheets[n]
  {
    AppendRowShape(file, rec);
    SelectSheetKeeps(file);
  }

  /**
   * The row write below the last row of a sheet: the sheet stays well
   * formed and gains exactly one row, whose four field columns, resolved
   * against the header row as it was, hold the values (cut to the length
   * limit) and whose other cells are empty; every earlier row, header row
   * included, is unchanged.
   */
  lemma RowAppended(before: Sheet, rec: Record)
    requires before.Valid() && AppendToSheet(before, rec).Success?
    ensures AppendToSheet(before, rec).value.maxRow == NextRow(before)
    ensures forall r: nat, c: nat :: r < NextRow(before) ==> AppendToSheet(before, rec).value.At(r, c) == before.At(r, c)
    ensures forall f: Field ::
              AppendToSheet(before, rec).value.At(NextRow(before), ColumnFor(HeaderRow(before), f)) == Text(Stored(rec.Get(f)))
    ensures forall c: nat :: (forall f: Field :: c != ColumnFor(HeaderRow(before), f)) ==>
              AppendToSheet(before, rec).value.At(NextRow(before), c) == Blank
  {
    var row := NextRow(before);
    WriteRowFails(before, row, HeaderRow(before), rec);
    WriteRowWrites(before, row, HeaderRow(before), rec);
    forall c: nat ensures before.At(row, c) == Blank {
      assert (row, c) !in before.cells;
    }
  }

  /**
   * When the target sheet had to be created, the row goes to row 2 and the
   * fields to columns 2 to 5: the header snapshot of a new sheet is one
   * empty cell.
   */
  lemma RowAppendedToNewSheet(rec: Record)
    requires AppendToSheet(EmptySheet, rec).Success?
    ensures AppendToSheet(EmptySheet, rec).value.maxRow == 2
    ensures forall f: Field :: AppendToSheet(EmptySheet, rec).value.At(2, Offset(f) + 1) == Text(Stored(rec.Get(f)))
  {
    var after := AppendToSheet(EmptySheet, rec).value;
    RowAppended(EmptySheet, rec);
    assert NextRow(EmptySheet) == 2;
    forall f: Field ensures after.At(2, Offset(f) + 1) == Text(Stored(rec.Get(f))) {
      FreshSheetColumns(f);
    }
  }

  /**
   * A successful run of writes widens the sheet just enough to hold every
   * written column: max_column becomes the larger of the old one and the
   * written columns.
   */
  lemma {:induction false} WriteFieldsWidth(s: Sheet, row: nat, headers: seq<Value>, rec: Record, fields: seq<Field>)
    requires 1 <= row && WriteFields(s, row, headers, rec, fields).Success?
    ensures var t := WriteFields(s, row, headers, rec, fields).value;
            && s.maxColumn <= t.maxColumn
            && (forall i :: 0 <= i < |fields| ==> ColumnFor(headers, fields[i]) <= t.maxColumn)
            && (t.maxColumn == s.maxColumn || exists i :: 0 <= i < |fields| && t.maxColumn == ColumnFor(headers, fields[i]))
    decreases |fields|
  {
    if fields != [] {
      var next := Put(s, row, ColumnFor(headers, fields[0]), rec.Get(fields[0]));
      var rest := fields[1..];
      WriteFieldsWidth(next, row, headers, rec, rest);
      var t := WriteFields(next, row, headers, rec, rest).value;
      assert forall i :: 1 <= i < |fields| ==> fields[i] == rest[i - 1];
      if t.maxColumn != next.maxColumn {
        var i :| 0 <= i < |rest| && t.maxColumn == ColumnFor(headers, rest[i]);
        assert fields[i + 1] == rest[i];
      }
    }
  }

  /**
   * The header snapshot a later upload takes of the written sheet: row 1 is
   * as it was, and the snapshot has grown by empty cells up to the furthest
   * column written, since no header label is ever written.
   */
  lemma HeaderRowAfterAppend(before: Sheet, rec: Record)
    requires before.Valid() && AppendToSheet(before, rec).Success?
    ensures var h, h' := HeaderRow(before), HeaderRow(AppendToSheet(before, rec).value);
            && |h| <= |h'|
            && h'[..|h|] == h
            && (forall j :: |h| <= j < |h'| ==> h'[j] == Blank)
            && (forall f: Field :: ColumnFor(h, f) <= |h'|)
            && (|h'| == |h| || exists f: Field :: |h'| == ColumnFor(h, f))
  {
    var h := HeaderRow(before);
    var after := AppendToSheet(before, rec).value;
    var h' := HeaderRow(after);
    RowAppended(before, rec);
    WriteFieldsWidth(before, NextRow(before), h, rec, FieldOrder);
    assert h'[..|h|] == h by {
      forall j | 0 <= j < |h| ensures h'[j] == h[j] {
        assert after.At(1, j + 1) == before.At(1, j + 1);
      }
    }
    forall j | |h| <= j < |h'| ensures h'[j] == Blank {
      assert (1, j + 1) !in before.cells;
      assert after.At(1, j + 1) == before.At(1, j + 1);
    }
    forall f: Field ensures ColumnFor(h, f) <= |h'| {
      assert FieldOrder[Position(f)] == f;
    }
    if |h'| != |h| {
      var i :| 0 <= i < |FieldOrder| && after.maxColumn == ColumnFor(h, FieldOrder[i]);
    }
  }

  /** A snapshot that only gains empty cells gains no header name. */
  lemma NoNameAdded(h: seq<Value>, h': seq<Value>, v: Value)
    requires |h| <= |h'| && h'[..|h|] == h && forall j :: |h| <= j < |h'| ==> h'[j] == Blank
    requires v != Blank && v !in h
    ensures v !in h'
  {
  }

  /** With none of the four names in the header row, every field goes Offset(f) past the last column. */
  lemma ColumnsWithoutHeaders(s: Sheet)
    requires forall f: Field :: Text(HeaderName(f)) !in HeaderRow(s)
    ensures forall f: Field :: ColumnFor(HeaderRow(s), f) == s.maxColumn + Offset(f)
  {
    forall f: Field ensures ColumnFor(HeaderRow(s), f) == s.maxColumn + Offset(f) {
      ColumnForSpec(HeaderRow(s), f);
    }
  }

  /**
   * On a sheet whose header row names none of the four columns, every field
   * goes past the last column, so the sheet widens by exactly four columns
   * and its header row still names none of them: each further upload lands
   * one row lower and four columns further right.
   */
  lemma AppendWithoutHeaders(before: Sheet, rec: Record)
    requires before.Valid() && AppendToSheet(before, rec).Success?
    requires forall f: Field :: Text(HeaderName(f)) !in HeaderRow(before)
    ensures AppendToSheet(before, rec).value.maxColumn == before.maxColumn + 4
    ensures forall f: Field :: Text(HeaderName(f)) !in HeaderRow(AppendToSheet(before, rec).value)
  {
    var h := HeaderRow(before);
    var after := AppendToSheet(before, rec).value;
    ColumnsWithoutHeaders(before);
    HeaderRowAfterAppend(before, rec);
    var h' := HeaderRow(after);
    assert |h| == before.maxColumn && |h'| == after.maxColumn;
    assert ColumnFor(h, CommencementDate) <= |h'|;
    var g: Field :| |h'| == ColumnFor(h, g);
    assert Offset(g) <= 4 && Offset(CommencementDate) == 4;
    forall f: Field ensures Text(HeaderName(f)) !in h' {
      NoNameAdded(h, h', Text(HeaderName(f)));
    }
  }

  /**
   * A second upload into a sheet the first upload created: the row goes to
   * row 3 and the fields to columns 6 to 9, not under the first row's
   * columns 2 to 5.
   */
  lemma SecondAppendToNewSheet(first: Record, second: Record)
    requires AppendToSheet(EmptySheet, first).Success?
    requires AppendToSheet(AppendToSheet(EmptySheet, first).value, second).Success?
    ensures var s1 := AppendToSheet(EmptySheet, first).value;
            && NextRow(s1) == 3
            && forall f: Field :: AppendToSheet(s1, second).value.At(3, Offset(f) + 5) == Text(Stored(second.Get(f)))
  {
    var s1 := AppendToSheet(EmptySheet, first).value;
    var s2 := AppendToSheet(s1, second).value;
    assert HeaderRow(EmptySheet) == [Blank];
    RowAppended(EmptySheet, first);
    AppendToSheetValid(EmptySheet, first);
    AppendWithoutHeaders(EmptySheet, first);
    ColumnsWithoutHeaders(s1);
    RowAppended(s1, second);
    assert NextRow(s1) == 3;
    forall f: Field ensures s2.At(3, Offset(f) + 5) == Text(Stored(second.Get(f))) {
      assert ColumnFor(HeaderRow(s1), f) == Offset(f) + 5;
    }
  }


  /**
   * A merge fails exactly when the target sheet cannot be created, there is
   * no first page, a field is not found on the first page, the target sheet
   * already reaches the last addressable row, or a field's value holds a
   * character openpyxl refuses.
   */
  lemma MergeFailure(file: Book, pages: seq<string>)
    requires file.Valid()
    ensures Merge(file, pages).Failure? <==>
              || (SheetTitle !in file.sheetNames && TitleTaken(file.sheetNames, SheetTitle))
              || |pages| == 0
              || ExtractInformation(pages[0]).Failure?
              || NextRow(SheetBefore(file)) > MaxRow
              || exists f: Field :: !Legal(ExtractInformation(pages[0]).value.Get(f))
  {
    if |pages| > 0 && ExtractInformation(pages[0]).Success? {
      AppendRowFailure(file, ExtractInformation(pages[0]).value);
    }
  }

  /**
   * A successful merge files the first page's four fields: the summary is
   * what extract_information returns for that page, and the saved workbook
   * is the row append of exactly that record.
   */
  lemma MergeSuccess(file: Book, pages: seq<string>)
    requires file.Valid() && Merge(file, pages).Success?
    ensures |pages| > 0 && ExtractInformation(pages[0]) == Success(Merge(file, pages).value.0)
    ensures AppendRow(file, Merge(file, pages).value.0) == Success(Merge(file, pages).value.1)
  {
  }

  /**
   * What a successful merge saves, end to end: the target sheet gains
   * exactly one row, the one below its last row, whose resolved columns hold
   * the first page's values (cut to the length limit); every earlier row of
   * the target sheet, header row included, and every other sheet are as
   * they were.
   */
  lemma MergeFiles(file: Book, pages: seq<string>)
    requires file.Valid() && Merge(file, pages).Success?
    ensures var rec := Merge(file, pages).value.0;
            var saved := Merge(file, pages).value.1;
            var before := SheetBefore(file);
            && |pages| > 0 && ExtractInformation(pages[0]) == Success(rec)
            && saved.sheets[SheetTitle].maxRow == NextRow(before)
            && (forall f: Field ::
                  saved.sheets[SheetTitle].At(NextRow(before), ColumnFor(HeaderRow(before), f)) == Text(Stored(rec.Get(f))))
            && (forall r: nat, c: nat :: r < NextRow(before) ==> saved.sheets[SheetTitle].At(r, c) == before.At(r, c))
            && (forall n :: n in file.sheets && n != SheetTitle ==> n in saved.sheets && saved.sheets[n] == file.sheets[n])
  {
    var rec := Merge(file, pages).value.0;
    var before := SheetBefore(file);
    MergeSuccess(file, pages);
    AppendRowShape(file, rec);
    AppendRowSheets(file, rec);
    RowAppended(before, rec);
  }

  /**
   * The merge, step by step as process_excel takes it: when the sheet can be
   * selected, the first page yields a record whose cells can all be written, and
   * the workbook is the selected one with the target sheet given the four
   * cell writes in order, then that record and workbook are the merge.
   */
  lemma MergeInSteps(file: Book, pages: seq<string>, rec: Record, saved: Book)
    requires file.Valid() && SelectSheet(file).Success?
    requires |pages| > 0 && ExtractInformation(pages[0]) == Success(rec)
    requires forall f: Field :: Writable(NextRow(SelectSheet(file).value.sheets[SheetTitle]), rec.Get(f))
    requires var selected := SelectSheet(file).value;
             var sheet := selected.sheets[SheetTitle];
             var headers := HeaderRow(sheet);
             var row := NextRow(sheet);
             var s1 := Put(sheet, row, ColumnFor(headers, Region), rec.region);
             var s2 := Put(s1, row, ColumnFor(headers, SiteNumber), rec.siteNumber);
             var s3 := Put(s2, row, ColumnFor(headers, MonthlyTotal), rec.monthlyTotal);
             saved == selected.WithSheet(SheetTitle, Put(s3, row, ColumnFor(headers, CommencementDate), rec.commencementDate))
    ensures Merge(file, pages) == Success((rec, saved))
  {
    var sheet := SelectSheet(file).value.sheets[SheetTitle];
    WriteRowInOrder(sheet, NextRow(sheet), HeaderRow(sheet), rec);
  }

  /**
   * The merge, step by step, when a cell write is refused: the sheet could
   * be selected and the first page yields a record, but some cell of the
   * write row cannot be written, so the merge gives up.
   */
  lemma MergeRefused(file: Book, pages: seq<string>, rec: Record)
    requires file.Valid() && SelectSheet(file).Success?
    requires |pages| > 0 && ExtractInformation(pages[0]) == Success(rec)
    requires exists f: Field :: !Writable(NextRow(SelectSheet(file).value.sheets[SheetTitle]), rec.Get(f))
    ensures Merge(file, pages).Failure?
  {
    var sheet := SelectSheet(file).value.sheets[SheetTitle];
    WriteRowFails(sheet, NextRow(sheet), HeaderRow(sheet), rec);
  }

  /** Only the first page is read: later pages, or their absence, never change the outcome. */
  lemma MergeFirstPageOnly(file: Book, pages: seq<string>, others: seq<string>)
    requires file.Valid()
    requires |pages| > 0 && |others| > 0 && pages[0] == others[0]
    ensures Merge(file, pages) == Merge(file, others)
  {
  }
}
