/**
 * process_excel as the dashboard runs it: on the loaded Workbook object, with
 * the module-level backup_history list as the state of a Session, proved to
 * agree with Merging.Merge.
 */
module Dashboard {
  import opened Wrappers
  import opened Extraction
  import opened Sheets
  import opened Columns
  import opened Merging

  /**
   * The target sheet after lines 57-60 have run as far as they get: the
   * writes in source order, the first one openpyxl refuses being the last
   * to touch the sheet. When every cell can be written these are the four
   * cell writes; when the row is out of range the sheet is untouched.
   */
  function CellsAfter(s: Sheet, row: nat, c0: nat, c1: nat, c2: nat, c3: nat, rec: Record): (r: Sheet)
    requires 1 <= row && 1 <= c0 && 1 <= c1 && 1 <= c2 && 1 <= c3
    ensures (forall f: Field :: Writable(row, rec.Get(f))) ==>
              r == Put(Put(Put(Put(s, row, c0, rec.region), row, c1, rec.siteNumber), row, c2, rec.monthlyTotal),
                       row, c3, rec.commencementDate)
    ensures row > MaxRow ==> r == s
  {
    var s1 := AfterCell(s, row, c0, rec.region);
    if !Writable(row, rec.region) then assert !Writable(row, rec.Get(Region)); s1
    else
      var s2 := AfterCell(s1, row, c1, rec.siteNumber);
      if !Writable(row, rec.siteNumber) then assert !Writable(row, rec.Get(SiteNumber)); s2
      else
        var s3 := AfterCell(s2, row, c2, rec.monthlyTotal);
        if !Writable(row, rec.monthlyTotal) then assert !Writable(row, rec.Get(MonthlyTotal)); s3
        else
          assert (forall f: Field :: Writable(row, rec.Get(f))) ==> Writable(row, rec.Get(CommencementDate));
          AfterCell(s3, row, c3, rec.commencementDate)
  }

  /**
   * Lines 57-60 on the Workbook object: the four cell writes into the target
   * sheet, at the given columns, stopping at the first one openpyxl refuses.
   */
  method WriteCells(workbook: Workbook, row: nat, c0: nat, c1: nat, c2: nat, c3: nat, rec: Record) returns (ok: bool)
    requires SheetTitle in workbook.sheets && 1 <= row
    requires 1 <= c0 && 1 <= c1 && 1 <= c2 && 1 <= c3
    modifies workbook
    ensures workbook.sheetNames == old(workbook.sheetNames)
    ensures ok == forall f: Field :: Writable(row, rec.Get(f))
    ensures workbook.sheets == old(workbook.sheets)[SheetTitle := CellsAfter(old(workbook.sheets[SheetTitle]), row, c0, c1, c2, c3, rec)]
  {
    ghost var sheets0 := workbook.sheets;
    ghost var s0 := sheets0[SheetTitle];
    ok := workbook.Cell(SheetTitle, row, c0, rec.region);
    ghost var s1 := AfterCell(s0, row, c0, rec.region);
    assert workbook.sheets == sheets0[SheetTitle := s1];
    if !ok {
      assert !Writable(row, rec.Get(Region));
      return;
    }
    ok := workbook.Cell(SheetTitle, row, c1, rec.siteNumber);
    ghost var s2 := AfterCell(s1, row, c1, rec.siteNumber);
    assert workbook.sheets == sheets0[SheetTitle := s2];
    if !ok {
      assert !Writable(row, rec.Get(SiteNumber));
      return;
    }
    ok := workbook.Cell(SheetTitle, row, c2, rec.monthlyTotal);
    ghost var s3 := AfterCell(s2, row, c2, rec.monthlyTotal);
    assert workbook.sheets == sheets0[SheetTitle := s3];
    if !ok {
      assert !Writable(row, rec.Get(MonthlyTotal));
      return;
    }
    ok := workbook.Cell(SheetTitle, row, c3, rec.commencementDate);
    ghost var s4 := AfterCell(s3, row, c3, rec.commencementDate);
    assert workbook.sheets == sheets0[SheetTitle := s4];
    if !ok {
      assert !Writable(row, rec.Get(CommencementDate));
      return;
    }
    forall f: Field ensures Writable(row, rec.Get(f)) {
      match f
      case Region =>
      case SiteNumber =>
      case MonthlyTotal =>
      case CommencementDate =>
    }
  }

  /** The dashboard session: the module-level backup_history list. */
  class Session {
    var backupHistory: seq<Entry>

    /** The history starts empty. */
    constructor ()
      ensures backupHistory == []
    {
      backupHistory := [];
    }

    /**
     * process_excel(excel_file, pdf_data): on success returns the one-row
     * summary and the saved workbook and appends one history entry; on any
     * failure returns an empty summary and no workbook, and the history is
     * untouched.
     */
    method ProcessExcel(file: Book, fileName: string, pdfData: seq<string>) returns (df: seq<Record>, buffer: Option<Book>)
      requires file.Valid()
      modifies this
      ensures Merge(file, pdfData).Success? ==>
                && df == [Merge(file, pdfData).value.0]
                && buffer == Some(Merge(file, pdfData).value.1)
                && backupHistory == old(backupHistory) + [Entry(Merge(file, pdfData).value.0, fileName)]
      ensures Merge(file, pdfData).Failure? ==> df == [] && buffer == None && backupHistory == old(backupHistory)
    {
      var workbook := new Workbook.Load(file);
      if SheetTitle !in workbook.sheetNames {
        if TitleTaken(workbook.sheetNames, SheetTitle) {
          return [], None;
        }
        workbook.CreateSheet(SheetTitle);
      }
      assert workbook.Saved() == SelectSheet(file).value;
      if |pdfData| == 0 {
        return [], None;
      }
      var extracted := ExtractInformation(pdfData[0]);
      if extracted.Failure? {
        return [], None;
      }
      var rec := extracted.value;
      var sheet := workbook.sheets[SheetTitle];
      var headers := HeaderRow(sheet);
      var regionColumn := ColumnFor(headers, Region);
      var siteColumn := ColumnFor(headers, SiteNumber);
      var totalColumn := ColumnFor(headers, MonthlyTotal);
      var dateColumn := ColumnFor(headers, CommencementDate);
      var nextRow := NextRow(sheet);
      var ok := WriteCells(workbook, nextRow, regionColumn, siteColumn, totalColumn, dateColumn, rec);
      if !ok {
        MergeRefused(file, pdfData, rec);
        return [], None;
      }
      var saved := workbook.Saved();
      MergeInSteps(file, pdfData, rec, saved);
      backupHistory := backupHistory + [Entry(rec, fileName)];
      df, buffer := [rec], Some(saved);
    }
  }
}
