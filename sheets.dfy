/**
 * The part of an openpyxl workbook that process_excel touches: sheets kept
 * as sparse cell maps with the max_row / max_column openpyxl derives from
 * them, the list of sheet titles, sheet creation, and `sheet.cell(row,
 * column, value)` with openpyxl's handling of string values.
 */
module Sheets {

  /** A cell value as the header lookup sees it: empty, a string, or anything else (numbers, dates). */
  datatype Value = Blank | Text(text: string) | Other

  /**
   * One worksheet. A key of `cells` is a cell openpyxl has created, possibly
   * still empty; max_row and max_column are the largest row and column among
   * them, and 1 when there are none. The keys may omit the empty row-1 cells
   * that reading `sheet[1]` creates; they lie inside the bounds and read as
   * empty either way.
   */
  datatype Sheet = Sheet(cells: map<(nat, nat), Value>, maxRow: nat, maxColumn: nat)
  {
    ghost predicate Valid() {
      && 1 <= maxRow && 1 <= maxColumn
      && (forall r, c :: (r, c) in cells ==> 1 <= r <= maxRow && 1 <= c <= maxColumn)
      && (cells == map[] ==> maxRow == 1 && maxColumn == 1)
      && (cells != map[] ==> (exists c :: (maxRow, c) in cells) && (exists r :: (r, maxColumn) in cells))
    }

    /** The value of a cell; a cell never created reads as empty. */
    function At(row: nat, col: nat): Value {
      if (row, col) in cells then cells[(row, col)] else Blank
    }
  }

  /** A sheet as create_sheet makes it. */
  const EmptySheet := Sheet(map[], 1, 1)

  /** `[cell.value for cell in sheet[1]]`: row 1 from column 1 to max_column. */
  function HeaderRow(s: Sheet): seq<Value> {
    seq(s.maxColumn, j requires 0 <= j < s.maxColumn => s.At(1, j + 1))
  }

  /** openpyxl keeps at most this many characters of a string value. */
  const MaxStringLength := 32767

  /** Control characters openpyxl refuses in a string value (IllegalCharacterError). */
  predicate IllegalChar(c: char) {
    var n := c as int;
    0 <= n <= 0x08 || n == 0x0B || n == 0x0C || 0x0E <= n <= 0x1F
  }

  /** The string a cell keeps: the value cut to the length limit. */
  function Stored(v: string): string {
    if |v| <= MaxStringLength then v else v[..MaxStringLength]
  }

  /** The kept string is the longest prefix of the value within the limit. */
  lemma StoredSpec(v: string)
    ensures |Stored(v)| <= MaxStringLength && Stored(v) == v[..|Stored(v)|]
    ensures |Stored(v)| == MaxStringLength || Stored(v) == v
  {
  }

  /** The value passes openpyxl's check; the check runs on the cut string, after truncation. */
  predicate Legal(v: string) {
    forall k :: 0 <= k < |Stored(v)| ==> !IllegalChar(Stored(v)[k])
  }

  /** The last row number a worksheet can address; openpyxl raises ValueError for a row past it. */
  const MaxRow := 1048576

  /** `sheet.cell(row, col, value=v)` raises neither for the row nor for the value. */
  predicate Writable(row: nat, v: string) {
    row <= MaxRow && Legal(v)
  }

  /** `sheet.cell(row, col)` first creates the cell, empty, and widens the sheet's bounds. */
  function Touch(s: Sheet, row: nat, col: nat): Sheet
    requires 1 <= row && 1 <= col
  {
    Sheet(if (row, col) in s.cells then s.cells else s.cells[(row, col) := Blank],
          if row > s.maxRow then row else s.maxRow,
          if col > s.maxColumn then col else s.maxColumn)
  }

  /** `sheet.cell(row, col, value=v)` for a legal string v: the cell is created, as by Touch, and holds the kept string. */
  function Put(s: Sheet, row: nat, col: nat, v: string): Sheet
    requires 1 <= row && 1 <= col
  {
    Sheet(s.cells[(row, col) := Text(Stored(v))],
          if row > s.maxRow then row else s.maxRow,
          if col > s.maxColumn then col else s.maxColumn)
  }

  /** Creating a cell keeps the sheet well formed, changes no value and widens the bounds to reach it. */
  lemma TouchSpec(s: Sheet, row: nat, col: nat)
    requires s.Valid() && 1 <= row && 1 <= col
    ensures Touch(s, row, col).Valid()
    ensures forall r: nat, c: nat :: Touch(s, row, col).At(r, c) == s.At(r, c)
    ensures Touch(s, row, col).maxRow >= row && Touch(s, row, col).maxColumn >= col
    ensures row <= s.maxRow ==> Touch(s, row, col).maxRow == s.maxRow
    ensures row > s.maxRow ==> Touch(s, row, col).maxRow == row
  {
    var t := Touch(s, row, col);
    assert (row, col) in t.cells;
    if s.cells == map[] {
      assert t.maxRow == row && t.maxColumn == col;
    } else {
      var c :| (s.maxRow, c) in s.cells;
      var r :| (r, s.maxColumn) in s.cells;
      assert (s.maxRow, c) in t.cells && (r, s.maxColumn) in t.cells;
    }
  }

  /**
   * Writing a legal string: the sheet stays well formed, the cell holds the
   * (cut) string, every other cell keeps its value, and the bounds widen
   * exactly as far as the cell.
   */
  lemma PutSpec(s: Sheet, row: nat, col: nat, v: string)
    requires s.Valid() && 1 <= row && 1 <= col
    ensures Put(s, row, col, v).Valid()
    ensures Put(s, row, col, v).At(row, col) == Text(Stored(v))
    ensures forall r: nat, c: nat :: (r, c) != (row, col) ==> Put(s, row, col, v).At(r, c) == s.At(r, c)
    ensures Put(s, row, col, v).maxRow == Touch(s, row, col).maxRow
    ensures Put(s, row, col, v).maxColumn == Touch(s, row, col).maxColumn
  {
    TouchSpec(s, row, col);
    var t := Touch(s, row, col);
    var p := Put(s, row, col, v);
    assert p.cells.Keys == t.cells.Keys;
    if t.cells != map[] {
      var c :| (t.maxRow, c) in t.cells;
      var r :| (r, t.maxColumn) in t.cells;
      assert (t.maxRow, c) in p.cells && (r, t.maxColumn) in p.cells;
    }
  }

  /** ASCII lower-casing of one character, the part of str.lower() that can map a title onto this model's sheet titles. */
  function LowerChar(c: char): char {
    if 'A' <= c <= 'Z' then (c as int + 32) as char else c
  }

  /**
   * The sheet after `sheet.cell(row, col, value=v)`, whether or not the call
   * raised: a row past MaxRow is refused before the cell exists; otherwise
   * the cell is created, and it holds the value only when openpyxl accepts it.
   */
  function AfterCell(s: Sheet, row: nat, col: nat, v: string): Sheet
    requires 1 <= row && 1 <= col
  {
    if row > MaxRow then s
    else if Legal(v) then Put(s, row, col, v)
    else Touch(s, row, col)
  }

  /** Whatever `sheet.cell` does to a sheet of a well-formed workbook keeps the workbook well formed. */
  lemma AfterCellValid(b: Book, title: string, row: nat, col: nat, v: string)
    requires b.Valid() && title in b.sheets && 1 <= row && 1 <= col
    ensures b.WithSheet(title, AfterCell(b.sheets[title], row, col, v)).Valid()
  {
    TouchSpec(b.sheets[title], row, col);
    PutSpec(b.sheets[title], row, col, v);
  }

  /** openpyxl treats two titles as duplicates when they agree ignoring case. */
  predicate SameTitle(a: string, b: string) {
    |a| == |b| && forall k :: 0 <= k < |a| ==> LowerChar(a[k]) == LowerChar(b[k])
  }

  /** Some existing title is a duplicate of `title` in openpyxl's sense. */
  predicate TitleTaken(names: seq<string>, title: string) {
    exists k :: 0 <= k < |names| && SameTitle(names[k], title)
  }

  /** A loaded workbook file: sheet titles in order and each sheet's content. */
  datatype Book = Book(sheetNames: seq<string>, sheets: map<string, Sheet>)
  {
    ghost predicate Valid() {
      && (forall n :: n in sheets <==> n in sheetNames)
      && Distinct(sheetNames)
      && (forall n :: n in sheets ==> sheets[n].Valid())
    }

    /** The same workbook with the sheet titled `title` holding s. */
    function WithSheet(title: string, s: Sheet): Book {
      Book(sheetNames, sheets[title := s])
    }
  }

  /** No title occurs twice. */
  predicate Distinct(names: seq<string>) {
    names == [] || (names[0] !in names[1..] && Distinct(names[1..]))
  }

  /** Appending a title not yet present keeps the titles distinct. */
  lemma {:induction false} DistinctAppend(names: seq<string>, title: string)
    requires Distinct(names) && title !in names
    ensures Distinct(names + [title])
  {
    if names != [] {
      assert (names + [title])[1..] == names[1..] + [title];
      DistinctAppend(names[1..], title);
    }
  }

  /** Appending a new empty sheet under a title not yet used keeps a workbook well formed. */
  lemma AddSheetValid(b: Book, title: string)
    requires b.Valid() && title !in b.sheetNames
    ensures Book(b.sheetNames + [title], b.sheets[title := EmptySheet]).Valid()
  {
    DistinctAppend(b.sheetNames, title);
  }

  /** Replacing one sheet's content by a well-formed sheet keeps a workbook well formed. */
  lemma ReplaceSheetValid(b: Book, title: string, s: Sheet)
    requires b.Valid() && title in b.sheets && s.Valid()
    ensures b.WithSheet(title, s).Valid()
  {
  }

  /** The openpyxl Workbook object process_excel loads, changes and saves. */
  class Workbook {
    var sheetNames: seq<string>
    var sheets: map<string, Sheet>

    /** What `workbook.save` writes. */
    function Saved(): Book
      reads this
    {
      Book(sheetNames, sheets)
    }

    ghost predicate Valid()
      reads this
    {
      Saved().Valid()
    }

    /** load_workbook: the object holds exactly what the file holds. */
    constructor Load(file: Book)
      requires file.Valid()
      ensures Valid() && Saved() == file
    {
      sheetNames := file.sheetNames;
      sheets := file.sheets;
    }

    /** create_sheet(title): a new empty sheet, appended after the existing ones. */
    method CreateSheet(title: string)
      requires Valid() && !TitleTaken(sheetNames, title)
      modifies this
      ensures Valid()
      ensures sheetNames == old(sheetNames) + [title]
      ensures sheets == old(sheets)[title := EmptySheet]
    {
      forall k | 0 <= k < |sheetNames| ensures sheetNames[k] != title {
        assert !SameTitle(sheetNames[k], title);
      }
      AddSheetValid(Saved(), title);
      sheetNames := sheetNames + [title];
      sheets := sheets[title := EmptySheet];
    }

    /**
     * `workbook[title].cell(row=row, column=col, value=v)`: `ok` is false
     * where openpyxl raises, for a row past MaxRow or a refused character;
     * the sheet becomes AfterCell of itself, so a refused value still leaves
     * the cell created. A well-formed workbook stays well formed.
     */
    method Cell(title: string, row: nat, col: nat, v: string) returns (ok: bool)
      requires title in sheets && 1 <= row && 1 <= col
      modifies this
      ensures ok == Writable(row, v)
      ensures sheetNames == old(sheetNames)
      ensures sheets == old(sheets)[title := AfterCell(old(sheets)[title], row, col, v)]
      ensures old(Valid()) ==> Valid()
    {
      var s := sheets[title];
      if row > MaxRow {
        return false;
      }
      var t := Touch(s, row, col);
      ok := true;
      var stored := Stored(v);
      var k := 0;
      while k < |stored|
        invariant 0 <= k <= |stored|
        invariant ok == forall i :: 0 <= i < k ==> !IllegalChar(stored[i])
      {
        if IllegalChar(stored[k]) {
          ok := false;
        }
        k := k + 1;
      }
      if ok {
        t := Put(s, row, col, v);
      }
      assert t == AfterCell(s, row, col, v);
      if Valid() {
        AfterCellValid(Saved(), title, row, col, v);
      }
      sheets := sheets[title := t];
    }
  }
}
