/**
 * `write_to_excel` and `parse_xlsx` (backend/writers.py) over an abstract
 * workbook.  A sheet is the sequence of its rows, each a sequence of cells,
 * and a cell is empty (None) or holds a value.  The rules of the spreadsheet
 * library that the two functions rely on are written out here: a string is
 * cut to 32767 characters, a string holding a control character other than
 * tab, line feed and carriage return cannot be stored, and an empty string is
 * stored as an empty cell.
 */
module Spreadsheet {
  import opened Wrappers
  import opened Exceptions
  import opened Constants
  import opened Text

  /**
   * A cell value as the library returns it: a string, an integer, or any other
   * value, given by its `str()`, its `repr()` and its truth value.
   */
  datatype Value = Str(s: string) | Int(i: int) | Other(text: string, repr: string, truthy: bool)

  /** A cell; None is an empty cell. */
  type Cell = Option<Value>

  /** The rows of the active sheet, in order. */
  type Sheet = seq<seq<Cell>>

  // ---------------------------------------------------------------------
  // Writing.
  // ---------------------------------------------------------------------

  /** The longest string a cell holds. */
  const MaxCellLength: nat := 32767

  /** The control characters a cell cannot hold: all below 32 except tab, line feed and carriage return. */
  predicate IsIllegal(c: char) {
    c as int <= 8 || c as int == 11 || c as int == 12 || (14 <= c as int <= 31)
  }

  /** `value[:32767]` */
  function Truncated(v: string): (t: string)
    ensures |t| <= |v| && |t| <= MaxCellLength && t == v[..|t|]
    ensures |v| <= MaxCellLength ==> t == v
  {
    if |v| <= MaxCellLength then v else v[..MaxCellLength]
  }

  /** A string that can be stored once cut to length. */
  predicate Legal(v: string) {
    forall k :: 0 <= k < |v| && k < MaxCellLength ==> !IsIllegal(v[k])
  }

  /** The cell a string value ends up as: cut to length, and empty for "". */
  function Stored(v: string): Cell {
    if v == "" then None else Some(Str(Truncated(v)))
  }

  /** The cells of one appended row. */
  function StoredRow(values: seq<string>): (row: seq<Cell>)
    ensures |row| == |values|
  {
    seq(|values|, j requires 0 <= j < |values| => Stored(values[j]))
  }

  /** The first value from position `j` on that cannot be stored, cut to length. */
  function IllegalFrom(values: seq<string>, j: nat): Option<string>
    requires j <= |values|
    decreases |values| - j
  {
    if j == |values| then None
    else if !Legal(values[j]) then Some(Truncated(values[j]))
    else IllegalFrom(values, j + 1)
  }

  /**
   * The writer refuses a row exactly when one of its values cannot be stored,
   * and then names the first such value, cut to length.
   */
  lemma {:induction false} IllegalFromFirst(values: seq<string>, j: nat)
    requires j <= |values|
    ensures IllegalFrom(values, j).None? <==> forall k :: j <= k < |values| ==> Legal(values[k])
    ensures IllegalFrom(values, j).Some? ==>
      exists k :: j <= k < |values| && !Legal(values[k]) && IllegalFrom(values, j).value == Truncated(values[k])
        && forall m :: j <= m < k ==> Legal(values[m])
    decreases |values| - j
  {
    if j < |values| && Legal(values[j]) {
      IllegalFromFirst(values, j + 1);
    }
  }

  /** The first value of the data rows from row `i` on that cannot be stored. */
  function IllegalRowFrom(data: seq<seq<string>>, i: nat): Option<string>
    requires i <= |data|
    decreases |data| - i
  {
    if i == |data| then None
    else if IllegalFrom(data[i], 0).Some? then IllegalFrom(data[i], 0)
    else IllegalRowFrom(data, i + 1)
  }

  /** The rows the writer puts under the header. */
  function DataRows(data: seq<seq<string>>): (rows: Sheet)
    ensures |rows| == |data|
  {
    seq(|data|, i requires 0 <= i < |data| => StoredRow(data[i]))
  }

  /** The sheet `write_to_excel` saves: the header row, then one row per entry, in order. */
  function ExcelSheet(data: seq<seq<string>>): (sheet: Sheet)
    ensures |sheet| == |data| + 1
  {
    [StoredRow(ExcelHeaders)] + DataRows(data)
  }

  /** The message of the error raised for a value that cannot be stored. */
  function IllegalMessage(value: string): string {
    value + " cannot be used in worksheets."
  }

  /** The WriteError raised for output `path` with reason `reason`. */
  function ExcelWriteError(path: string, reason: string): Error {
    Error(WriteError, "写入 Excel 文件 '" + path + "' 时出错: " + reason)
  }

  /** A string without characters below the space can be stored. */
  lemma AboveControls(v: string)
    requires forall k :: 0 <= k < |v| ==> v[k] >= ' '
    ensures Legal(v)
  {
  }

  /** The header names hold no control character. */
  lemma HeadersLegal()
    ensures IllegalFrom(ExcelHeaders, 0).None?
  {
    AboveControls("序号");
    AboveControls("开始时间");
    AboveControls("结束时间");
    AboveControls("字幕内容");
    IllegalFromFirst(ExcelHeaders, 0);
  }

  /** One more entry adds its row at the end. */
  lemma DataRowsSnoc(data: seq<seq<string>>, entry: seq<string>)
    ensures DataRows(data + [entry]) == DataRows(data) + [StoredRow(entry)]
  {
    var d := data + [entry];
    assert forall i :: 0 <= i < |data| ==> d[i] == data[i];
  }

  /** The worksheet being filled. */
  class Worksheet {
    var rows: Sheet

    constructor ()
      ensures rows == []
    {
      rows := [];
    }

    /**
     * `ws.append(values)`: one cell per value, in order.  A value that
     * cannot be stored raises, and the row is not added.
     */
    method Append(values: seq<string>) returns (err: Option<string>)
      modifies this
      ensures err == IllegalFrom(values, 0)
      ensures err.None? ==> rows == old(rows) + [StoredRow(values)]
      ensures err.Some? ==> rows == old(rows)
    {
      var row: seq<Cell> := [];
      for j := 0 to |values|
        invariant |row| == j
        invariant forall k :: 0 <= k < j ==> row[k] == Stored(values[k])
        invariant IllegalFrom(values, 0) == IllegalFrom(values, j)
      {
        var v := values[j];
        if !Legal(v) {
          return Some(Truncated(v));
        }
        row := row + [Stored(v)];
      }
      assert row == StoredRow(values);
      rows := rows + [row];
      return None;
    }
  }

  /** The output workbook file; `sheet` is what it holds, None while nothing has been saved. */
  class XlsxFile {
    var sheet: Option<Sheet>

    constructor ()
      ensures sheet == None
    {
      sheet := None;
    }

    /** `wb.save(path)`: the file is replaced by the sheet. */
    method Save(s: Sheet)
      modifies this
      ensures sheet == Some(s)
    {
      sheet := Some(s);
    }
  }

  /**
   * What `write_to_excel` returns or raises: the first value that cannot be
   * stored, a failed save, or success.
   */
  function ExcelWriteResult(path: string, data: seq<seq<string>>, saveFailure: Option<string>): Result<()> {
    var bad := IllegalRowFrom(data, 0);
    if bad.Some? then Err(ExcelWriteError(path, IllegalMessage(bad.value)))
    else if saveFailure.Some? then Err(ExcelWriteError(path, saveFailure.value))
    else Ok(())
  }

  /**
   * `write_to_excel(data, path)`; `saveFailure` is the reason saving fails,
   * if it does.  The header row goes first and every entry follows in order;
   * a value that cannot be stored or a failed save raises a WriteError naming
   * the file, and the file is then left as it was.
   */
  method WriteToExcel(path: string, data: seq<seq<string>>, out: XlsxFile, saveFailure: Option<string>)
    returns (r: Result<()>)
    modifies out
    ensures r == ExcelWriteResult(path, data, saveFailure)
    ensures out.sheet == if r.Ok? then Some(ExcelSheet(data)) else old(out.sheet)
  {
    var ws := new Worksheet();
    HeadersLegal();
    var err := ws.Append(ExcelHeaders);
    assert err.None?;
    for i := 0 to |data|
      invariant ws.rows == [StoredRow(ExcelHeaders)] + DataRows(data[..i])
      invariant IllegalRowFrom(data, 0) == IllegalRowFrom(data, i)
      invariant out.sheet == old(out.sheet)
    {
      TakeSnoc(data, i);
      DataRowsSnoc(data[..i], data[i]);
      var e := ws.Append(data[i]);
      if e.Some? {
        return Err(ExcelWriteError(path, IllegalMessage(e.value)));
      }
    }
    assert data[..|data|] == data;
    if saveFailure.Some? {
      return Err(ExcelWriteError(path, saveFailure.value));
    }
    out.Save(ws.rows);
    return Ok(());
  }

  // ---------------------------------------------------------------------
  // Reading.
  // ---------------------------------------------------------------------

  /** The header row a readable sheet starts with. */
  const HeaderCells: seq<Cell> := [Some(Str("序号")), Some(Str("开始时间")), Some(Str("结束时间")), Some(Str("字幕内容"))]

  /** `str(value)`; an empty cell is the string "None". */
  function StrOf(c: Cell): string {
    match c
    case None => "None"
    case Some(Str(s)) => s
    case Some(Int(i)) => ShowInt(i)
    case Some(Other(text, _, _)) => text
  }

  /** The truth value of a cell's value. */
  predicate Truthy(c: Cell) {
    match c
    case None => false
    case Some(Str(s)) => s != ""
    case Some(Int(i)) => i != 0
    case Some(Other(_, _, t)) => t
  }

  /** `repr(value)`; a string is shown in single quotes. */
  function ReprOf(c: Cell): string {
    match c
    case None => "None"
    case Some(Str(s)) => "'" + s + "'"
    case Some(Int(i)) => ShowInt(i)
    case Some(Other(_, repr, _)) => repr
  }

  /** The items of a list's repr, separated by ", ". */
  function ReprItems(cells: seq<Cell>): string {
    if cells == [] then ""
    else if |cells| == 1 then ReprOf(cells[0])
    else ReprOf(cells[0]) + ", " + ReprItems(cells[1..])
  }

  /** `repr(list)` */
  function ReprList(cells: seq<Cell>): string {
    "[" + ReprItems(cells) + "]"
  }

  /** The ParseError for a sheet whose first row is `actual` instead of the header. */
  function HeaderError(actual: seq<Cell>): Error {
    Error(ParseError, MsgIncorrectHeaderExpected + ReprList(HeaderCells) + MsgIncorrectHeaderActual + ReprList(actual))
  }

  /** The ParseError for a workbook that cannot be read, with the text of the exception. */
  function XlsxError(path: string, reason: string): Error {
    Error(ParseError, "解析 Excel 文件 '" + path + "' 时出错: " + reason)
  }

  /** A data row the reader keeps: one with a non-empty cell and at least four cells. */
  predicate Kept(row: seq<Cell>) {
    (exists k :: 0 <= k < |row| && row[k].Some?) && |row| >= 4
  }

  /** The entry read from a kept row; a falsy text cell gives "". */
  function EntryOf(row: seq<Cell>): (e: seq<string>)
    requires |row| >= 4
    ensures |e| == 4
  {
    [StrOf(row[0]), StrOf(row[1]), StrOf(row[2]), if Truthy(row[3]) then StrOf(row[3]) else ""]
  }

  /** The entries read from data rows, in order. */
  function DataOf(rows: Sheet): (data: seq<seq<string>>)
    ensures forall k :: 0 <= k < |data| ==> |data[k]| == 4
  {
    if rows == [] then []
    else (if Kept(rows[0]) then [EntryOf(rows[0])] else []) + DataOf(rows[1..])
  }

  /** What `parse_xlsx` returns for a workbook whose active sheet is `sheet`. */
  function XlsxRows(path: string, sheet: Sheet): Result<seq<seq<string>>> {
    if sheet == [] then Err(XlsxError(path, ""))
    else if sheet[0] != HeaderCells then Err(HeaderError(sheet[0]))
    else Ok(DataOf(sheet[1..]))
  }

  /** Reading rows one after another reads each in turn. */
  lemma {:induction false} DataOfAppend(a: Sheet, b: Sheet)
    ensures DataOf(a + b) == DataOf(a) + DataOf(b)
  {
    if a == [] {
      assert a + b == b;
    } else {
      assert (a + b)[1..] == a[1..] + b;
      DataOfAppend(a[1..], b);
    }
  }

  /** Rows that are skipped leave no trace: dropping them changes nothing. */
  lemma SkippedRowIgnored(before: Sheet, row: seq<Cell>, after: Sheet)
    requires !Kept(row)
    ensures DataOf(before + [row] + after) == DataOf(before + after)
  {
    var one: Sheet := [row];
    assert one[1..] == [];
    DataOfAppend(before, one);
    DataOfAppend(before + one, after);
    DataOfAppend(before, after);
  }

  /**
   * An entry read from a row copies the first three cells as `str()` does, so
   * an empty index cell becomes the string "None", while an empty or other
   * falsy text cell becomes "".
   */
  lemma EntryOfEmptyCells(row: seq<Cell>)
    requires |row| >= 4
    ensures row[0].None? ==> EntryOf(row)[0] == "None"
    ensures !Truthy(row[3]) ==> EntryOf(row)[3] == ""
    ensures Truthy(row[3]) ==> EntryOf(row)[3] == StrOf(row[3])
  {
  }

  /** The reader accepts a sheet exactly when it starts with the header row. */
  lemma XlsxRowsAccepts(path: string, sheet: Sheet)
    ensures XlsxRows(path, sheet).Ok? <==> sheet != [] && sheet[0] == HeaderCells
    ensures sheet == [] ==> XlsxRows(path, sheet) == Err(XlsxError(path, ""))
  {
  }

  /** An entry the writer can store and the reader gets back unchanged. */
  predicate Storable(entry: seq<string>) {
    |entry| == 4 && entry[0] != "" && entry[1] != "" && entry[2] != ""
    && forall j :: 0 <= j < 4 ==> |entry[j]| <= MaxCellLength && Legal(entry[j])
  }

  /** A storable entry is written as a kept row that reads back as the entry. */
  lemma StoredEntry(entry: seq<string>)
    requires Storable(entry)
    ensures Kept(StoredRow(entry)) && EntryOf(StoredRow(entry)) == entry
  {
    var row := StoredRow(entry);
    assert row[0].Some?;
  }

  /** The data rows of storable entries read back as the entries. */
  lemma {:induction false} DataRowsRoundTrip(data: seq<seq<string>>)
    requires forall i :: 0 <= i < |data| ==> Storable(data[i])
    ensures DataOf(DataRows(data)) == data
  {
    if data != [] {
      var rows := DataRows(data);
      assert rows[1..] == DataRows(data[1..]);
      StoredEntry(data[0]);
      DataRowsRoundTrip(data[1..]);
    }
  }

  /**
   * Reading back the sheet `write_to_excel` saves for entries of four
   * storable strings, the first three non-empty, gives the entries back;
   * nothing in them makes the writer fail.
   */
  lemma ExcelRoundTrip(path: string, data: seq<seq<string>>)
    requires forall i :: 0 <= i < |data| ==> Storable(data[i])
    ensures IllegalRowFrom(data, 0).None?
    ensures XlsxRows(path, ExcelSheet(data)) == Ok(data)
  {
    StorableLegal(data);
    HeaderStored();
    var sheet := ExcelSheet(data);
    assert sheet[1..] == DataRows(data);
    DataRowsRoundTrip(data);
  }

  /** Storable entries hold nothing the writer refuses. */
  lemma StorableLegal(data: seq<seq<string>>)
    requires forall i :: 0 <= i < |data| ==> Storable(data[i])
    ensures IllegalRowFrom(data, 0).None?
  {
    StorableLegalFrom(data, 0);
  }

  /** From row `i` on, storable entries hold nothing the writer refuses. */
  lemma {:induction false} StorableLegalFrom(data: seq<seq<string>>, i: nat)
    requires i <= |data|
    requires forall n :: 0 <= n < |data| ==> Storable(data[n])
    ensures IllegalRowFrom(data, i).None?
    decreases |data| - i
  {
    if i < |data| {
      IllegalFromFirst(data[i], 0);
      StorableLegalFrom(data, i + 1);
    }
  }

  /** The header row as written is the header row the reader expects. */
  lemma HeaderStored()
    ensures StoredRow(ExcelHeaders) == HeaderCells
  {
  }

  /**
   * `parse_xlsx(path)`; the loading of the workbook is given as `book`.  A
   * sheet without the header row fails with a ParseError, rows that are
   * empty or shorter than four cells are skipped, and every other row gives
   * one entry of four strings.
   */
  method ParseXlsx(path: string, book: IoResult<Sheet>) returns (r: Result<seq<seq<string>>>)
    ensures book.IoError? ==> r == Err(XlsxError(path, book.reason))
    ensures book.Read? ==> r == XlsxRows(path, book.content)
  {
    if book.IoError? {
      return Err(XlsxError(path, book.reason));
    }
    var sheet := book.content;
    if |sheet| == 0 {
      return Err(XlsxError(path, ""));
    }
    var headerRow := sheet[0];
    if headerRow != HeaderCells {
      return Err(HeaderError(headerRow));
    }
    var data: seq<seq<string>> := [];
    for i := 1 to |sheet|
      invariant data == DataOf(sheet[1..i])
    {
      var row := sheet[i];
      DataOfAppend(sheet[1..i], [row]);
      assert sheet[1..i + 1] == sheet[1..i] + [row];
      assert DataOf([row]) == (if Kept(row) then [EntryOf(row)] else []) by {
        var one: Sheet := [row];
        assert one[1..] == [];
      }
      if !(exists k :: 0 <= k < |row| && row[k].Some?) {
        continue;
      }
      if |row| < 4 {
        continue;
      }
      var index, startTime, endTime, text := row[0], row[1], row[2], row[3];
      data := data + [[StrOf(index), StrOf(startTime), StrOf(endTime), if Truthy(text) then StrOf(text) else ""]];
    }
    assert sheet[1..|sheet|] == sheet[1..];
    return Ok(data);
  }
}
