/**
 The two objects that filling a window works on: the CursorWindow, seen through the Java methods it is changed with,
 and the SQLite statement, seen through stepping, resetting and its column accessors. Then copying one row.
 */
module CursorWindows {
  import opened Machine

  type int64 = x: int | -0x8000_0000_0000_0000 <= x < 0x8000_0000_0000_0000
  type utf16 = x: int | 0 <= x < 0x1_0000

  /** A column value. A floating-point value is its 64-bit pattern, since it is only ever copied. */
  datatype Cell =
    | Null
    | Integer(int64: int64)
    | Float(pattern: nat)
    | Text(units: seq<utf16>)
    | Blob(bytes: seq<byte>)

  type Row = seq<Cell>

  function Nulls(n: nat): Row {
    seq(n, _ => Null)
  }

  /** The first `k` cells of a row, the others not yet written. */
  function Partial(row: Row, k: nat): Row
    requires k <= |row|
  {
    row[..k] + Nulls(|row| - k)
  }

  /** Whatever fits, fits with less in it: without its last row, and with only some cells of its last row written. */
  ghost predicate PrefixClosed(fits: seq<Row> -> bool) {
    && (forall rows: seq<Row>, row: Row {:trigger fits(rows + [row])} :: fits(rows + [row]) ==> fits(rows))
    && (forall rows: seq<Row>, row: Row, k: nat {:trigger fits(rows + [Partial(row, k)])} ::
          k <= |row| && fits(rows + [row]) ==> fits(rows + [Partial(row, k)]))
  }

  /**
   A window of bounded size; `fits` says which contents an empty window has room for. It may refuse to be given columns
   for reasons of its own: `accepts` says whether it does so the first time it is asked, the second time, and so on.
   */
  class CursorWindow {
    const fits: seq<Row> -> bool
    const accepts: nat -> bool
    var asked: nat  // how often columns have been set, or refused
    var numColumns: nat
    var rows: seq<Row>
    var worn: bool  // space of an abandoned row may not have been reclaimed

    constructor (fits: seq<Row> -> bool, accepts: nat -> bool)
      ensures this.fits == fits && this.accepts == accepts && asked == 0 && rows == [] && !worn
    {
      this.fits, this.accepts := fits, accepts;
      asked, numColumns, rows, worn := 0, 0, [], false;
    }

    method Clear()
      modifies this
      ensures rows == [] && !worn && numColumns == old(numColumns) && asked == old(asked)
    {
      rows, worn := [], false;
    }

    method SetNumColumns(n: nat) returns (ok: bool)
      modifies this`numColumns, this`asked
      ensures ok == accepts(old(asked)) && asked == old(asked) + 1
      ensures numColumns == if ok then n else old(numColumns)
    {
      ok, asked := accepts(asked), asked + 1;
      if ok { numColumns := n; }
    }

    /** It accepts columns the next `n` times. */
    ghost predicate AcceptsNext(n: nat)
      reads this
    {
      AcceptsAll(accepts, asked, asked + n)
    }

    method AllocRow() returns (ok: bool)
      modifies this`rows
      ensures !worn ==> ok == fits(old(rows) + [Nulls(numColumns)])
      ensures rows == if ok then old(rows) + [Nulls(numColumns)] else old(rows)
    {
      var reclaimed: bool := *;
      ok := fits(rows + [Nulls(numColumns)]) && (!worn || reclaimed);
      if ok { rows := rows + [Nulls(numColumns)]; }
    }

    method FreeLastRow()
      modifies this`rows, this`worn
      ensures rows == if old(rows) == [] then [] else old(rows)[..|old(rows)| - 1]
    {
      if rows != [] { rows := rows[..|rows| - 1]; }
      worn := true;
    }

    predicate HasCell(iRow: int, iCol: int)
      reads this
    {
      0 <= iRow < |rows| && 0 <= iCol < |rows[iRow]|
    }

    function WithCell(cell: Cell, iRow: nat, iCol: nat): seq<Row>
      requires HasCell(iRow, iCol)
      reads this
    {
      rows[iRow := rows[iRow][iCol := cell]]
    }

    method Put(cell: Cell, iRow: int, iCol: int) returns (ok: bool)
      modifies this`rows
      ensures !worn ==> ok == (old(HasCell(iRow, iCol)) && fits(old(WithCell(cell, iRow, iCol))))
      ensures ok ==> old(HasCell(iRow, iCol))
      ensures rows == if ok then old(WithCell(cell, iRow, iCol)) else old(rows)
    {
      var reclaimed: bool := *;
      ok := HasCell(iRow, iCol) && fits(WithCell(cell, iRow, iCol)) && (!worn || reclaimed);
      if ok { rows := WithCell(cell, iRow, iCol); }
    }
  }

  ghost predicate AcceptsAll(accepts: nat -> bool, lo: nat, hi: nat) {
    forall k: nat :: lo <= k < hi ==> accepts(k)
  }

  // ---------- the statement ----------

  const SQLITE_OK := 0
  const SQLITE_ROW := 100
  const SQLITE_DONE := 101

  const SQLITE_INTEGER := 1
  const SQLITE_FLOAT := 2
  const SQLITE_TEXT := 3
  const SQLITE_BLOB := 4
  const SQLITE_NULL := 5

  function ColumnType(c: Cell): int {
    match c
    case Null => SQLITE_NULL
    case Integer(_) => SQLITE_INTEGER
    case Float(_) => SQLITE_FLOAT
    case Text(_) => SQLITE_TEXT
    case Blob(_) => SQLITE_BLOB
  }

  /** A prepared statement: the rows it returns, and what stepping past them returns, SQLITE_DONE or an error code. */
  class Statement {
    const rows: seq<Row>
    const columnCount: nat
    const end: int
    var next: nat  // rows returned since the last reset
    var last: int  // what the last step returned; SQLITE_OK after a reset

    constructor (rows: seq<Row>, columnCount: nat, end: int)
      requires end != SQLITE_ROW && end != SQLITE_OK && forall i :: 0 <= i < |rows| ==> |rows[i]| == columnCount
      ensures this.rows == rows && this.columnCount == columnCount && this.end == end && Valid() && AtStart()
    {
      this.rows, this.columnCount, this.end := rows, columnCount, end;
      next, last := 0, SQLITE_OK;
    }

    ghost predicate Valid()
      reads this
    {
      && (forall i :: 0 <= i < |rows| ==> |rows[i]| == columnCount)
      && end != SQLITE_ROW && end != SQLITE_OK
      && next <= |rows| && (last == SQLITE_ROW ==> next > 0)
    }

    predicate AtStart()
      reads this
    {
      next == 0 && last == SQLITE_OK
    }

    method Step() returns (rc: int)
      requires Valid() && (last == SQLITE_OK || last == SQLITE_ROW)
      modifies this
      ensures Valid() && last == rc
      ensures old(next) < |rows| ==> rc == SQLITE_ROW && next == old(next) + 1
      ensures old(next) == |rows| ==> rc == end && next == old(next)
    {
      if next < |rows| {
        next, rc := next + 1, SQLITE_ROW;
      } else {
        rc := end;
      }
      last := rc;
    }

    /** Rewinds the statement; reports the error of the last step, if it was one. */
    method Reset() returns (rc: int)
      requires Valid()
      modifies this
      ensures Valid() && AtStart()
      ensures rc == if old(last) in {SQLITE_OK, SQLITE_ROW, SQLITE_DONE} then SQLITE_OK else old(last)
    {
      rc := if last in {SQLITE_OK, SQLITE_ROW, SQLITE_DONE} then SQLITE_OK else last;
      next, last := 0, SQLITE_OK;
    }

    /** The row the statement points to. */
    function Current(): Row
      requires Valid() && last == SQLITE_ROW
      reads this
    {
      rows[next - 1]
    }
  }

  // ---------- copying a row ----------

  lemma PutCompletes(rows: seq<Row>, row: Row, k: nat)
    requires k < |row|
    ensures Partial(row, k)[k := row[k]] == Partial(row, k + 1)
    ensures (rows + [Partial(row, k)])[|rows| := Partial(row, k + 1)] == rows + [Partial(row, k + 1)]
  {
  }

  /**
   Appends the statement's current row to the window, which has `iRow` rows. It is all or nothing: either the row is
   appended, cell by cell in type and value, or the window's rows are as they were; and it succeeds when it fits.
   */
  method CopyRowToWindow(win: CursorWindow, iRow: int, stmt: Statement) returns (bOk: bool)
    requires PrefixClosed(win.fits) && !win.worn && iRow == |win.rows|
    requires stmt.Valid() && stmt.last == SQLITE_ROW && win.numColumns == stmt.columnCount
    modifies win
    ensures bOk == win.fits(old(win.rows) + [stmt.Current()])
    ensures win.rows == if bOk then old(win.rows) + [stmt.Current()] else old(win.rows)
    ensures win.numColumns == old(win.numColumns) && win.asked == old(win.asked) && (bOk ==> !win.worn)
  {
    ghost var rows, row := win.rows, stmt.Current();
    var nCol := stmt.columnCount;
    var i := 0;
    assert Nulls(nCol) == Partial(row, 0);
    bOk := win.AllocRow();
    while bOk && i < nCol
      invariant 0 <= i <= nCol && win.numColumns == nCol && win.asked == old(win.asked)
      invariant bOk ==> win.rows == rows + [Partial(row, i)] && win.fits(win.rows) && !win.worn
      invariant !bOk ==> win.rows == rows && !win.fits(rows + [row])
      decreases nCol - i, bOk
    {
      PutCompletes(rows, row, i);
      var cell := stmt.Current()[i];
      var type_ := ColumnType(cell);
      if type_ == SQLITE_NULL {
        bOk := win.Put(Null, iRow, i);
      } else if type_ == SQLITE_INTEGER {
        bOk := win.Put(Integer(cell.int64), iRow, i);
      } else if type_ == SQLITE_FLOAT {
        bOk := win.Put(Float(cell.pattern), iRow, i);
      } else if type_ == SQLITE_TEXT {
        bOk := win.Put(Text(cell.units), iRow, i);
      } else {
        bOk := win.Put(Blob(cell.bytes), iRow, i);
      }
      if !bOk {
        win.FreeLastRow();
        assert win.rows == rows;
      }
      i := i + 1;
    }
    assert Partial(row, |row|) == row;
  }

  /** Empties the window and gives it the statement's columns. */
  method SetWindowNumColumns(win: CursorWindow, stmt: Statement) returns (bOk: bool)
    modifies win
    ensures win.rows == [] && !win.worn
    ensures bOk == win.accepts(old(win.asked)) && win.asked == old(win.asked) + 1
    ensures win.numColumns == if bOk then stmt.columnCount else old(win.numColumns)
  {
    win.Clear();
    bOk := win.SetNumColumns(stmt.columnCount);
  }
}
