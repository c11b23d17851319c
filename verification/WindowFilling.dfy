/**
 Filling a window from a statement: the loop of the native code, proved against greedy packing. Rows are packed from
 `startPos` on into blocks, each the longest run that fits; the window keeps the block with the required row.
 */
module WindowFilling {
  import opened Machine
  import opened CursorWindows
  import opened PackedResult

  type Fits = seq<Row> -> bool

  /** Where the block that begins at row `i` ends, given that rows i..j are in it. */
  function BlockEnd(rows: seq<Row>, fits: Fits, i: nat, j: nat): (e: nat)
    requires i <= j <= |rows|
    ensures j <= e <= |rows|
    decreases |rows| - j
  {
    if j < |rows| && fits(rows[i..j + 1]) then BlockEnd(rows, fits, i, j + 1) else j
  }

  /**
   A finished filling: rows start..end are in the window (none if there are not so many), and `stopped` says that row
   `end` did not fit, rather than that the rows ended.
   */
  datatype Filling = Filling(start: nat, end: nat, stopped: bool) {
    function Window(rows: seq<Row>): seq<Row> {
      if start <= end <= |rows| then rows[start..end] else []
    }

    /** Rows counted: up to the one that did not fit, or all. */
    function RowCount(rows: seq<Row>, countAllRows: bool): nat {
      if stopped && !countAllRows then end else |rows|
    }
  }

  /** The block that is kept: the first one that ends after the required row, or at which packing cannot go on. */
  function PackFrom(rows: seq<Row>, fits: Fits, start: nat, iRowRequired: int): (f: Filling)
    requires start <= |rows|
    ensures start <= f.start <= f.end <= |rows| && (f.stopped <==> f.end < |rows|)
    decreases |rows| - start
  {
    var e := BlockEnd(rows, fits, start, start);
    if e == |rows| then Filling(start, e, false)
    else if e > iRowRequired then Filling(start, e, true)
    else if fits([rows[e]]) then
      assert rows[e..e + 1] == [rows[e]];
      PackFrom(rows, fits, e, iRowRequired)
    else Filling(e, e, true)
  }

  function Fill(rows: seq<Row>, fits: Fits, startPos: nat, iRowRequired: int): (f: Filling)
    ensures startPos <= f.start <= f.end && (f.stopped <==> f.end < |rows|)
    ensures f.start < f.end ==> f.end <= |rows|
  {
    if startPos <= |rows| then PackFrom(rows, fits, startPos, iRowRequired) else Filling(startPos, startPos, false)
  }

  /** How often the window is cleared and begun again: at every row that does not fit, up to the required one. */
  function Restarts(rows: seq<Row>, fits: Fits, start: nat, iRowRequired: int): nat
    decreases |rows| - start
  {
    if start > |rows| then 0
    else
      var e := BlockEnd(rows, fits, start, start);
      if e == |rows| || e > iRowRequired then 0
      else if fits([rows[e]]) then
        assert rows[e..e + 1] == [rows[e]];
        1 + Restarts(rows, fits, e, iRowRequired)
      else 1
  }

  /** Packing a block from row `i` has got as far as row `j`. */
  ghost predicate InBlock(rows: seq<Row>, fits: Fits, i: nat, j: nat) {
    i <= j <= |rows| && BlockEnd(rows, fits, i, i) == BlockEnd(rows, fits, i, j)
  }

  /** Copying goes on: `contents` is what rows iStart..nRow leave in the window, and the filling will be `f`. */
  ghost predicate Copying(
    rows: seq<Row>, fits: Fits, f: Filling, iRowRequired: int, nRow: nat, iStart: nat, contents: seq<Row>)
  {
    && contents == Filling(iStart, nRow, true).Window(rows)
    && (iStart <= |rows| ==> f == PackFrom(rows, fits, iStart, iRowRequired))
    && (iStart > |rows| ==> f == Filling(iStart, iStart, false))
    && (iStart <= nRow ==> InBlock(rows, fits, iStart, nRow))
  }

  /** Copying is over before the end of the rows. */
  ghost predicate Full(rows: seq<Row>, f: Filling, iStart: nat, contents: seq<Row>) {
    f.stopped && f.start == iStart && contents == f.Window(rows)
  }

  lemma Begin(rows: seq<Row>, fits: Fits, startPos: nat, iRowRequired: int)
    ensures Copying(rows, fits, Fill(rows, fits, startPos, iRowRequired), iRowRequired, 0, startPos, [])
  {
  }

  lemma Skip(rows: seq<Row>, fits: Fits, f: Filling, iRowRequired: int, nRow: nat, iStart: nat, contents: seq<Row>)
    requires Copying(rows, fits, f, iRowRequired, nRow, iStart, contents) && nRow < iStart && nRow < |rows|
    ensures Copying(rows, fits, f, iRowRequired, nRow + 1, iStart, contents)
  {
  }

  /** The row number that the next copy is given is the number of rows in the window. */
  lemma RowsInWindow(
    rows: seq<Row>, fits: Fits, f: Filling, iRowRequired: int, nRow: nat, iStart: nat, contents: seq<Row>)
    requires Copying(rows, fits, f, iRowRequired, nRow, iStart, contents) && nRow <= |rows|
    ensures contents == if iStart <= nRow then rows[iStart..nRow] else []
  {
  }

  lemma Copied(rows: seq<Row>, fits: Fits, f: Filling, iRowRequired: int, nRow: nat, iStart: nat, contents: seq<Row>)
    requires Copying(rows, fits, f, iRowRequired, nRow, iStart, contents) && iStart <= nRow < |rows|
    requires fits(contents + [rows[nRow]])
    ensures Copying(rows, fits, f, iRowRequired, nRow + 1, iStart, contents + [rows[nRow]])
  {
  }

  lemma Overflowed(
    rows: seq<Row>, fits: Fits, f: Filling, iRowRequired: int, nRow: nat, iStart: nat, contents: seq<Row>)
    requires Copying(rows, fits, f, iRowRequired, nRow, iStart, contents) && iStart <= nRow < |rows|
    requires !fits(contents + [rows[nRow]])
    ensures
      if nRow > iRowRequired then Full(rows, f, iStart, contents) && f.end == nRow
      else if fits([rows[nRow]]) then Copying(rows, fits, f, iRowRequired, nRow + 1, nRow, [rows[nRow]])
      else Full(rows, f, nRow, []) && f.end == nRow
    ensures Restarts(rows, fits, iStart, iRowRequired) ==
            if nRow > iRowRequired then 0
            else if fits([rows[nRow]]) then 1 + Restarts(rows, fits, nRow, iRowRequired) else 1
  {
    assert contents + [rows[nRow]] == rows[iStart..nRow + 1];
    assert [rows[nRow]] == rows[nRow..nRow + 1];
  }

  lemma AllRowsSeen(rows: seq<Row>, fits: Fits, f: Filling, iRowRequired: int, iStart: nat, contents: seq<Row>)
    requires Copying(rows, fits, f, iRowRequired, |rows|, iStart, contents)
    ensures !f.stopped && f.start == iStart && contents == f.Window(rows)
    ensures Restarts(rows, fits, iStart, iRowRequired) == 0
  {
  }

  /** The ways out of the loop: with a result; with an SQLiteException; because the window refused the columns. */
  datatype Exit = Completed | Threw | Refused

  /**
   Copies the current row, number `nRow`, into the window. If it does not fit and the required row has not been copied,
   the window is cleared and begins again with this row, unless it then refuses its columns.
   */
  method CopyOrRestart(
      win: CursorWindow, stmt: Statement, nRow: nat, iStart: nat, iRowRequired: int32, ghost f: Filling)
    returns (bOk: bool, start: nat, refused: bool)
    requires PrefixClosed(win.fits) && !win.worn && stmt.Valid() && stmt.last == SQLITE_ROW
    requires stmt.next == nRow + 1 && win.numColumns == stmt.columnCount && iStart <= nRow
    requires Copying(stmt.rows, win.fits, f, iRowRequired, nRow, iStart, win.rows)
    modifies win
    ensures win.asked == old(win.asked) || win.asked == old(win.asked) + 1
    ensures refused <==> win.asked > old(win.asked) && !win.accepts(old(win.asked))
    ensures var before := Restarts(stmt.rows, win.fits, iStart, iRowRequired);
      && (refused ==> before > 0)
      && (!refused ==> before == win.asked - old(win.asked) +
                                 if bOk then Restarts(stmt.rows, win.fits, start, iRowRequired) else 0)
    ensures refused ==> win.rows == []
    ensures !refused ==> win.numColumns == stmt.columnCount && (start == iStart || start == nRow)
    ensures !refused && bOk ==>
              !win.worn && Copying(stmt.rows, win.fits, f, iRowRequired, nRow + 1, start, win.rows)
    ensures !refused && !bOk ==> Full(stmt.rows, f, start, win.rows) && f.end == nRow
  {
    hide Copying, Full, PrefixClosed, Restarts;
    ghost var rows, fits, contents := stmt.rows, win.fits, win.rows;
    assert stmt.Current() == rows[nRow];
    RowsInWindow(rows, fits, f, iRowRequired, nRow, iStart, contents);
    start, refused := iStart, false;
    bOk := CopyRowToWindow(win, nRow - start, stmt);
    if bOk {
      Copied(rows, fits, f, iRowRequired, nRow, iStart, contents);
    } else {
      Overflowed(rows, fits, f, iRowRequired, nRow, iStart, contents);
      if nRow <= iRowRequired {
        bOk := SetWindowNumColumns(win, stmt);
        if !bOk { return false, start, true; }
        start := nRow;
        assert [] + [rows[nRow]] == [rows[nRow]];
        bOk := CopyRowToWindow(win, nRow - start, stmt);
      }
    }
  }

  method ExecuteForCursorWindow(
      win: CursorWindow, stmt: Statement, startPos: count, iRowRequired: int32, countAllRows: bool)
    returns (lRet: int, exit: Exit)
    requires PrefixClosed(win.fits)
    requires stmt.Valid() && stmt.AtStart() && |stmt.rows| < 0x8000_0000
    modifies win, stmt
    ensures stmt.Valid() && stmt.AtStart()
    ensures var n := 1 + Restarts(stmt.rows, win.fits, startPos, iRowRequired);
      && (exit == Refused <==> !old(win.AcceptsNext(n)))
      && (exit == Refused ==> old(win.asked) < win.asked <= old(win.asked) + n && !win.accepts(win.asked - 1))
      && (exit != Refused ==> win.asked == old(win.asked) + n)
    ensures var f := Fill(stmt.rows, win.fits, startPos, iRowRequired);
      var toTheEnd := countAllRows || f.end >= |stmt.rows|;
      && (exit == Refused ==> win.rows == [] && lRet == 0)
      && (exit != Refused ==>
            && win.rows == (if f.start < f.end then stmt.rows[f.start..f.end] else [])
            && (exit == Threw <==> toTheEnd && stmt.end != SQLITE_DONE))
      && (exit == Threw ==> lRet == 0)
      && (exit == Completed ==>
            f.start < 0x8000_0000 && lRet == f.start * 0x1_0000_0000 + if toTheEnd then |stmt.rows| else f.end)
  {
    hide Fill, Copying, PrefixClosed, Restarts, Number, Bits, Jlong;
    ghost var asked := win.asked;
    var bOk := SetWindowNumColumns(win, stmt);
    if !bOk { return 0, Refused; }

    ghost var rows, fits := stmt.rows, win.fits;
    ghost var f := Fill(rows, fits, startPos, iRowRequired);
    ghost var n := 1 + Restarts(rows, fits, startPos, iRowRequired);
    Begin(rows, fits, startPos, iRowRequired);
    var nRow: nat := 0;
    var iStart: nat := startPos;
    var rc := stmt.Step();
    while rc == SQLITE_ROW
      invariant stmt.Valid() && stmt.last == rc && win.numColumns == stmt.columnCount
      invariant rc == SQLITE_ROW ==> stmt.next == nRow + 1
      invariant rc != SQLITE_ROW ==> rc == stmt.end && stmt.next == nRow == |rows|
      invariant iStart < 0x8000_0000
      invariant bOk ==> !win.worn && Copying(rows, fits, f, iRowRequired, nRow, iStart, win.rows)
      invariant !bOk ==> countAllRows && Full(rows, f, iStart, win.rows)
      invariant asked < win.asked && AcceptsAll(win.accepts, asked, win.asked)
      invariant win.asked + (if bOk then Restarts(rows, fits, iStart, iRowRequired) else 0) == asked + n
      decreases |rows| - stmt.next, rc == SQLITE_ROW
    {
      if nRow >= iStart && bOk {
        var refused;
        bOk, iStart, refused := CopyOrRestart(win, stmt, nRow, iStart, iRowRequired, f);
        if refused {
          var _ := stmt.Reset();
          return 0, Refused;
        }
        if !bOk && !countAllRows { break; }
      } else if bOk {
        Skip(rows, fits, f, iRowRequired, nRow, iStart, win.rows);
      }
      nRow := nRow + 1;
      rc := stmt.Step();
    }
    if bOk {
      AllRowsSeen(rows, fits, f, iRowRequired, iStart, win.rows);
    }
    assert win.rows == f.Window(rows) && f.start == iStart && nRow == f.RowCount(rows, countAllRows);

    var err := stmt.Reset();
    if err != SQLITE_OK { return 0, Threw; }
    WordIsPack(iStart, nRow);
    return Number(Bits(Jlong(iStart), Jlong(nRow))), Completed;
  }
}
