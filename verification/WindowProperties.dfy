/** What filling a window promises: the required row, contiguity, the counts, and paging through a whole result. */
module WindowProperties {
  import opened Machine
  import opened CursorWindows
  import opened PackedResult
  import opened WindowFilling

  /** Contents that fit still fit without their first row. */
  ghost predicate SuffixClosed(fits: Fits) {
    forall row: Row, rows: seq<Row> {:trigger fits([row] + rows)} :: fits([row] + rows) ==> fits(rows)
  }

  ghost predicate FitAlone(rows: seq<Row>, fits: Fits, lo: nat, hi: nat) {
    forall i :: lo <= i < hi && i < |rows| ==> fits([rows[i]])
  }

  // ---------- blocks are greedy ----------

  lemma {:induction false} FitsUpTo(rows: seq<Row>, fits: Fits, i: nat, j: nat, k: nat)
    requires PrefixClosed(fits) && i < j <= k <= |rows| && fits(rows[i..k])
    ensures fits(rows[i..j])
    decreases k - j
  {
    if j < k {
      assert rows[i..k] == rows[i..k - 1] + [rows[k - 1]];
      FitsUpTo(rows, fits, i, j, k - 1);
    }
  }

  /** A block is the longest run from its first row that fits: exactly the runs up to its end fit. */
  lemma {:induction false} BlockIsLongest(rows: seq<Row>, fits: Fits, i: nat, j: nat, k: nat)
    requires PrefixClosed(fits) && i <= j <= |rows| && (j > i ==> fits(rows[i..j]))
    requires i < k <= |rows|
    ensures fits(rows[i..k]) <==> k <= BlockEnd(rows, fits, i, j)
    decreases |rows| - j
  {
    if j < |rows| && fits(rows[i..j + 1]) {
      BlockIsLongest(rows, fits, i, j + 1, k);
    } else if k <= j {
      FitsUpTo(rows, fits, i, k, j);
    } else if fits(rows[i..k]) {
      FitsUpTo(rows, fits, i, j + 1, k);
      assert false;
    }
  }

  lemma RowAlone(rows: seq<Row>, fits: Fits, i: nat)
    requires i < |rows|
    ensures fits([rows[i]]) <==> BlockEnd(rows, fits, i, i) > i
  {
    assert rows[i..i + 1] == [rows[i]];
  }

  // ---------- the block that is kept ----------

  /** Greedy packing from `startPos` begins a block at row `i`. */
  ghost predicate IsCut(rows: seq<Row>, fits: Fits, startPos: nat, i: nat)
    decreases i
  {
    i == startPos ||
    exists j: nat :: j < i <= |rows| && BlockEnd(rows, fits, j, j) == i && IsCut(rows, fits, startPos, j)
  }

  /**
   Whatever the rows, the kept block is one of the packing, not begun after the required row unless it is the first; it
   reaches past the required row or to the end, or is empty because its first row is too large for any window.
   */
  lemma {:induction false} PackedBlock(
    rows: seq<Row>, fits: Fits, startPos: nat, start: nat, iRowRequired: int)
    requires startPos <= start < |rows| && IsCut(rows, fits, startPos, start)
    ensures var f := PackFrom(rows, fits, start, iRowRequired);
      && IsCut(rows, fits, startPos, f.start) && f.end == BlockEnd(rows, fits, f.start, f.start)
      && f.start < |rows| && (f.start == start || f.start <= iRowRequired)
      && (f.end == |rows| || f.end > iRowRequired || f.end == f.start)
    decreases |rows| - start
  {
    var e := BlockEnd(rows, fits, start, start);
    RowAlone(rows, fits, start);
    if e < |rows| {
      RowAlone(rows, fits, e);
      if e <= iRowRequired && fits([rows[e]]) { PackedBlock(rows, fits, startPos, e, iRowRequired); }
    }
  }

  /**
   When the rows up to the required one each fit alone, the window ends up with exactly one block of the greedy
   packing: the one that holds the required row, or the last block if there is no such row.
   */
  lemma FilledWithRequiredBlock(rows: seq<Row>, fits: Fits, startPos: nat, iRowRequired: nat)
    requires startPos <= iRowRequired && startPos <= |rows| && FitAlone(rows, fits, startPos, iRowRequired + 1)
    ensures var f := Fill(rows, fits, startPos, iRowRequired);
      && IsCut(rows, fits, startPos, f.start) && f.end == BlockEnd(rows, fits, f.start, f.start)
      && (f.stopped <==> f.end < |rows|)
      && (if iRowRequired < |rows| then f.start <= iRowRequired < f.end else f.end == |rows|)
  {
    if startPos < |rows| {
      PackedBlock(rows, fits, startPos, startPos, iRowRequired);
      RowAlone(rows, fits, Fill(rows, fits, startPos, iRowRequired).start);
    }
  }

  ghost predicate InWindow(f: Filling, i: int) {
    f.start <= i < f.end
  }

  /** No block that packing begins at or before row `i` has a first row too large for an empty window. */
  ghost predicate BlocksBegin(rows: seq<Row>, fits: Fits, startPos: nat, i: int) {
    forall k: nat :: k <= i && k < |rows| && IsCut(rows, fits, startPos, k) ==> fits([rows[k]])
  }

  /** Filling gets to every block begun at or before the required row, unless it gives up before; it gives up there. */
  lemma {:induction false} PackingReaches(rows: seq<Row>, fits: Fits, startPos: nat, k: nat, iRowRequired: int)
    requires IsCut(rows, fits, startPos, k) && k < |rows| && (k == startPos || k <= iRowRequired)
    ensures startPos <= k && PackFrom(rows, fits, startPos, iRowRequired) ==
            if fits([rows[k]]) then PackFrom(rows, fits, k, iRowRequired) else Filling(k, k, true)
    decreases k
  {
    RowAlone(rows, fits, k);
    if k != startPos {
      var j: nat :| j < k && BlockEnd(rows, fits, j, j) == k && IsCut(rows, fits, startPos, j);
      RowAlone(rows, fits, j);
      PackingReaches(rows, fits, startPos, j, iRowRequired);
    }
  }

  /** For every capacity: the required row is in the window exactly when each block up to it can begin. */
  lemma RequiredRowIsInWindowIff(rows: seq<Row>, fits: Fits, startPos: nat, iRowRequired: nat)
    requires iRowRequired < |rows|
    ensures InWindow(Fill(rows, fits, startPos, iRowRequired), iRowRequired) <==>
            startPos <= iRowRequired && BlocksBegin(rows, fits, startPos, iRowRequired)
  {
    if startPos <= iRowRequired {
      PackedBlock(rows, fits, startPos, startPos, iRowRequired);
      RowAlone(rows, fits, Fill(rows, fits, startPos, iRowRequired).start);
      forall k: nat | k <= iRowRequired && IsCut(rows, fits, startPos, k) && !fits([rows[k]])
        ensures Fill(rows, fits, startPos, iRowRequired) == Filling(k, k, true)
      {
        PackingReaches(rows, fits, startPos, k, iRowRequired);
      }
    }
  }

  /** For every capacity: exactly when the window ends up without any row. */
  lemma WindowIsEmptyIff(rows: seq<Row>, fits: Fits, startPos: nat, iRowRequired: int)
    ensures Fill(rows, fits, startPos, iRowRequired).Window(rows) == [] <==>
            startPos >= |rows| || !BlocksBegin(rows, fits, startPos, Max(startPos, iRowRequired))
  {
    if startPos < |rows| {
      PackedBlock(rows, fits, startPos, startPos, iRowRequired);
      RowAlone(rows, fits, Fill(rows, fits, startPos, iRowRequired).start);
      forall k: nat
        | k <= Max(startPos, iRowRequired) && k < |rows| && IsCut(rows, fits, startPos, k) && !fits([rows[k]])
        ensures Fill(rows, fits, startPos, iRowRequired) == Filling(k, k, true)
      {
        CutIsNotBefore(rows, fits, startPos, k);
        PackingReaches(rows, fits, startPos, k, iRowRequired);
      }
    }
  }

  function Max(i: int, j: int): int {
    if i < j then j else i
  }

  lemma CutIsNotBefore(rows: seq<Row>, fits: Fits, startPos: nat, k: nat)
    requires IsCut(rows, fits, startPos, k)
    ensures startPos <= k
  {
  }

  /** Blocks can begin exactly when all rows fit alone, if contents that fit still fit without their first row. */
  lemma BlocksBeginIffFitAlone(rows: seq<Row>, fits: Fits, startPos: nat, i: nat)
    requires PrefixClosed(fits) && SuffixClosed(fits)
    ensures BlocksBegin(rows, fits, startPos, i) <==> FitAlone(rows, fits, startPos, i + 1)
  {
    forall k: nat | k <= i && k < |rows| && IsCut(rows, fits, startPos, k) ensures startPos <= k {
      CutIsNotBefore(rows, fits, startPos, k);
    }
    if BlocksBegin(rows, fits, startPos, i) { RowsFitAlone(rows, fits, startPos, startPos, i); }
  }

  lemma {:induction false} RowsFitAlone(rows: seq<Row>, fits: Fits, startPos: nat, start: nat, i: nat)
    requires PrefixClosed(fits) && SuffixClosed(fits)
    requires BlocksBegin(rows, fits, startPos, i) && IsCut(rows, fits, startPos, start)
    ensures FitAlone(rows, fits, start, i + 1)
    decreases |rows| - start
  {
    if start <= i && start < |rows| {
      var e := BlockEnd(rows, fits, start, start);
      forall k | start <= k < e ensures fits([rows[k]]) {
        BlockIsLongest(rows, fits, start, start, k + 1);
        LastFitsAlone(rows, fits, start, k);
      }
      RowAlone(rows, fits, start);
      RowsFitAlone(rows, fits, startPos, e, i);
    }
  }

  lemma {:induction false} LastFitsAlone(rows: seq<Row>, fits: Fits, i: nat, j: nat)
    requires SuffixClosed(fits) && i <= j < |rows| && fits(rows[i..j + 1])
    ensures fits([rows[j]])
    decreases j - i
  {
    if i < j {
      assert rows[i..j + 1] == [rows[i]] + rows[i + 1..j + 1];
      LastFitsAlone(rows, fits, i + 1, j);
    } else {
      assert rows[i..j + 1] == [rows[j]];
    }
  }

  /**
   The required row, if there is one, is in the window exactly when it is not before the start and no row from the
   start up to it is too large for an empty window.
   */
  lemma RequiredRowIsInWindow(rows: seq<Row>, fits: Fits, startPos: nat, iRowRequired: nat)
    requires PrefixClosed(fits) && SuffixClosed(fits) && iRowRequired < |rows|
    ensures InWindow(Fill(rows, fits, startPos, iRowRequired), iRowRequired) <==>
            startPos <= iRowRequired && FitAlone(rows, fits, startPos, iRowRequired + 1)
  {
    RequiredRowIsInWindowIff(rows, fits, startPos, iRowRequired);
    BlocksBeginIffFitAlone(rows, fits, startPos, iRowRequired);
  }

  /** Once the required row has been copied, the window is not cleared again. */
  lemma RequiredRowIsNotEvicted(
    rows: seq<Row>, fits: Fits, f: Filling, iRowRequired: int, nRow: nat, iStart: nat, contents: seq<Row>)
    requires Copying(rows, fits, f, iRowRequired, nRow, iStart, contents) && iStart <= iRowRequired < nRow <= |rows|
    ensures f.start == iStart && contents <= f.Window(rows)
  {
  }

  // ---------- without the premise it fails ----------

  function CellSize(cell: Cell): nat {
    match cell
    case Null => 0
    case Integer(_) => 8
    case Float(_) => 8
    case Text(units) => 2 * |units|
    case Blob(bytes) => |bytes|
  }

  function CellsSize(cells: Row): nat {
    if cells == [] then 0 else CellsSize(cells[..|cells| - 1]) + CellSize(cells[|cells| - 1])
  }

  function Size(rows: seq<Row>): nat {
    if rows == [] then 0 else Size(rows[..|rows| - 1]) + 1 + CellsSize(rows[|rows| - 1])
  }

  /** A window with room for contents up to a total size, each row taking some of it. */
  function SizeUpTo(capacity: nat): Fits {
    (rows: seq<Row>) => Size(rows) <= capacity
  }

  lemma SizeSnoc(rows: seq<Row>, row: Row)
    ensures Size(rows + [row]) == Size(rows) + 1 + CellsSize(row)
  {
    assert (rows + [row])[..|rows|] == rows;
  }

  lemma {:induction false} SizeCons(row: Row, rows: seq<Row>)
    ensures Size(rows) <= Size([row] + rows)
  {
    if rows != [] {
      var init, last := rows[..|rows| - 1], rows[|rows| - 1];
      assert rows == init + [last] && [row] + rows == ([row] + init) + [last];
      SizeCons(row, init);
      SizeSnoc(init, last);
      SizeSnoc([row] + init, last);
    }
  }

  lemma {:induction false} PartialIsSmaller(row: Row, k: nat)
    requires k <= |row|
    ensures CellsSize(Partial(row, k)) <= CellsSize(row)
    decreases |row|
  {
    if row == [] {
      assert Partial(row, k) == row;
    } else {
      var init, last := row[..|row| - 1], row[|row| - 1];
      if k == |row| {
        assert Partial(row, k) == row;
      } else {
        assert Partial(row, k)[..|row| - 1] == Partial(init, k);
        assert Partial(row, k)[|row| - 1] == Null;
        PartialIsSmaller(init, k);
      }
    }
  }

  lemma SizeUpToIsClosed(capacity: nat)
    ensures PrefixClosed(SizeUpTo(capacity)) && SuffixClosed(SizeUpTo(capacity))
  {
    var fits := SizeUpTo(capacity);
    forall rows: seq<Row>, row: Row | fits(rows + [row]) ensures fits(rows) {
      SizeSnoc(rows, row);
    }
    forall row: Row, rows: seq<Row> | fits([row] + rows) ensures fits(rows) {
      SizeCons(row, rows);
    }
    forall rows: seq<Row>, row: Row, k: nat | k <= |row| && fits(rows + [row])
      ensures fits(rows + [Partial(row, k)])
    {
      SizeSnoc(rows, row);
      SizeSnoc(rows, Partial(row, k));
      PartialIsSmaller(row, k);
    }
  }

  /** A window of size 3, a second row that never fits, and the third one required. */
  lemma OversizeRowLosesRequiredRow()
    ensures var rows: seq<Row> := [[Null], [Text([0, 0])], [Null]];
      && Fill(rows, SizeUpTo(3), 0, 2) == Filling(1, 1, true)
      && Filling(1, 1, true).Window(rows) == []
      && SizeUpTo(3)([rows[2]])
  {
    var rows: seq<Row> := [[Null], [Text([0, 0])], [Null]];
    var fits := SizeUpTo(3);
    assert CellsSize([Null]) == 0 && CellsSize([Text([0, 0])]) == 4;
    assert Size([]) == 0 && Size([] + [rows[0]]) == 1 && Size([] + [rows[1]]) == 5;
    assert rows[0..1] == [] + [rows[0]];
    assert rows[0..2] == [rows[0]] + [rows[1]];
    SizeSnoc([], rows[0]);
    SizeSnoc([], rows[1]);
    SizeSnoc([], rows[2]);
    SizeSnoc([rows[0]], rows[1]);
    assert BlockEnd(rows, fits, 0, 0) == BlockEnd(rows, fits, 0, 1) == 1;
  }

  // ---------- the start and the counts ----------

  /** The window's first row only moves forward, and never beyond the required row. */
  lemma {:induction false} StartNeverPassesRequired(rows: seq<Row>, fits: Fits, start: nat, iRowRequired: int)
    ensures var f := Fill(rows, fits, start, iRowRequired); f.start == start || start < f.start <= iRowRequired
    decreases |rows| - start
  {
    if start < |rows| {
      var e := BlockEnd(rows, fits, start, start);
      if e < |rows| && e <= iRowRequired && fits([rows[e]]) {
        RowAlone(rows, fits, start);
        StartNeverPassesRequired(rows, fits, e, iRowRequired);
      }
    }
  }

  /**
   Each restart but the last moves the start on by at least a row, and none comes when rows are only asked for from
   after the required one.
   */
  lemma {:induction false} RestartsAreBounded(rows: seq<Row>, fits: Fits, start: nat, iRowRequired: int)
    ensures Restarts(rows, fits, start, iRowRequired) <= Fill(rows, fits, start, iRowRequired).start - start + 1
    ensures start > iRowRequired ==> Restarts(rows, fits, start, iRowRequired) == 0
    decreases |rows| - start
  {
    if start < |rows| {
      var e := BlockEnd(rows, fits, start, start);
      if e < |rows| && e <= iRowRequired && fits([rows[e]]) {
        RowAlone(rows, fits, start);
        RestartsAreBounded(rows, fits, e, iRowRequired);
      }
    }
  }

  /** No block begins inside another one. */
  lemma {:induction false} CutsSkipRows(rows: seq<Row>, fits: Fits, startPos: nat, i: nat, k: nat)
    requires IsCut(rows, fits, startPos, i) && IsCut(rows, fits, startPos, k) && i < k
    ensures i <= |rows| && BlockEnd(rows, fits, i, i) <= k
    decreases k
  {
    CutIsNotBefore(rows, fits, startPos, i);
    var j: nat :| j < k <= |rows| && BlockEnd(rows, fits, j, j) == k && IsCut(rows, fits, startPos, j);
    if j < i {
      CutsSkipRows(rows, fits, startPos, j, i);
    } else if i < j {
      CutsSkipRows(rows, fits, startPos, i, j);
    }
  }

  /** The rows after `lo`, up to `hi`, at which a block begins. */
  ghost function Cuts(rows: seq<Row>, fits: Fits, startPos: nat, lo: nat, hi: nat): set<nat> {
    set k: nat | lo < k <= hi && IsCut(rows, fits, startPos, k)
  }

  /**
   The window is begun again once for each block after the first, up to the one that is kept, and once in vain if
   already the first row is too large.
   */
  lemma RestartsAreBlocks(rows: seq<Row>, fits: Fits, startPos: nat, iRowRequired: int)
    ensures var f := Fill(rows, fits, startPos, iRowRequired);
      Restarts(rows, fits, startPos, iRowRequired) == |Cuts(rows, fits, startPos, startPos, f.start)| +
        if startPos < |rows| && startPos <= iRowRequired && !fits([rows[startPos]]) then 1 else 0
  {
    if startPos < |rows| {
      RestartsFrom(rows, fits, startPos, startPos, iRowRequired);
    } else {
      assert Fill(rows, fits, startPos, iRowRequired).start == startPos;
      NoCuts(rows, fits, startPos, startPos);
    }
  }

  lemma {:induction false} RestartsFrom(rows: seq<Row>, fits: Fits, startPos: nat, start: nat, iRowRequired: int)
    requires start < |rows| && IsCut(rows, fits, startPos, start)
    ensures var f := PackFrom(rows, fits, start, iRowRequired);
      Restarts(rows, fits, start, iRowRequired) == |Cuts(rows, fits, startPos, start, f.start)| +
        if start <= iRowRequired && !fits([rows[start]]) then 1 else 0
    decreases |rows| - start
  {
    RowAlone(rows, fits, start);
    var e := BlockEnd(rows, fits, start, start);
    var f := PackFrom(rows, fits, start, iRowRequired);
    if start < e < |rows| && e <= iRowRequired {
      assert IsCut(rows, fits, startPos, e);
      if fits([rows[e]]) { RestartsFrom(rows, fits, startPos, e, iRowRequired); }
      hide IsCut, BlockEnd;
      CutsFrom(rows, fits, startPos, start, e, f.start);
      NoCuts(rows, fits, startPos, e);
    } else {
      hide IsCut, BlockEnd;
      assert f.start == start;
      NoCuts(rows, fits, startPos, start);
    }
  }

  lemma NoCuts(rows: seq<Row>, fits: Fits, startPos: nat, i: nat)
    ensures Cuts(rows, fits, startPos, i, i) == {}
  {
  }

  lemma CutsFrom(rows: seq<Row>, fits: Fits, startPos: nat, i: nat, e: nat, hi: nat)
    requires i < e <= hi && e <= |rows| && BlockEnd(rows, fits, i, i) == e && IsCut(rows, fits, startPos, i)
    ensures |Cuts(rows, fits, startPos, i, hi)| == 1 + |Cuts(rows, fits, startPos, e, hi)|
  {
    assert IsCut(rows, fits, startPos, e);
    forall k: nat | i < k && IsCut(rows, fits, startPos, k) ensures e <= k {
      CutsSkipRows(rows, fits, startPos, i, k);
    }
    hide *;
    FirstCut(rows, fits, startPos, i, e, hi);
  }

  lemma FirstCut(rows: seq<Row>, fits: Fits, startPos: nat, i: nat, e: nat, hi: nat)
    requires i < e <= hi && IsCut(rows, fits, startPos, e)
    requires forall k: nat :: i < k && IsCut(rows, fits, startPos, k) ==> e <= k
    ensures |Cuts(rows, fits, startPos, i, hi)| == 1 + |Cuts(rows, fits, startPos, e, hi)|
  {
    hide IsCut;
    assert Cuts(rows, fits, startPos, i, hi) == {e} + Cuts(rows, fits, startPos, e, hi);
    assert e !in Cuts(rows, fits, startPos, e, hi);
  }

  /** If the first row asked for is the required one and fits alone, the window is never begun again. */
  lemma NoRestart(rows: seq<Row>, fits: Fits, start: nat)
    requires FitAlone(rows, fits, start, start + 1)
    ensures Restarts(rows, fits, start, start) == 0
  {
    if start < |rows| { RowAlone(rows, fits, start); }
  }

  /**
   The word that is returned, without and with counting all rows: the same start; the window's length from the first;
   the total from the second. The counts agree just when the rows ended before the window was full.
   */
  lemma ReturnedWord(rows: seq<Row>, fits: Fits, startPos: count, iRowRequired: int32)
    requires |rows| < 0x8000_0000
    ensures var f := Fill(rows, fits, startPos, iRowRequired);
      f.start < 0x8000_0000 &&
      var word, counted := Pack(f.start, f.RowCount(rows, false)), Pack(f.start, f.RowCount(rows, true));
      && StartOf(word) == StartOf(counted) == f.start
      && CountOf(counted) == |rows| >= CountOf(word)
      && (CountOf(word) == |rows| <==> !f.stopped)
      && |f.Window(rows)| == (if CountOf(word) > StartOf(word) then CountOf(word) - StartOf(word) else 0)
  {
  }

  /** Row `i` is in the window and the next one is not. */
  ghost predicate LastCopied(f: Filling, i: int) {
    InWindow(f, i) && !InWindow(f, i + 1)
  }

  /**
   Without counting all rows, the count is documented as one greater than the index of the last row copied. For every
   capacity, that is so exactly when there is a row at the start and each block up to the required row can begin.
   Otherwise the window is empty; then the count is the start, or less if the start is beyond the end of the rows.
   */
  lemma CountIsAfterLastCopiedIff(rows: seq<Row>, fits: Fits, startPos: count, iRowRequired: int32)
    requires |rows| < 0x8000_0000
    ensures var f := Fill(rows, fits, startPos, iRowRequired);
      f.start < 0x8000_0000 &&
      var word := Pack(f.start, f.RowCount(rows, false));
      && (LastCopied(f, CountOf(word) - 1) <==>
          startPos < |rows| && BlocksBegin(rows, fits, startPos, Max(startPos, iRowRequired)))
      && (LastCopied(f, CountOf(word) - 1) <==> f.Window(rows) != [])
      && (CountOf(word) < StartOf(word) <==> startPos > |rows|)
      && (f.Window(rows) == [] && startPos <= |rows| ==> CountOf(word) == StartOf(word))
  {
    hide BlocksBegin, PackFrom, StartOf, CountOf;
    WindowIsEmptyIff(rows, fits, startPos, iRowRequired);
    var f := Fill(rows, fits, startPos, iRowRequired);
    Unpack(f.start, f.RowCount(rows, false));
  }

  /** The same, in terms of single rows: no row up to the required one is too large for an empty window. */
  lemma CountIsAfterLastCopied(rows: seq<Row>, fits: Fits, startPos: count, iRowRequired: int32)
    requires PrefixClosed(fits) && SuffixClosed(fits) && |rows| < 0x8000_0000
    ensures var f := Fill(rows, fits, startPos, iRowRequired);
      f.start < 0x8000_0000 &&
      (LastCopied(f, CountOf(Pack(f.start, f.RowCount(rows, false))) - 1) <==>
       startPos < |rows| && FitAlone(rows, fits, startPos, Max(startPos, iRowRequired) + 1))
  {
    hide PrefixClosed, SuffixClosed, BlocksBegin, FitAlone, PackFrom, CountOf, LastCopied;
    CountIsAfterLastCopiedIff(rows, fits, startPos, iRowRequired);
    BlocksBeginIffFitAlone(rows, fits, startPos, Max(startPos, iRowRequired));
  }

  /** Two fillings that copy no row: one starts beyond the rows, the other gives up before the required row. */
  lemma CountWithoutLastCopied()
    ensures
      && Fill([], SizeUpTo(3), 5, 5) == Filling(5, 5, false)
      && var word := Pack(5, Filling(5, 5, false).RowCount([], false));
      && StartOf(word) == 5 && CountOf(word) == 0
    ensures var rows: seq<Row> := [[Null], [Text([0, 0])], [Null]];
      && Fill(rows, SizeUpTo(3), 0, 2) == Filling(1, 1, true)
      && var word := Pack(1, Filling(1, 1, true).RowCount(rows, false));
      && StartOf(word) == CountOf(word) == 1 && !LastCopied(Filling(1, 1, true), 0)
  {
    OversizeRowLosesRequiredRow();
  }

  // ---------- paging ----------

  /**
   Asking for the row after the window again and again visits the whole result, nothing lost and nothing twice, since
   every call leaves the statement rewound. It succeeds if the window accepts its columns each time and the statement
   ends without an error.
   */
  method PageThrough(win: CursorWindow, stmt: Statement) returns (all: seq<Row>, exit: Exit)
    requires PrefixClosed(win.fits) && FitAlone(stmt.rows, win.fits, 0, |stmt.rows|)
    requires stmt.Valid() && stmt.AtStart() && |stmt.rows| < 0x8000_0000
    modifies win, stmt
    ensures stmt.Valid() && stmt.AtStart()
    ensures exit == Completed ==> all == stmt.rows && stmt.end == SQLITE_DONE
    ensures exit == Threw ==> stmt.end != SQLITE_DONE
    ensures exit == Refused <==> !AcceptsAll(win.accepts, old(win.asked), win.asked)
    ensures old(win.asked) < win.asked <= old(win.asked) + |stmt.rows| + 1
    ensures old(win.AcceptsNext(|stmt.rows| + 1)) && stmt.end == SQLITE_DONE ==> exit == Completed
  {
    hide Fill, Restarts, PrefixClosed, IsCut, StartOf, CountOf;
    all := [];
    var total := 1;
    while |all| < total
      invariant stmt.Valid() && stmt.AtStart()
      invariant |all| <= |stmt.rows| && all == stmt.rows[..|all|]
      invariant total == |stmt.rows| || (total == 1 && all == [])
      invariant win.asked == old(win.asked) ==> total == 1 && all == []
      invariant win.asked > old(win.asked) ==> stmt.end == SQLITE_DONE
      invariant old(win.asked) <= win.asked <= old(win.asked) + |all| + (if |all| < total then 0 else 1)
      invariant AcceptsAll(win.accepts, old(win.asked), win.asked)
      decreases |stmt.rows| - |all|, total != |stmt.rows|
    {
      var at := |all|;
      NoRestart(stmt.rows, win.fits, at);
      var word;
      word, exit := ExecuteForCursorWindow(win, stmt, at, at, true);
      if exit != Completed { return; }
      FilledWithRequiredBlock(stmt.rows, win.fits, at, at);
      StartNeverPassesRequired(stmt.rows, win.fits, at, at);
      Unpack(at, |stmt.rows|);
      ghost var f := Fill(stmt.rows, win.fits, at, at);
      assert f.start == at && win.rows == stmt.rows[at..f.end];
      assert stmt.rows[..at] + stmt.rows[at..f.end] == stmt.rows[..f.end];
      all := all + win.rows;
      total := CountOf(word);
    }
    exit := Completed;
  }

  /** The same without asking for the total, or with it and not looking: go on until no row comes. */
  method PageUntilEmpty(win: CursorWindow, stmt: Statement, countAllRows: bool)
    returns (all: seq<Row>, exit: Exit)
    requires PrefixClosed(win.fits) && FitAlone(stmt.rows, win.fits, 0, |stmt.rows|)
    requires stmt.Valid() && stmt.AtStart() && |stmt.rows| < 0x8000_0000
    modifies win, stmt
    ensures stmt.Valid() && stmt.AtStart()
    ensures exit == Completed ==> all == stmt.rows && stmt.end == SQLITE_DONE
    ensures exit == Threw ==> stmt.end != SQLITE_DONE
    ensures exit == Refused <==> !AcceptsAll(win.accepts, old(win.asked), win.asked)
    ensures old(win.asked) < win.asked <= old(win.asked) + |stmt.rows| + 1
    ensures old(win.AcceptsNext(|stmt.rows| + 1)) && stmt.end == SQLITE_DONE ==> exit == Completed
  {
    hide Fill, Restarts, PrefixClosed, IsCut;
    all := [];
    var more := true;
    while more
      invariant stmt.Valid() && stmt.AtStart()
      invariant |all| <= |stmt.rows| && all == stmt.rows[..|all|]
      invariant !more ==> |all| == |stmt.rows| && stmt.end == SQLITE_DONE && win.asked > old(win.asked)
      invariant old(win.asked) <= win.asked <= old(win.asked) + |all| + (if more then 0 else 1)
      invariant AcceptsAll(win.accepts, old(win.asked), win.asked)
      decreases |stmt.rows| - |all|, more
    {
      var at := |all|;
      NoRestart(stmt.rows, win.fits, at);
      var word;
      word, exit := ExecuteForCursorWindow(win, stmt, at, at, countAllRows);
      if exit != Completed { return; }
      FilledWithRequiredBlock(stmt.rows, win.fits, at, at);
      StartNeverPassesRequired(stmt.rows, win.fits, at, at);
      ghost var f := Fill(stmt.rows, win.fits, at, at);
      assert f.start == at && win.rows == stmt.rows[at..f.end];
      assert stmt.rows[..at] + stmt.rows[at..f.end] == stmt.rows[..f.end];
      all, more := all + win.rows, win.rows != [];
    }
    exit := Completed;
  }
}
