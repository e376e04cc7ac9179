/** What the editing sequences do to the text, cell by cell and row by row. */
module EditTheorems {
  import opened Basics
  import opened Grid
  import opened Screen
  import opened VtParser
  import opened ScrollTheorems
  import opened MotionTheorems

  /** The cells of the cursor's row. */
  function Line(t: Term): seq<Cell>
    requires Valid(t)
  {
    t.screen[t.cursor.row].cells
  }

  /** Nothing is changed but the cells of the cursor's row. */
  predicate LineChanged(t: Term, u: Term)
    requires Valid(t)
  {
    && u == t.(screen := u.screen)
    && |u.screen| == |t.screen|
    && u.screen[t.cursor.row].wrapped == t.screen[t.cursor.row].wrapped
    && forall i :: 0 <= i < |t.screen| && i != t.cursor.row ==> u.screen[i] == t.screen[i]
  }

  /** What erasing leaves in a line: a space in the colours of the cursor. */
  function Wiped(t: Term): Cell {
    Cell(0x20, t.cursor.attrs, 1)
  }

  /** As long as before, and holding nothing. */
  predicate Emptied(row: Row, was: Row) {
    && |row.cells| == |was.cells| && !row.wrapped
    && forall j :: 0 <= j < |row.cells| ==> row.cells[j] == Cell(0x20, PLAIN, 1)
  }

  predicate BlankLine(row: Row, cols: nat) {
    && |row.cells| == cols && !row.wrapped
    && forall j :: 0 <= j < cols ==> row.cells[j] == Cell(0x20, PLAIN, 1)
  }

  /** A parameter that selects a variant: absent is zero. */
  function Variant(params: seq<u16>): nat {
    if params == [] then 0 else params[0]
  }

  lemma VariantIs(params: seq<u16>)
    ensures Param(params, 0, 0) == Variant(params)
  {
  }

  lemma WithCellsIs(t: Term, cells: seq<Cell>)
    requires Valid(t) && |cells| >= t.cols
    ensures var u := WithCells(t, cells); LineChanged(t, u) && Line(u) == cells
  {
  }

  lemma CursorCellsAre(t: Term)
    requires Valid(t)
    ensures CursorCells(t) == Line(t) && |Line(t)| >= t.cols >= 1
    ensures NewCell(SPACE, t.cursor.attrs) == Wiped(t)
  {
  }

  lemma PartErased(t: Term, from: nat, to: nat)
    requires Valid(t)
    ensures var u := EraseLinePart(t, from, to);
            && LineChanged(t, u) && |Line(u)| == |Line(t)|
            && forall j :: 0 <= j < |Line(t)| ==> Line(u)[j] == if from <= j < Min(to, t.cols) then Wiped(t) else Line(t)[j]
  {
    hide Valid, WithCells, CursorCells, LineChanged, Line, NewCell, Wiped;
    CursorCellsAre(t);
    WithCellsIs(t, Overwrite(CursorCells(t), from, Min(to, t.cols), NewCell(SPACE, t.cursor.attrs)));
  }

  // ----- Erasing -------------------------------------------------------------

  /** `CSI K` erases from the cursor on, `CSI 1 K` up to it and including it, any other variant the whole line. */
  lemma LineErased(t: Term, params: seq<u16>, ints: seq<byte>)
    requires Valid(t) && Public(ints)
    ensures var u, mode, col := Apply(t, Csi(params, ints, false, 0x4B)), Variant(params), t.cursor.col;
            && LineChanged(t, u) && |Line(u)| == |Line(t)|
            && forall j :: 0 <= j < |Line(t)| ==>
                 Line(u)[j] == if j < t.cols && (mode == 0 ==> col <= j) && (mode == 1 ==> j <= col) then Wiped(t) else Line(t)[j]
  {
    hide Valid, LineChanged, Line, EraseLinePart, Wiped, Param, Variant;
    VariantIs(params);
    PartErased(t, t.cursor.col, t.cols);
    PartErased(t, 0, t.cursor.col + 1);
    PartErased(t, 0, t.cols);
  }

  /** `CSI n X` erases n cells from the cursor on, none past the margin. */
  lemma CharsErased(t: Term, params: seq<u16>, ints: seq<byte>)
    requires Valid(t) && Public(ints)
    ensures var u, n, col := Apply(t, Csi(params, ints, false, 0x58)), Count(params, 0), t.cursor.col;
            && LineChanged(t, u) && |Line(u)| == |Line(t)|
            && forall j :: 0 <= j < |Line(t)| ==>
                 Line(u)[j] == if j < t.cols && col <= j < col + n then Wiped(t) else Line(t)[j]
  {
    hide Valid, LineChanged, Line, EraseLinePart, Wiped, Param, Count;
    ParamIsCount(params, 0);
    PartErased(t, t.cursor.col, t.cursor.col + Count(params, 0));
  }

  lemma RowsCleared(t: Term, from: nat, to: nat)
    requires Valid(t)
    ensures var u := ClearRows(t, from, to);
            && u == t.(screen := u.screen) && |u.screen| == |t.screen|
            && forall i :: 0 <= i < |t.screen| ==>
                 if from <= i < to then Emptied(u.screen[i], t.screen[i]) else u.screen[i] == t.screen[i]
  {
    hide Valid;
  }

  /** `CSI J` erases from the cursor on: its line as `CSI K` does, and the rows below become empty. */
  lemma BelowErased(t: Term, params: seq<u16>, ints: seq<byte>)
    requires Valid(t) && Public(ints) && Variant(params) == 0
    ensures var u, v := Apply(t, Csi(params, ints, false, 0x4A)), Apply(t, Csi([], ints, false, 0x4B));
            && u == t.(screen := u.screen) && |u.screen| == |t.screen|
            && forall i :: 0 <= i < |t.screen| ==>
                 if i <= t.cursor.row then u.screen[i] == v.screen[i] else Emptied(u.screen[i], t.screen[i])
  {
    hide Valid, LineChanged, Line, EraseLinePart, ClearRows, Param, Variant, Emptied;
    VariantIs(params);
    VariantIs([]);
    var v := EraseLinePart(t, t.cursor.col, t.cols);
    NoVariant();
    PartErased(t, t.cursor.col, t.cols);
    RowsCleared(v, t.cursor.row + 1, t.rows);
    RowsAre(t);
    OtherRows(t, v);
  }

  lemma NoVariant()
    ensures Variant([]) == 0 && Variant([1]) == 1
  {
  }

  lemma RowsAre(t: Term)
    requires Valid(t)
    ensures |t.screen| == t.rows && t.cursor.row < t.rows
  {
  }

  lemma OtherRows(t: Term, u: Term)
    requires Valid(t) && LineChanged(t, u)
    ensures u == t.(screen := u.screen) && |u.screen| == |t.screen|
    ensures forall i :: 0 <= i < |t.screen| && i != t.cursor.row ==> u.screen[i] == t.screen[i]
  {
    hide Valid;
  }

  /** `CSI 1 J` erases up to the cursor: the rows above become empty, its line is erased as `CSI 1 K` does. */
  lemma AboveErased(t: Term, params: seq<u16>, ints: seq<byte>)
    requires Valid(t) && Public(ints) && Variant(params) == 1
    ensures var u, v := Apply(t, Csi(params, ints, false, 0x4A)), Apply(t, Csi([1], ints, false, 0x4B));
            && u == t.(screen := u.screen) && |u.screen| == |t.screen|
            && forall i :: 0 <= i < |t.screen| ==>
                 if i >= t.cursor.row then u.screen[i] == v.screen[i] else Emptied(u.screen[i], t.screen[i])
  {
    hide Valid, LineChanged, Line, EraseLinePart, ClearRows, Param, Variant, Emptied;
    VariantIs(params);
    VariantIs([1]);
    NoVariant();
    RowsAre(t);
    var w := ClearRows(t, 0, t.cursor.row);
    RowsCleared(t, 0, t.cursor.row);
    OtherRows(w, EraseLinePart(w, 0, t.cursor.col + 1)) by {
      PartErased(w, 0, t.cursor.col + 1);
    }
    OtherRows(t, EraseLinePart(t, 0, t.cursor.col + 1)) by {
      PartErased(t, 0, t.cursor.col + 1);
    }
    SamePart(t, w, 0, t.cursor.col + 1);
  }

  /** The erased line depends on nothing outside it. */
  lemma SamePart(t: Term, w: Term, from: nat, to: nat)
    requires Valid(t) && Valid(w) && w == t.(screen := w.screen) && w.screen[t.cursor.row] == t.screen[t.cursor.row]
    ensures EraseLinePart(w, from, to).screen[t.cursor.row] == EraseLinePart(t, from, to).screen[t.cursor.row]
  {
    hide Overwrite;
  }

  /** Any other variant of `CSI J` empties every row, drops the scrollback and homes the cursor. */
  lemma AllErased(t: Term, params: seq<u16>, ints: seq<byte>)
    requires Valid(t) && Public(ints) && Variant(params) > 1
    ensures var u := Apply(t, Csi(params, ints, false, 0x4A));
            && u == t.(screen := u.screen, scrollback := [], cursor := Cursor(0, 0, PLAIN))
            && |u.screen| == |t.screen| && forall i :: 0 <= i < |t.screen| ==> Emptied(u.screen[i], t.screen[i])
  {
    hide Valid, EraseLinePart, ClearRows, Param, Variant, Emptied;
    VariantIs(params);
    RowsCleared(t, 0, t.rows);
    RowsAre(t);
  }

  // ----- Cells in and out ----------------------------------------------------

  /** n cells taken out at position `at`: those behind them move up, and empty ones follow. */
  predicate TakenOut(r: seq<Cell>, cells: seq<Cell>, at: nat, n: nat) {
    && |r| == |cells|
    && (forall j :: 0 <= j < |r| && j < at ==> r[j] == cells[j])
    && (forall j :: at <= j < |r| && j + n < |r| ==> r[j] == cells[j + n])
    && (forall j :: at <= j < |r| <= j + n ==> r[j] == Cell(0x20, PLAIN, 1))
  }

  /** n empty cells opened at position `at`: those behind move on, and drop out at the end. */
  predicate Opened(r: seq<Cell>, cells: seq<Cell>, at: nat, n: nat) {
    && |r| == |cells|
    && (forall j :: 0 <= j < |r| && j < at ==> r[j] == cells[j])
    && (forall j :: at <= j < |r| && j < at + n ==> r[j] == Cell(0x20, PLAIN, 1))
    && (forall j :: at + n <= j < |r| ==> r[j] == cells[j - n])
  }

  /** `CSI n P` takes n cells out at the cursor. */
  lemma CharsDeleted(t: Term, params: seq<u16>, ints: seq<byte>)
    requires Valid(t) && Public(ints) && t.cursor.col < |t.screen[t.cursor.row].cells|
    ensures var u := Apply(t, Csi(params, ints, false, 0x50));
            LineChanged(t, u) && TakenOut(Line(u), Line(t), t.cursor.col, Count(params, 0))
  {
    hide Valid, LineChanged, Line, WithCells, DeleteCells, CursorCells, Param, Count, TakenOut;
    ParamIsCount(params, 0);
    CursorCellsAre(t);
    LineIsRow(t);
    var cells, n := CursorCells(t), Count(params, 0);
    WithCellsIs(t, DeleteCells(cells, t.cursor.col, n));
    CellsDeleted(cells, t.cursor.col, n);
  }

  lemma LineIsRow(t: Term)
    requires Valid(t)
    ensures Line(t) == t.screen[t.cursor.row].cells
  {
    hide Valid;
  }

  lemma CellsDeleted(cells: seq<Cell>, at: nat, n: nat)
    requires at < |cells|
    ensures TakenOut(DeleteCells(cells, at, n), cells, at, n)
  {
  }

  /** Past the last cell there is nothing to take out, and one empty cell comes to the end all the same. */
  lemma CharsDeletedPastEnd(t: Term, params: seq<u16>, ints: seq<byte>)
    requires Valid(t) && Public(ints) && t.cursor.col == |t.screen[t.cursor.row].cells|
    ensures var u := Apply(t, Csi(params, ints, false, 0x50));
            LineChanged(t, u) && Line(u) == Line(t) + [Cell(0x20, PLAIN, 1)]
  {
    hide Valid, LineChanged, Line, WithCells, DeleteCells, CursorCells, Param, Count;
    ParamIsCount(params, 0);
    CursorCellsAre(t);
    LineIsRow(t);
    var cells, n := CursorCells(t), Count(params, 0);
    WithCellsIs(t, DeleteCells(cells, t.cursor.col, n));
    OneAppended(cells, n);
  }

  lemma OneAppended(cells: seq<Cell>, n: nat)
    requires n >= 1
    ensures DeleteCells(cells, |cells|, n) == cells + [Cell(0x20, PLAIN, 1)]
  {
  }

  /** `CSI n @` opens n empty cells at the cursor, or at the last column when the cursor is past that.  A row that
      had become longer than the screen is cut to it, and behind the margin of such a row one cell less is opened. */
  lemma CharsInserted(t: Term, params: seq<u16>, ints: seq<byte>)
    requires Valid(t) && Public(ints)
    ensures var u := Apply(t, Csi(params, ints, false, 0x40));
            && LineChanged(t, u) && |Line(t)| >= t.cols
            && Opened(Line(u), Line(t)[..t.cols], Min(t.cursor.col, t.cols - 1),
                      Count(params, 0) - (if t.cursor.col == t.cols < |Line(t)| then 1 else 0))
  {
    hide Valid, LineChanged, Line, WithCells, InsertCells, CursorCells, Param, Count, Opened;
    ParamIsCount(params, 0);
    CursorCellsAre(t);
    CursorWithin(t);
    var cells, n := CursorCells(t), Count(params, 0);
    WithCellsIs(t, InsertCells(cells, t.cursor.col, n, t.cols));
    CellsInserted(cells, t.cursor.col, n, t.cols);
  }

  lemma CursorWithin(t: Term)
    requires Valid(t)
    ensures t.cursor.col <= t.cols
  {
    hide Shaped, SavedFits;
  }

  lemma GapIs(cells: seq<Cell>, at: nat, n: nat)
    requires at <= |cells|
    ensures Opened(Gap(cells, at, n, |cells|), cells, at, n)
  {
  }

  lemma GapCuts(cells: seq<Cell>, at: nat, n: nat, cols: nat)
    requires at <= cols <= |cells|
    ensures Gap(cells, at, n, cols) == Gap(cells[..cols], at, n, cols)
  {
  }

  lemma GapOfOne(cells: seq<Cell>, cols: nat)
    requires cols <= |cells|
    ensures Gap(cells, cols, 1, cols) == cells[..cols]
  {
  }

  lemma CellsInserted(cells: seq<Cell>, col: nat, n: nat, cols: nat)
    requires 1 <= cols <= |cells| && col <= cols && n >= 1
    ensures Opened(InsertCells(cells, col, n, cols), cells[..cols], Min(col, cols - 1),
                   n - (if col == cols < |cells| then 1 else 0))
  {
    hide Gap, Opened;
    var line, at := cells[..cols], Min(col, cols - 1);
    if col == cols < |cells| {
      GapOfOne(cells, cols);
      GapIs(line, at, n - 1);
    } else {
      GapCuts(cells, at, 1, cols);
      GapIs(line, at, 1);
      GapIs(Gap(line, at, 1, cols), at, n - 1);
      OpenedTwice(InsertCells(cells, col, n, cols), Gap(line, at, 1, cols), line, at, n - 1);
    }
  }

  lemma OpenedTwice(r: seq<Cell>, one: seq<Cell>, cells: seq<Cell>, at: nat, n: nat)
    requires Opened(one, cells, at, 1) && Opened(r, one, at, n)
    ensures Opened(r, cells, at, n + 1)
  {
  }

  // ----- Lines in and out ----------------------------------------------------

  /** Row i of the screen after rows from `top` on have moved down by n. */
  predicate MovedDown(t: Term, u: Term, top: nat, n: nat, i: nat)
    requires i < |t.screen| == |u.screen|
  {
    if i < top || t.regionBottom <= i then u.screen[i] == t.screen[i]
    else if i < top + n then BlankLine(u.screen[i], t.cols)
    else u.screen[i] == t.screen[i - n]
  }

  /** And after they have moved up. */
  predicate MovedUp(t: Term, u: Term, top: nat, n: nat, i: nat)
    requires i < |t.screen| == |u.screen| && t.regionBottom <= |t.screen|
  {
    if i < top || t.regionBottom <= i then u.screen[i] == t.screen[i]
    else if i + n < t.regionBottom then u.screen[i] == t.screen[i + n]
    else BlankLine(u.screen[i], t.cols)
  }

  lemma ShiftedDown(t: Term, u: Term, top: nat, n: nat)
    requires top <= t.regionBottom <= |t.screen| && u.screen == ShiftDown(t.screen, top, t.regionBottom, n, BlankRow(t.cols))
    ensures forall i :: 0 <= i < |t.screen| ==> MovedDown(t, u, top, n, i)
  {
    hide ShiftDown;
    forall i | 0 <= i < |t.screen| ensures MovedDown(t, u, top, n, i) {
      ShiftDownRow(t.screen, top, t.regionBottom, n, BlankRow(t.cols), i);
    }
  }

  lemma ShiftedUp(t: Term, u: Term, top: nat, n: nat)
    requires top <= t.regionBottom <= |t.screen| && u.screen == ShiftUp(t.screen, top, t.regionBottom, n, BlankRow(t.cols))
    ensures forall i :: 0 <= i < |t.screen| ==> MovedUp(t, u, top, n, i)
  {
    hide ShiftUp;
    forall i | 0 <= i < |t.screen| ensures MovedUp(t, u, top, n, i) {
      ShiftUpRow(t.screen, top, t.regionBottom, n, BlankRow(t.cols), i);
    }
  }

  lemma RegionIs(t: Term)
    requires Valid(t)
    ensures t.regionTop < t.regionBottom <= t.rows == |t.screen| && t.cursor.row < t.rows
  {
    hide SavedFits;
  }

  /** `CSI n L`, with the cursor in the region: n blank lines at the cursor's row, the rows from there to the bottom
      of the region move down; outside the region, nothing. */
  lemma LinesInserted(t: Term, params: seq<u16>, ints: seq<byte>)
    requires Valid(t) && Public(ints)
    ensures var u, n := Apply(t, Csi(params, ints, false, 0x4C)), Count(params, 0);
            if t.regionTop <= t.cursor.row < t.regionBottom then
              && u == t.(screen := u.screen, cursor := t.cursor.(col := 0)) && |u.screen| == |t.screen|
              && forall i :: 0 <= i < |t.screen| ==> MovedDown(t, u, t.cursor.row, n, i)
            else u == t
  {
    hide Valid, ShiftDown, MovedDown, Param, Count, BlankRow;
    ParamIsCount(params, 0);
    RegionIs(t);
    var u := Apply(t, Csi(params, ints, false, 0x4C));
    if t.regionTop <= t.cursor.row < t.regionBottom {
      ShiftedDown(t, u, t.cursor.row, Count(params, 0));
    }
  }

  /** `CSI n M` takes n lines out there. */
  lemma LinesDeleted(t: Term, params: seq<u16>, ints: seq<byte>)
    requires Valid(t) && Public(ints)
    ensures var u, n := Apply(t, Csi(params, ints, false, 0x4D)), Count(params, 0);
            if t.regionTop <= t.cursor.row < t.regionBottom then
              && u == t.(screen := u.screen, cursor := t.cursor.(col := 0)) && |u.screen| == |t.screen|
              && forall i :: 0 <= i < |t.screen| ==> MovedUp(t, u, t.cursor.row, n, i)
            else u == t
  {
    hide Valid, ShiftUp, MovedUp, Param, Count, BlankRow;
    ParamIsCount(params, 0);
    RegionIs(t);
    var u := Apply(t, Csi(params, ints, false, 0x4D));
    if t.regionTop <= t.cursor.row < t.regionBottom {
      ShiftedUp(t, u, t.cursor.row, Count(params, 0));
    }
  }

  /** What scrolling a whole screen adds to the scrollback: the rows that leave at the top, and blank ones after
      them when there are no more; of all of it the newest 10000 rows stay. */
  predicate Recorded(t: Term, u: Term, n: nat)
    requires |t.screen| == t.rows
  {
    if t.regionTop == 0 && t.regionBottom == t.rows then
      && |u.scrollback| == Min(|t.scrollback| + n, 10000)
      && forall m :: 0 <= m < |u.scrollback| ==> NthRecorded(t, u.scrollback[m], |t.scrollback| + n - |u.scrollback| + m)
    else u.scrollback == t.scrollback
  }

  /** The row at position k of the scrollback and what scrolling adds to it. */
  predicate NthRecorded(t: Term, row: Row, k: nat)
    requires |t.screen| == t.rows
  {
    if k < |t.scrollback| then row == t.scrollback[k]
    else if k - |t.scrollback| < t.rows then row == t.screen[k - |t.scrollback|]
    else BlankLine(row, t.cols)
  }

  lemma RemovedRecorded(t: Term, u: Term, n: nat)
    requires |t.screen| == t.rows
    requires u.scrollback == if WholeScreen(t) then LastN(t.scrollback + Removed(t.screen, n, BlankRow(t.cols)), DEFAULT_SCROLLBACK)
                             else t.scrollback
    ensures Recorded(t, u, n)
  {
  }

  /** `CSI n S` scrolls the region up. */
  lemma ScrolledUp(t: Term, params: seq<u16>, ints: seq<byte>)
    requires Valid(t) && Public(ints)
    ensures var u, n := Apply(t, Csi(params, ints, false, 0x53)), Count(params, 0);
            && u == t.(screen := u.screen, scrollback := u.scrollback) && |u.screen| == |t.screen| == t.rows
            && (forall i :: 0 <= i < |t.screen| ==> MovedUp(t, u, t.regionTop, n, i))
            && Recorded(t, u, n)
  {
    hide Valid, ShiftUp, MovedUp, Recorded, Removed, LastN, WholeScreen, Param, Count, BlankRow;
    ParamIsCount(params, 0);
    RegionIs(t);
    var u := Apply(t, Csi(params, ints, false, 0x53));
    ShiftedUp(t, u, t.regionTop, Count(params, 0));
    RemovedRecorded(t, u, Count(params, 0));
  }

  /** `CSI n T` scrolls it down. */
  lemma ScrolledDown(t: Term, params: seq<u16>, ints: seq<byte>)
    requires Valid(t) && Public(ints)
    ensures var u, n := Apply(t, Csi(params, ints, false, 0x54)), Count(params, 0);
            && u == t.(screen := u.screen) && |u.screen| == |t.screen|
            && forall i :: 0 <= i < |t.screen| ==> MovedDown(t, u, t.regionTop, n, i)
  {
    hide Valid, ShiftDown, MovedDown, Param, Count, BlankRow;
    ParamIsCount(params, 0);
    RegionIs(t);
    var u := Apply(t, Csi(params, ints, false, 0x54));
    ShiftedDown(t, u, t.regionTop, Count(params, 0));
  }
}
