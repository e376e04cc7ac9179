/** What a resize does to the screen, cell by cell. */
module ResizeTheorems {
  import opened Basics
  import opened Grid
  import opened Screen

  /** The size asked for, brought between one and the limit. */
  function Bounded(n: nat, limit: nat): nat {
    if n == 0 then 1 else if n > limit then limit else n
  }

  /** The new row holds the cells of the old one up to its own width, and empty ones beyond those. */
  predicate Fitted(row: Row, was: Row, cols: nat) {
    && |row.cells| == cols && row.wrapped == was.wrapped
    && forall j :: 0 <= j < cols ==> row.cells[j] == if j < |was.cells| then was.cells[j] else EMPTY
  }

  predicate Blank(row: Row, cols: nat) {
    && |row.cells| == cols && !row.wrapped
    && forall j :: 0 <= j < cols ==> row.cells[j] == EMPTY
  }

  /** The rows that no longer fit. */
  function Lost(t: Term, rows: nat): nat {
    if t.rows > rows then t.rows - rows else 0
  }

  lemma FitRowFits(row: Row, cols: nat)
    ensures Fitted(FitRow(row, cols), row, cols)
  {
  }

  lemma BlankIsBlank(cols: nat)
    ensures Blank(BlankRow(cols), cols)
  {
  }

  /** Row i of the screen comes from old row i, or, when rows are lost, from the old row that many further down;
      rows that are added are blank. */
  lemma ResizedRow(t: Term, cols: nat, rows: nat, i: nat)
    requires Valid(t) && i < Bounded(rows, 200) && !(Bounded(cols, 500) == t.cols && Bounded(rows, 200) == t.rows)
    ensures var u, k := Resize(t, cols, rows), i + Lost(t, Bounded(rows, 200));
            && |u.screen| == Bounded(rows, 200)
            && (k < t.rows ==> Fitted(u.screen[i], t.screen[k], Bounded(cols, 500)))
            && (k >= t.rows ==> Blank(u.screen[i], Bounded(cols, 500)))
  {
    hide FitRow, Fitted, Blank, Valid, Resize;
    var k, c := i + Lost(t, Bounded(rows, 200)), Bounded(cols, 500);
    ResizedScreen(t, cols, rows);
    var fitted := FitRows(t.screen, c);
    assert k < t.rows ==> fitted[Lost(t, Bounded(rows, 200))..][i] == fitted[k];
    if k < t.rows {
      FitRowFits(t.screen[k], c);
    }
    BlankIsBlank(c);
  }

  lemma ResizedScreen(t: Term, cols: nat, rows: nat)
    requires Valid(t) && !(Bounded(cols, 500) == t.cols && Bounded(rows, 200) == t.rows)
    ensures var c, r := Bounded(cols, 500), Bounded(rows, 200);
            && |t.screen| == t.rows
            && Resize(t, cols, rows).screen
               == FitRows(t.screen, c)[Lost(t, r)..] + Repeat(if r > t.rows then r - t.rows else 0, BlankRow(c))
  {
    hide FitRow, SavedFits, LastN;
  }

  /** The rows that are lost are the top ones; they go, fitted alike and in their order, to the end of the scrollback,
      of which the newest 10000 rows stay. */
  lemma ResizedHistory(t: Term, cols: nat, rows: nat, m: nat)
    requires Valid(t) && !(Bounded(cols, 500) == t.cols && Bounded(rows, 200) == t.rows)
    requires m < |t.scrollback| + Lost(t, Bounded(rows, 200))
    ensures var u, all := Resize(t, cols, rows), |t.scrollback| + Lost(t, Bounded(rows, 200));
            && |u.scrollback| == Min(all, 10000)
            && (m >= all - |u.scrollback| ==>
                  var row := u.scrollback[m - (all - |u.scrollback|)];
                  if m < |t.scrollback| then row == t.scrollback[m]
                  else Fitted(row, t.screen[m - |t.scrollback|], Bounded(cols, 500)))
  {
    hide FitRow, Fitted, SavedFits;
    if m >= |t.scrollback| {
      FitRowFits(t.screen[m - |t.scrollback|], Bounded(cols, 500));
    }
  }

  /** Nothing else changes but the size, the region, which becomes the whole screen, and the cursor, which is
      brought inside; and to the size it has, a screen is not resized at all. */
  lemma ResizedRest(t: Term, cols: nat, rows: nat)
    requires Valid(t)
    ensures var u, c, r := Resize(t, cols, rows), Bounded(cols, 500), Bounded(rows, 200);
            if c == t.cols && r == t.rows then u == t
            else u == t.(cols := c, rows := r, screen := u.screen, scrollback := u.scrollback,
                         regionTop := 0, regionBottom := r,
                         cursor := t.cursor.(row := Min(t.cursor.row, r - 1), col := Min(t.cursor.col, c - 1)))
  {
    hide FitRows, SavedFits, Shaped, LastN;
  }

  /** A new terminal has the size asked for, brought inside the limits, and is blank, with the cursor home, the whole
      screen for a region and the default modes. */
  lemma NewMeaning(cols: nat, rows: nat, i: nat)
    requires i < Bounded(rows, 200)
    ensures var t, c, r := New(cols, rows), Bounded(cols, 500), Bounded(rows, 200);
            && t == Term(c, r, t.screen, None, None, [], Cursor(0, 0, PLAIN),
                         Modes(true, false, false, false, false, true, false, false), 0, r, false)
            && |t.screen| == r && Blank(t.screen[i], c)
  {
    hide Valid;
  }

  /** Clearing everything leaves rows of the same length that hold nothing, no scrollback and the cursor home. */
  lemma ClearMeaning(t: Term, i: nat)
    requires Valid(t) && i < |t.screen|
    ensures var u := ClearAll(t);
            && u == t.(screen := u.screen, scrollback := [], cursor := Cursor(0, 0, PLAIN))
            && |u.screen| == |t.screen| && Blank(u.screen[i], |t.screen[i].cells|)
  {
    hide Valid;
  }

  // ----- There and back ------------------------------------------------------

  lemma FittedTwice(row: Row, mid: Row, was: Row, cols: nat, width: nat)
    requires Fitted(mid, was, cols) && Fitted(row, mid, width)
    ensures row == was <==> |was.cells| == width && forall j :: cols <= j < width ==> was.cells[j] == EMPTY
  {
    if row == was {
      forall j | cols <= j < width ensures was.cells[j] == EMPTY {
        assert row.cells[j] == EMPTY;
      }
    }
    if |was.cells| == width && forall j :: cols <= j < width ==> was.cells[j] == EMPTY {
      assert row.cells == was.cells;
    }
  }

  /** Every row is as long as the screen is wide, and the columns from `cols` on hold nothing. */
  predicate NothingCut(t: Term, cols: nat) {
    forall i :: 0 <= i < |t.screen| ==> RowUncut(t, cols, i)
  }

  predicate RowUncut(t: Term, cols: nat, i: nat)
    requires i < |t.screen|
  {
    |t.screen[i].cells| == t.cols && forall j :: cols <= j < t.cols ==> t.screen[i].cells[j] == EMPTY
  }

  /** With as many rows as before, a resize to another width and the resize back leave the scrollback alone, and
      restore the screen exactly when nothing is cut off. */
  lemma ColumnsThereAndBack(t: Term, cols: nat, rows: nat)
    requires Valid(t) && Valid(Resize(t, cols, rows)) && Bounded(rows, 200) == t.rows && Bounded(cols, 500) != t.cols
    ensures var v := Resize(Resize(t, cols, rows), t.cols, t.rows);
            v.scrollback == t.scrollback && (v.screen == t.screen <==> NothingCut(t, Bounded(cols, 500)))
  {
    hide Resize, Valid, Fitted, Blank, RowUncut;
    var u := Resize(t, cols, rows);
    var v, c := Resize(u, t.cols, t.rows), Bounded(cols, 500);
    ResizedRest(t, cols, rows);
    SizesAre(t);
    ScrollbackStays(t, cols, rows);
    ScrollbackStays(u, t.cols, t.rows);
    ScreenHeight(t);
    ResizedRow(u, t.cols, t.rows, 0);
    forall i | 0 <= i < t.rows ensures v.screen[i] == t.screen[i] <==> RowUncut(t, c, i) {
      RowThereAndBack(t, cols, rows, i);
    }
  }

  lemma SizesAre(t: Term)
    requires Valid(t)
    ensures Bounded(t.cols, 500) == t.cols && Bounded(t.rows, 200) == t.rows
  {
    hide Shaped, SavedFits;
  }

  lemma ScreenHeight(t: Term)
    requires Valid(t)
    ensures |t.screen| == t.rows
  {
    hide SavedFits;
  }

  lemma ScrollbackStays(t: Term, cols: nat, rows: nat)
    requires Valid(t) && Bounded(rows, 200) == t.rows
    ensures Resize(t, cols, rows).scrollback == t.scrollback
  {
    hide FitRow, SavedFits, Shaped;
  }

  lemma RowThereAndBack(t: Term, cols: nat, rows: nat, i: nat)
    requires Valid(t) && Valid(Resize(t, cols, rows)) && Bounded(rows, 200) == t.rows
    requires i < t.rows && Bounded(cols, 500) != t.cols && i < |Resize(Resize(t, cols, rows), t.cols, t.rows).screen|
    ensures var v := Resize(Resize(t, cols, rows), t.cols, t.rows);
            |t.screen| == t.rows && (v.screen[i] == t.screen[i] <==> RowUncut(t, Bounded(cols, 500), i))
  {
    hide Resize, Valid, Fitted, Blank;
    var u := Resize(t, cols, rows);
    var v := Resize(u, t.cols, t.rows);
    ScreenHeight(t);
    ResizedRest(t, cols, rows);
    SizesAre(t);
    ResizedRow(t, cols, rows, i);
    ResizedRow(u, t.cols, t.rows, i);
    FittedTwice(v.screen[i], u.screen[i], t.screen[i], Bounded(cols, 500), t.cols);
  }

  /** With another number of rows the way back leaves rows in the scrollback: rows that are cut off are not fetched
      back, and rows that are added at the bottom push as many out at the top when they go. */
  lemma RowsThereAndBack(t: Term, cols: nat, rows: nat)
    requires Valid(t) && Valid(Resize(t, cols, rows))
    ensures var v, r := Resize(Resize(t, cols, rows), t.cols, t.rows), Bounded(rows, 200);
            var apart := if r > t.rows then r - t.rows else t.rows - r;
            |v.scrollback| == Min(|t.scrollback| + apart, 10000)
  {
    hide Resize, Shaped, SavedFits;
    var u := Resize(t, cols, rows);
    ResizedRest(t, cols, rows);
    SizesAre(t);
    ResizedRest(u, t.cols, t.rows);
    HistoryLength(t, cols, rows);
    HistoryLength(u, t.cols, t.rows);
  }

  lemma HistoryLength(t: Term, cols: nat, rows: nat)
    requires Valid(t)
    ensures |Resize(t, cols, rows).scrollback| == Min(|t.scrollback| + Lost(t, Bounded(rows, 200)), 10000)
  {
    hide FitRow, SavedFits;
  }

  /** So, as long as the scrollback is not full, a resize is undone by the resize back exactly when it changes no
      number of rows and cuts nothing off. */
  lemma ThereAndBackIff(t: Term, cols: nat, rows: nat)
    requires Valid(t) && Valid(Resize(t, cols, rows)) && |t.scrollback| < 10000
    ensures var v := Resize(Resize(t, cols, rows), t.cols, t.rows);
            v.screen == t.screen && v.scrollback == t.scrollback
            <==> Bounded(rows, 200) == t.rows && (Bounded(cols, 500) == t.cols || NothingCut(t, Bounded(cols, 500)))
  {
    hide Resize, Valid, NothingCut;
    if Bounded(rows, 200) != t.rows {
      RowsThereAndBack(t, cols, rows);
    } else if Bounded(cols, 500) == t.cols {
      ResizedRest(t, cols, rows);
      ResizedRest(t, t.cols, t.rows);
    } else {
      ColumnsThereAndBack(t, cols, rows);
    }
  }
}
