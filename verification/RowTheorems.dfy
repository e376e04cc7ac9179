/** How long the rows of the screen are, over whole runs. */
module RowTheorems {
  import opened Basics
  import opened Grid
  import opened Screen
  import opened VtParser

  ghost predicate ExactGrid(s: seq<Row>, cols: nat) {
    forall i :: 0 <= i < |s| ==> |s[i].cells| == cols
  }

  /** Every row, of a saved screen too, has exactly as many cells as the terminal has columns. */
  ghost predicate Exact(t: Term) {
    ExactGrid(t.screen, t.cols) && (t.savedScreen.Some? ==> ExactGrid(t.savedScreen.value, t.cols))
  }

  /** `CSI P` with the cursor past the last column. */
  predicate Lengthens(t: Term, a: Action) {
    a.Csi? && !a.ignore && 0x3F !in a.intermediates && a.final == 0x50 && t.cursor.col == t.cols
  }

  /** Deleting cells changes the length of a row only behind its last cell. */
  lemma DeleteLengthensIff(cells: seq<Cell>, at: nat, n: nat)
    ensures |DeleteCells(cells, at, n)| == |cells| <==> at < |cells| || n == 0
  {
  }

  // ----- One operation at a time ---------------------------------------------

  lemma ShiftsKeep(s: seq<Row>, top: nat, bottom: nat, n: nat, cols: nat)
    requires top <= bottom <= |s| && ExactGrid(s, cols)
    ensures ExactGrid(ShiftUp(s, top, bottom, n, BlankRow(cols)), cols)
    ensures ExactGrid(ShiftDown(s, top, bottom, n, BlankRow(cols)), cols)
  {
  }

  /** A row replaced by one of the right length. */
  lemma RowKeeps(t: Term, cells: seq<Cell>)
    requires Valid(t) && Exact(t) && |cells| >= t.cols
    ensures Exact(WithCells(t, cells)) <==> |cells| == t.cols
    ensures |CursorCells(t)| == t.cols
  {
    var u := WithCells(t, cells);
    assert u.screen[t.cursor.row].cells == cells;
  }

  lemma LinesKeep(t: Term, n: nat)
    requires Valid(t) && Exact(t)
    ensures Exact(InsertLines(t, n)) && Exact(DeleteLines(t, n)) && Exact(ScrollUp(t, n)) && Exact(ScrollDown(t, n))
  {
    hide ShiftUp, ShiftDown, ExactGrid, BlankRow, Removed, LastN;
    ShiftsKeep(t.screen, t.regionTop, t.regionBottom, n, t.cols);
    if InRegion(t) {
      ShiftsKeep(t.screen, t.cursor.row, t.regionBottom, n, t.cols);
    }
  }

  lemma FeedKeeps(t: Term)
    requires Valid(t) && Exact(t)
    ensures Exact(LineFeed(t))
  {
    hide ScrollUp, ExactGrid;
    LinesKeep(t.(wrapPending := false), 1);
  }

  lemma FeedsKeep(t: Term)
    requires Valid(t) && Exact(t)
    ensures Exact(LineFeed(t)) && Exact(ReverseIndex(t)) && Exact(LineFeed(LineStart(t)))
  {
    hide ScrollDown, LineFeed, ExactGrid, Shaped, SavedFits;
    FeedKeeps(t);
    FeedKeeps(LineStart(t));
    LinesKeep(t, 1);
  }

  lemma PutKeeps(t: Term, ch: Scalar)
    requires Valid(t) && Exact(t)
    ensures Exact(PutChar(t, ch)) && Exact(MakeRoom(t, 1)) && Exact(MakeRoom(t, 2))
  {
    hide PutChar, MakeRoom, Exact, Valid;
    RoomKeeps(t, 1);
    RoomKeeps(t, 2);
    CellKeeps(t, ch);
  }

  lemma RoomKeeps(t: Term, width: nat)
    requires Valid(t) && Exact(t)
    ensures Exact(MakeRoom(t, width))
  {
    hide Exact, Gap;
    RowKeeps(t, Gap(CursorCells(t), t.cursor.col, width, t.cols));
  }

  lemma CellKeeps(t: Term, ch: Scalar)
    requires Valid(t) && Exact(t)
    ensures Exact(PutChar(t, ch))
  {
    hide Gap;
  }

  lemma PrintKeeps(t: Term, ch: Scalar)
    requires Valid(t) && Exact(t)
    ensures Exact(PrintChar(t, ch))
  {
    hide PutChar, MakeRoom, LineFeed, ReverseIndex, ExactGrid;
    FeedsKeep(t);
    var u := if t.wrapPending
             then var fed := LineFeed(t); fed.(cursor := fed.cursor.(col := 0), wrapPending := false)
             else t;
    PutKeeps(u, ch);
    PutKeeps(MakeRoom(u, 1), ch);
    PutKeeps(MakeRoom(u, 2), ch);
  }

  lemma ErasureKeeps(t: Term, n: nat)
    requires Valid(t) && Exact(t)
    ensures Exact(EraseLine(t, n)) && Exact(EraseChars(t, n)) && Exact(InsertChars(t, n))
  {
    hide Exact, WithCells, Overwrite, InsertCells, Shaped, SavedFits;
    PartKeeps(t, t.cursor.col, t.cols);
    PartKeeps(t, 0, t.cursor.col + 1);
    PartKeeps(t, 0, t.cols);
    PartKeeps(t, t.cursor.col, t.cursor.col + n);
    InsertKeeps(t, n);
  }

  lemma PartKeeps(t: Term, from: nat, to: nat)
    requires Valid(t) && Exact(t)
    ensures Exact(EraseLinePart(t, from, to))
  {
    hide Exact, Overwrite;
    RowKeeps(t, CursorCells(t));
    RowKeeps(t, Overwrite(CursorCells(t), from, Min(to, t.cols), NewCell(SPACE, t.cursor.attrs)));
  }

  lemma InsertKeeps(t: Term, n: nat)
    requires Valid(t) && Exact(t)
    ensures Exact(InsertChars(t, n))
  {
    hide Exact, Gap;
    RowKeeps(t, CursorCells(t));
    RowKeeps(t, InsertCells(CursorCells(t), t.cursor.col, n, t.cols));
  }

  /** Deleting characters is the one exception. */
  lemma DeleteKeepsIff(t: Term, n: nat)
    requires Valid(t) && Exact(t) && n > 0
    ensures Exact(DeleteChars(t, n)) <==> t.cursor.col < t.cols
  {
    hide Exact, DeleteCells;
    RowKeeps(t, CursorCells(t));
    RowKeeps(t, DeleteCells(CursorCells(t), t.cursor.col, n));
    DeleteLengthensIff(CursorCells(t), t.cursor.col, n);
  }

  lemma ClearKeeps(t: Term, from: nat, to: nat)
    requires Valid(t) && Exact(t)
    ensures Exact(ClearRows(t, from, to))
  {
  }

  lemma DisplayKeeps(t: Term, mode: nat)
    requires Valid(t) && Exact(t)
    ensures Exact(EraseDisplay(t, mode))
  {
    hide EraseLinePart, ClearRows, ExactGrid, Shaped, SavedFits;
    PartKeeps(t, t.cursor.col, t.cols);
    ClearKeeps(EraseLinePart(t, t.cursor.col, t.cols), t.cursor.row + 1, t.rows);
    ClearKeeps(t, 0, t.cursor.row);
    PartKeeps(ClearRows(t, 0, t.cursor.row), 0, t.cursor.col + 1);
    ClearKeeps(t, 0, t.rows);
  }

  lemma SettingsKeep(t: Term, params: seq<u16>, final: byte)
    requires Valid(t) && Exact(t)
    ensures Exact(SetRegion(t, Param(params, 0, 1) - 1, Param(params, 1, t.rows)))
    ensures Exact(SaveCursor(t)) && Exact(RestoreCursor(t)) && Exact(SetAttrs(t, params))
    ensures forall enable :: Exact(SetInsert(t, Param(params, 0, 0), enable))
    ensures Exact(Motion(t, params, final))
  {
    hide Shaped, SavedFits, ExactGrid;
  }

  lemma PrivateKeeps(t: Term, mode: nat, enable: bool)
    requires Valid(t) && Exact(t)
    ensures Exact(SetPrivateMode(t, mode, enable))
  {
  }

  lemma NewIsExact(cols: nat, rows: nat)
    ensures Exact(New(cols, rows))
  {
  }

  lemma CsiKeepsIff(t: Term, params: seq<u16>, intermediates: seq<byte>, final: byte)
    requires Valid(t) && Exact(t) && 0x3F !in intermediates
    ensures Exact(CsiSequence(t, params, intermediates, final)) <==> !(final == 0x50 && t.cursor.col == t.cols)
  {
    hide EraseDisplay, EraseLine, EraseChars, DeleteChars, InsertChars, InsertLines, DeleteLines, ScrollUp, ScrollDown;
    hide Motion, SaveCursor, RestoreCursor, SetRegion, SetAttrs, SetInsert, Exact, Shaped, SavedFits;
    match final
    case 0x4A => DisplayKeeps(t, Param(params, 0, 0));
    case 0x4B => ErasureKeeps(t, Param(params, 0, 0));
    case 0x50 => DeleteKeepsIff(t, Param(params, 0, 1));
    case 0x40 | 0x58 => ErasureKeeps(t, Param(params, 0, 1));
    case 0x4C | 0x4D | 0x53 | 0x54 => LinesKeep(t, Param(params, 0, 1));
    case _ => SettingsKeep(t, params, final);
  }

  // ----- Actions and runs ----------------------------------------------------

  /** From exact rows, one action keeps them exact unless it deletes characters past the last column. */
  lemma ActionKeepsIff(t: Term, a: Action)
    requires Valid(t) && Exact(t)
    ensures Exact(Apply(t, a)) <==> !Lengthens(t, a)
  {
    hide PrintChar, ExecuteCode, CsiSequence, SetPrivateMode, LineFeed, ReverseIndex, Exact, New, Shaped, SavedFits;
    match a
    case Print(ch) => PrintKeeps(t, ch);
    case Execute(code) => ExecuteKeeps(t, code);
    case Csi(params, intermediates, _, final) =>
      if 0x3F in intermediates {
        PrivateSequence(t, params, intermediates, final);
        PrivateKeeps(t, Param(params, 0, 0), final == 0x68);
      } else {
        CsiKeepsIff(t, params, intermediates, final);
      }
    case Esc(_, _, final) => EscKeeps(t, final);
    case Osc(_, _) =>
    case DcsStart(_, _, _) =>
    case DcsData(_) =>
    case DcsEnd =>
  }

  lemma ExecuteKeeps(t: Term, code: byte)
    requires Valid(t) && Exact(t)
    ensures Exact(ExecuteCode(t, code))
  {
    hide LineFeed, ReverseIndex, ExactGrid, Shaped, SavedFits;
    FeedsKeep(t);
  }

  lemma EscKeeps(t: Term, final: byte)
    requires Valid(t) && Exact(t)
    ensures Exact(EscSequence(t, final))
  {
    hide LineFeed, ReverseIndex, SaveCursor, RestoreCursor, Exact, Valid, New;
    FeedsKeep(t);
    NewIsExact(t.cols, t.rows);
    SettingsKeep(t, [], final);
    KeypadKeeps(t, t.modes.(applicationKeypad := true));
    KeypadKeeps(t, t.modes.(applicationKeypad := false));
  }

  lemma KeypadKeeps(t: Term, modes: Modes)
    requires Valid(t) && Exact(t)
    ensures Exact(t.(modes := modes))
  {
  }

  /** At every point of the run the rows are exact. */
  ghost predicate StaysExact(t: Term, actions: seq<Action>)
    requires Valid(t)
    decreases |actions|
  {
    Exact(t) && (actions == [] || StaysExact(Apply(t, actions[0]), actions[1..]))
  }

  /** No step of the run deletes characters past the last column. */
  predicate NeverLengthens(t: Term, actions: seq<Action>)
    requires Valid(t)
    decreases |actions|
  {
    actions == [] || (!Lengthens(t, actions[0]) && NeverLengthens(Apply(t, actions[0]), actions[1..]))
  }

  /** Over every run, all rows keep exactly `cols` cells at every point if and only if no `CSI P` is applied
      with the cursor past the last column. */
  lemma {:induction false} RowsStayExactIff(t: Term, actions: seq<Action>)
    requires Valid(t) && Exact(t)
    ensures StaysExact(t, actions) <==> NeverLengthens(t, actions)
    decreases |actions|
  {
    hide Exact, Lengthens, Apply, Valid;
    if actions != [] {
      ActionKeepsIff(t, actions[0]);
      if Exact(Apply(t, actions[0])) {
        RowsStayExactIff(Apply(t, actions[0]), actions[1..]);
      }
    }
  }

  /** It does happen: on a terminal of one column, a character and `CSI P` leave a row of two cells. */
  lemma DeletePastMarginLengthens()
    ensures var t := PutChar(New(1, 1), 0x41);
            t.cols == 1 && t.cursor.col == 1 && |DeleteChars(t, 1).screen[0].cells| == 2
  {
  }
}
