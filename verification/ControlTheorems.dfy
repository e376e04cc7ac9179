/** What printing, the control codes and the settings do to the terminal, action by action. */
module ControlTheorems {
  import opened Basics
  import opened Grid
  import opened Screen
  import opened VtParser
  import opened AlternateTheorems
  import opened MotionTheorems
  import opened EditTheorems

  // ----- Printing ------------------------------------------------------------

  /** With a wrap pending, a character is printed as after a line feed and a carriage return. */
  lemma PendingWrap(t: Term, ch: Scalar)
    requires Valid(t) && t.wrapPending
    ensures Apply(t, Print(ch)) == Apply(Apply(Apply(t, Execute(0x0A)), Execute(0x0D)), Print(ch))
  {
    hide Valid, LineFeed, PutChar, MakeRoom;
    Returned(LineFeed(t));
  }

  lemma Returned(t: Term)
    requires Valid(t)
    ensures ExecuteCode(t, 0x0D) == t.(cursor := t.cursor.(col := 0), wrapPending := false)
  {
    hide Valid, LineFeed;
  }

  /** The columns a character takes. */
  function Columns(ch: Scalar): nat {
    if IsWide(ch) then 2 else 1
  }

  /** Everything below the Hangul Jamo takes one column, and so do the half-width forms; ideographs, kana, Hangul
      syllables, full-width forms and the pictographs take two. */
  lemma ColumnsAre(ch: Scalar)
    ensures ch < 0x1100 || 0xFF61 <= ch <= 0xFFDC ==> Columns(ch) == 1
    ensures 0x4E00 <= ch <= 0x9FFF || 0x3041 <= ch <= 0x30FF || 0xAC00 <= ch <= 0xD7A3 ==> Columns(ch) == 2
    ensures 0xFF01 <= ch <= 0xFF60 || 0x1_F300 <= ch <= 0x1_F64F || 0x2_0000 <= ch <= 0x2_FFFD ==> Columns(ch) == 2
  {
  }

  /** The line after a character has been written at column `at`: its cell, a space behind a wide one where there is
      room, and nothing else changed. */
  predicate Written(r: seq<Cell>, line: seq<Cell>, at: nat, ch: Scalar, attrs: Attrs, cols: nat) {
    && |r| == |line|
    && forall j :: 0 <= j < |r| ==>
         r[j] == if j == at then Cell(ch, attrs, Columns(ch))
                 else if j == at + 1 && Columns(ch) == 2 && j < cols then Cell(0x20, attrs, 1)
                 else line[j]
  }

  /** Where the cursor goes from column `at`: past the character, or, when that is the margin, to it with a wrap
      pending, or back to the last column when lines do not wrap. */
  predicate Advanced(t: Term, u: Term, ch: Scalar)
    requires t.cols > 0
  {
    var next := t.cursor.col + Columns(ch);
    u.cursor == t.cursor.(col := if next < t.cols then next else if t.modes.autoWrap then t.cols else t.cols - 1)
    && u.wrapPending == (next >= t.cols && t.modes.autoWrap)
  }

  /** A character is written at the cursor. */
  lemma Printed(t: Term, ch: Scalar)
    requires Valid(t) && !t.wrapPending && !t.modes.insert && t.cursor.col < t.cols
    ensures var u := Apply(t, Print(ch));
            && LineChanged(t, u.(cursor := t.cursor, wrapPending := false))
            && Written(u.screen[t.cursor.row].cells, Line(t), t.cursor.col, ch, t.cursor.attrs, t.cols)
            && Advanced(t, u, ch)
  {
    hide Valid, LineChanged, Line, WithCells, CursorCells, Written, IsWide;
    CursorCellsAre(t);
    var cell, col := Cell(ch, t.cursor.attrs, Columns(ch)), t.cursor.col;
    var cells := CursorCells(t)[col := cell];
    var r := if cell.width == 2 && col + 1 < t.cols then cells[col + 1 := Cell(SPACE, cell.attrs, 1)] else cells;
    WithCellsIs(t, r);
    CellsWritten(CursorCells(t), r, col, ch, t.cursor.attrs, t.cols);
    LineIsRow(WithCells(t, r));
    SameCursor(t, WithCells(t, r));
  }

  lemma SameCursor(t: Term, u: Term)
    requires Valid(t) && LineChanged(t, u)
    ensures u.cursor == t.cursor && u == t.(screen := u.screen)
  {
    hide Valid;
  }

  lemma CellsWritten(line: seq<Cell>, r: seq<Cell>, at: nat, ch: Scalar, attrs: Attrs, cols: nat)
    requires at < cols <= |line|
    requires var cells := line[at := Cell(ch, attrs, Columns(ch))];
             r == if Columns(ch) == 2 && at + 1 < cols then cells[at + 1 := Cell(SPACE, attrs, 1)] else cells
    ensures Written(r, line, at, ch, attrs, cols)
  {
    hide Columns;
  }

  /** In insert mode a character is written as `CSI w @` and the character are without it, w being its columns. */
  lemma PrintedInserting(t: Term, ch: Scalar)
    requires Valid(t) && !t.wrapPending && t.modes.insert && t.cursor.col < t.cols
    ensures var v := Apply(t, Csi([Columns(ch)], [], false, 0x40));
            && Valid(v.(modes := v.modes.(insert := false)))
            && Apply(t, Print(ch)) == Apply(v.(modes := v.modes.(insert := false)), Print(ch)).(modes := t.modes)
  {
    hide Valid, LineChanged, Line, WithCells, CursorCells, InsertCells, Gap, PutChar, IsWide;
    var w := Columns(ch);
    CursorCellsAre(t);
    LineIsRow(t);
    OpenedAtOnce(CursorCells(t), t.cursor.col, w, t.cols);
    var v := MakeRoom(t, w);
    assert Param([w], 0, 1) == w;
    ModeOff(v);
    RoomIs(t, w);
    PutIgnoresInsert(v, ch);
  }

  lemma RoomIs(t: Term, w: nat)
    requires Valid(t)
    ensures var v := MakeRoom(t, w); v == t.(screen := v.screen)
  {
    hide Valid, Gap;
  }

  lemma ModeOff(t: Term)
    requires Valid(t)
    ensures Valid(t.(modes := t.modes.(insert := false)))
  {
    hide Shaped;
  }

  lemma PutIgnoresInsert(t: Term, ch: Scalar)
    requires Valid(t)
    ensures Valid(t.(modes := t.modes.(insert := false)))
    ensures PutChar(t, ch) == PutChar(t.(modes := t.modes.(insert := false)), ch).(modes := t.modes)
  {
    hide Shaped, IsWide;
  }

  lemma OpenedAtOnce(cells: seq<Cell>, at: nat, w: nat, cols: nat)
    requires at < cols <= |cells| && w >= 1
    ensures InsertCells(cells, at, w, cols) == Gap(cells, at, w, cols)
  {
    hide Gap;
    GapTwice(cells, at, w - 1, cols);
  }

  lemma GapTwice(cells: seq<Cell>, at: nat, n: nat, cols: nat)
    requires at < cols <= |cells|
    ensures Gap(Gap(cells, at, 1, cols), at, n, cols) == Gap(cells, at, n + 1, cols)
  {
    var one := Gap(cells, at, 1, cols);
    var all, both := cells[..at] + Repeat(n + 1, EMPTY) + cells[at..], one[..at] + Repeat(n, EMPTY) + one[at..];
    forall j | 0 <= j < cols ensures all[j] == both[j] {
      if j >= at + n {
        assert both[j] == one[j - n];
      }
    }
  }

  /** Past the margin with no wrap pending nothing is written; in insert mode a longer row is cut to the screen. */
  lemma PrintedPastMargin(t: Term, ch: Scalar)
    requires Valid(t) && !t.wrapPending && t.cursor.col == t.cols
    ensures var u := Apply(t, Print(ch));
            if !t.modes.insert then u == t
            else LineChanged(t, u) && |Line(t)| >= t.cols && Line(u) == Line(t)[..t.cols]
  {
    hide Valid, LineChanged, Line, WithCells, CursorCells, Gap, IsWide;
    CursorCellsAre(t);
    GapAtMargin(CursorCells(t), Columns(ch), t.cols);
    WithCellsIs(t, Gap(CursorCells(t), t.cols, Columns(ch), t.cols));
    SameRoom(t, Columns(ch));
  }

  lemma SameRoom(t: Term, w: nat)
    requires Valid(t)
    ensures var v := MakeRoom(t, w); v.cursor == t.cursor && v.cols == t.cols
  {
    hide Valid, Gap;
  }

  lemma GapAtMargin(cells: seq<Cell>, w: nat, cols: nat)
    requires cols <= |cells|
    ensures Gap(cells, cols, w, cols) == cells[..cols]
  {
  }

  // ----- Control codes -------------------------------------------------------

  /** Backspace goes one column left, tab to the next multiple of eight or the last column, carriage return to the
      first column; the other codes but the line feeds do nothing. */
  lemma CodesExecuted(t: Term, code: byte)
    requires Valid(t) && code != 0x0A && code != 0x0B && code != 0x0C
    ensures var u, col := Apply(t, Execute(code)), t.cursor.col;
            if code == 0x08 then Moved(t, u, t.cursor.row, if col > 0 then col - 1 else 0, false)
            else if code == 0x09 then Moved(t, u, t.cursor.row, Min(col + 8 - col % 8, t.cols - 1), t.wrapPending)
            else if code == 0x0D then Moved(t, u, t.cursor.row, 0, false)
            else u == t
  {
    hide Valid, LineFeed;
    SizeIs(t);
  }

  lemma SizeIs(t: Term)
    requires Valid(t)
    ensures t.cols >= 1 && t.rows >= 1
  {
    hide Shaped, SavedFits;
  }

  /** Line feed, vertical tab, form feed and `ESC D`: at the bottom of the region the region scrolls up by one as for
      `CSI S`; elsewhere the cursor goes one row down, unless it is in the last one. */
  lemma LineFed(t: Term, a: Action)
    requires Valid(t)
    requires (a.Execute? && 0x0A <= a.code <= 0x0C) || (a.Esc? && !a.ignore && a.final == 0x44)
    ensures var u := Apply(t, a);
            if t.cursor.row + 1 == t.regionBottom then u == Apply(t, Csi([], [], false, 0x53)).(wrapPending := false)
            else Moved(t, u, Min(t.cursor.row + 1, t.rows - 1), t.cursor.col, false)
  {
    hide Valid, ShiftUp, Removed, LastN;
    SizeIs(t);
    RegionIs(t);
  }

  /** `ESC E` is the same from the first column. */
  lemma NextLineFed(t: Term, ints: seq<byte>)
    requires Valid(t)
    ensures var v := t.(cursor := t.cursor.(col := 0));
            Valid(v) && Apply(t, Esc(ints, false, 0x45)) == Apply(v, Esc(ints, false, 0x44))
  {
    hide Valid, LineFeed, ReverseIndex;
    assert t.(cursor := t.cursor.(col := 0)) == LineStart(t);
  }

  /** `ESC M`: at the top of the region it scrolls down by one as for `CSI T`, elsewhere the cursor goes one row up. */
  lemma LineReversed(t: Term, ints: seq<byte>)
    requires Valid(t)
    ensures var u := Apply(t, Esc(ints, false, 0x4D));
            if t.cursor.row == t.regionTop then u == Apply(t, Csi([], [], false, 0x54))
            else Moved(t, u, if t.cursor.row > 0 then t.cursor.row - 1 else 0, t.cursor.col, t.wrapPending)
  {
    hide Valid, ShiftDown, LineFeed;
  }

  // ----- The cursor, saved and restored --------------------------------------

  /** `ESC 7`, `CSI s` and `CSI ? 1048 h` */
  predicate Saves(a: Action) {
    || (a.Esc? && !a.ignore && a.final == 0x37)
    || (a.Csi? && !a.ignore && 0x3F !in a.intermediates && a.final == 0x73)
    || (a.Csi? && !a.ignore && 0x3F in a.intermediates && Variant(a.params) == 1048 && a.final == 0x68)
  }

  /** `ESC 8`, `CSI u` and `CSI ? 1048 l` */
  predicate Restores(a: Action) {
    || (a.Esc? && !a.ignore && a.final == 0x38)
    || (a.Csi? && !a.ignore && 0x3F !in a.intermediates && a.final == 0x75)
    || (a.Csi? && !a.ignore && 0x3F in a.intermediates && Variant(a.params) == 1048 && a.final == 0x6C)
  }

  /** The full reset, and what enters or leaves the alternate screen. */
  predicate Switches(a: Action) {
    IsReset(a) || (SetsPrivate(a) && Variant(a.params) in {47, 1047, 1049})
  }

  lemma SavingSaves(t: Term, a: Action)
    requires Valid(t) && Saves(a)
    ensures Apply(t, a) == t.(savedCursor := Some(t.cursor))
  {
    hide Valid, LineFeed, ReverseIndex, WithMode;
    if a.Csi? {
      VariantIs(a.params);
    }
  }

  lemma RestoringRestores(t: Term, a: Action)
    requires Valid(t) && Restores(a)
    ensures Apply(t, a) == if t.savedCursor.Some? then t.(cursor := t.savedCursor.value) else t
  {
    hide Valid, LineFeed, ReverseIndex, WithMode;
    if a.Csi? {
      VariantIs(a.params);
    }
  }

  lemma PrivateKeepsSaved(t: Term, mode: nat, enable: bool)
    requires Valid(t) && mode != 47 && mode != 1047 && mode != 1049 && !(mode == 1048 && enable)
    ensures SetPrivateMode(t, mode, enable).savedCursor == t.savedCursor
  {
    hide Valid, WithMode;
  }

  lemma SavedStays(t: Term, a: Action)
    requires Valid(t) && !Switches(a) && !SavesCursor(a)
    ensures Apply(t, a).savedCursor == t.savedCursor
  {
    hide PrintChar, ExecuteCode, CsiSequence, SetPrivateMode, LineFeed, ReverseIndex, Shaped, SavedFits, New;
    match a
    case Print(ch) => PrintKeeps(t, ch);
    case Execute(code) => ExecuteKeeps(t, code);
    case Csi(params, intermediates, ignore, final) =>
      if 0x3F in intermediates {
        PrivateSequence(t, params, intermediates, final);
        VariantIs(params);
        if !ignore {
          PrivateKeepsSaved(t, Param(params, 0, 0), final == 0x68);
        }
      } else {
        CsiKeeps(t, params, intermediates, final);
      }
    case Esc(_, _, _) => FeedsKeep(t);
    case Osc(_, _) =>
    case DcsStart(_, _, _) =>
    case DcsData(_) =>
    case DcsEnd =>
  }

  lemma {:induction false} SavedStaysSaved(t: Term, actions: seq<Action>)
    requires Valid(t) && forall a :: a in actions ==> !Switches(a) && !SavesCursor(a)
    ensures ApplyAll(t, actions).savedCursor == t.savedCursor
    decreases |actions|
  {
    hide Apply, Switches, SavesCursor, Valid;
    if actions != [] {
      SavedStays(t, actions[0]);
      SavedStaysSaved(Apply(t, actions[0]), actions[1..]);
    }
  }

  /** A saved cursor comes back, position and attributes, after anything that saves no other and does not switch
      the screen. */
  lemma SavedComesBack(t: Term, save: Action, actions: seq<Action>, restore: Action)
    requires Valid(t) && Saves(save) && Restores(restore)
    requires forall a :: a in actions ==> !Switches(a) && !SavesCursor(a)
    ensures Apply(ApplyAll(Apply(t, save), actions), restore).cursor == t.cursor
  {
    hide Apply, Saves, Restores, Switches, SavesCursor, Valid;
    SavingSaves(t, save);
    SavedStaysSaved(Apply(t, save), actions);
    RestoringRestores(ApplyAll(Apply(t, save), actions), restore);
  }

  // ----- The region ----------------------------------------------------------

  /** `CSI top ; bottom r`: a region of at least one row inside the screen is taken, and the cursor goes to the top
      left of the screen or, in origin mode, of the region; any other is refused. */
  lemma RegionSet(t: Term, params: seq<u16>, ints: seq<byte>)
    requires Valid(t) && Public(ints)
    ensures var u, top := Apply(t, Csi(params, ints, false, 0x72)), Count(params, 0) - 1;
            var bottom := if |params| > 1 && params[1] > 0 then params[1] else t.rows;
            if top < bottom <= t.rows then
              && u == t.(regionTop := u.regionTop, regionBottom := u.regionBottom, cursor := u.cursor)
              && u.regionTop == top && u.regionBottom == bottom
              && u.cursor == Cursor(if t.modes.origin then top else 0, 0, t.cursor.attrs)
            else u == t
  {
    hide Shaped, SavedFits;
    ParamIsCount(params, 0);
  }

  // ----- Modes ---------------------------------------------------------------

  predicate IsPrivate(a: Action, mode: nat, final: byte) {
    a.Csi? && !a.ignore && 0x3F in a.intermediates && Variant(a.params) == mode && a.final == final
  }

  lemma PrivateApplies(t: Term, a: Action, mode: nat)
    requires Valid(t) && a.Csi? && IsPrivate(a, mode, a.final)
    ensures Apply(t, a) == SetPrivateMode(t, mode, a.final == 0x68)
  {
    hide Valid, SetPrivateMode, CsiSequence, Param;
    PrivateSequence(t, a.params, a.intermediates, a.final);
    VariantIs(a.params);
  }

  /** The private modes that are switches, on by `h` and off by any other final byte; unknown ones change nothing. */
  lemma ModesSwitched(t: Term, a: Action, mode: nat)
    requires Valid(t) && a.Csi? && IsPrivate(a, mode, a.final) && mode !in {6, 47, 1047, 1048, 1049}
    ensures var m, on := t.modes, a.final == 0x68;
            Apply(t, a) == t.(modes := m.(
              applicationCursorKeys := if mode == 1 then on else m.applicationCursorKeys,
              insert := if mode == 4 then on else m.insert,
              autoWrap := if mode == 7 then on else m.autoWrap,
              cursorVisible := if mode == 25 then on else m.cursorVisible,
              bracketedPaste := if mode == 2004 then on else m.bracketedPaste))
  {
    hide Valid, Apply, SwitchScreen, SaveCursor, RestoreCursor;
    PrivateApplies(t, a, mode);
  }

  /** Origin mode also sends the cursor home: to the top of the region when it is set. */
  lemma OriginSwitched(t: Term, a: Action)
    requires Valid(t) && a.Csi? && IsPrivate(a, 6, a.final)
    ensures var on := a.final == 0x68;
            Apply(t, a) == t.(modes := t.modes.(origin := on),
                              cursor := Cursor(if on then t.regionTop else 0, 0, t.cursor.attrs))
  {
    hide Valid, Apply, SwitchScreen, SaveCursor, RestoreCursor;
    PrivateApplies(t, a, 6);
  }

  /** Entering the alternate screen: it is blank, the cursor is home, the main screen and the cursor are saved. */
  lemma AlternateEntered(t: Term, a: Action, mode: nat)
    requires Valid(t) && mode in {47, 1047, 1049} && IsPrivate(a, mode, 0x68)
    ensures var u := Apply(t, a);
            if t.modes.alternateScreen then u == t
            else && u == t.(savedScreen := Some(t.screen), savedCursor := Some(t.cursor), screen := u.screen,
                            cursor := Cursor(0, 0, PLAIN), modes := t.modes.(alternateScreen := true))
                 && |u.screen| == t.rows && forall i :: 0 <= i < t.rows ==> BlankLine(u.screen[i], t.cols)
  {
    hide Valid, Apply, SaveCursor, RestoreCursor;
    PrivateApplies(t, a, mode);
  }

  /** Leaving it: the main screen and the saved cursor are back. */
  lemma AlternateLeft(t: Term, a: Action, mode: nat)
    requires Valid(t) && mode in {47, 1047, 1049} && a.Csi? && IsPrivate(a, mode, a.final) && a.final != 0x68
    ensures var u := Apply(t, a);
            if t.savedScreen == None then u == t
            else u == t.(screen := t.savedScreen.value, savedScreen := None,
                         cursor := if t.savedCursor == None then t.cursor else t.savedCursor.value,
                         modes := t.modes.(alternateScreen := false))
  {
    hide Shaped, SavedFits, Apply, SaveCursor, RestoreCursor;
    PrivateApplies(t, a, mode);
  }

  /** `CSI 4 h` and `CSI 4 l` switch insert mode, `ESC =` and `ESC >` the keypad; of `h` and `l` no other parameter
      has a meaning. */
  lemma OtherModes(t: Term, params: seq<u16>, ints: seq<byte>)
    requires Valid(t) && Public(ints)
    ensures Apply(t, Csi(params, ints, false, 0x68)) == if Variant(params) == 4 then t.(modes := t.modes.(insert := true)) else t
    ensures Apply(t, Csi(params, ints, false, 0x6C)) == if Variant(params) == 4 then t.(modes := t.modes.(insert := false)) else t
    ensures Apply(t, Esc(ints, false, 0x3D)) == t.(modes := t.modes.(applicationKeypad := true))
    ensures Apply(t, Esc(ints, false, 0x3E)) == t.(modes := t.modes.(applicationKeypad := false))
  {
    hide Valid, LineFeed, ReverseIndex;
    VariantIs(params);
  }

  /** `ESC c` leaves nothing of what was: a blank screen of the same size with the default modes. */
  lemma FullReset(t: Term, ints: seq<byte>)
    requires Valid(t)
    ensures var u := Apply(t, Esc(ints, false, 0x63));
            && u == Term(t.cols, t.rows, u.screen, None, None, [], Cursor(0, 0, PLAIN),
                         Modes(true, false, false, false, false, true, false, false), 0, t.rows, false)
            && |u.screen| == t.rows && forall i :: 0 <= i < t.rows ==> BlankLine(u.screen[i], t.cols)
  {
    hide Shaped, SavedFits, LineFeed, ReverseIndex;
  }

  /** What is marked as ignored, and what the terminal keeps no state for, changes nothing. */
  lemma NothingChanges(t: Term, a: Action)
    requires Valid(t)
    requires a.Osc? || a.DcsStart? || a.DcsData? || a.DcsEnd? || (a.Csi? && a.ignore) || (a.Esc? && a.ignore)
             || (a.Esc? && a.final !in {0x37, 0x38, 0x44, 0x4D, 0x45, 0x63, 0x3D, 0x3E})
    ensures Apply(t, a) == t
  {
    hide Valid, LineFeed, ReverseIndex;
  }

  /** Nor does a control sequence with a final byte that has no meaning. */
  lemma UnknownSequence(t: Term, params: seq<u16>, ints: seq<byte>, final: byte)
    requires Valid(t) && Public(ints)
    requires !(0x40 <= final <= 0x4D || final in {0x50, 0x53, 0x54, 0x58, 0x60, 0x61, 0x64, 0x65, 0x66, 0x68, 0x6C, 0x6D, 0x72, 0x73, 0x75})
             || final == 0x49
    ensures Apply(t, Csi(params, ints, false, final)) == t
  {
    hide Valid;
  }
}
