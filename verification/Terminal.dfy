/** The terminal object of crates/rdt-terminal/src/term.rs: fields updated in
    place, lines and cells removed and inserted one at a time.  Every method is
    proved to reach the state that Screen.dfy gives in closed form. */
module Emulator {
  import opened Basics
  import opened Grid
  import opened Screen
  import opened ScrollTheorems
  import opened Sgr
  import opened VtParser

  /** The whole terminal as a value: the parser and the screen. */
  datatype Machine = Machine(parser: ParserState, term: Term)

  /** Feeds raw bytes: the whole chunk is parsed first, then applied.  A full
      reset (`ESC c`) anywhere in the chunk leaves a new parser behind. */
  function Feed(s: Machine, data: seq<byte>): (r: Machine)
    requires s.parser.Valid() && Valid(s.term)
    ensures r.parser.Valid() && Valid(r.term)
  {
    var parsed := Run(s.parser, data);
    Machine(if HasReset(parsed.out) then Fresh else parsed.next, ApplyAll(s.term, parsed.out))
  }

  predicate HasReset(actions: seq<Action>) {
    exists i :: 0 <= i < |actions| && IsReset(actions[i])
  }

  lemma HasResetConcat(a: seq<Action>, b: seq<Action>)
    ensures HasReset(a + b) <==> HasReset(a) || HasReset(b)
    ensures forall x :: HasReset([x]) == IsReset(x)
  {
    hide IsReset;
    if HasReset(a) {
      var k :| 0 <= k < |a| && IsReset(a[k]);
      assert IsReset((a + b)[k]);
    }
    if HasReset(b) {
      var k :| 0 <= k < |b| && IsReset(b[k]);
      assert IsReset((a + b)[|a| + k]);
    }
    forall x ensures HasReset([x]) == IsReset(x) {
      assert [x][0] == x;
    }
  }

  class Terminal {
    var cols: nat
    var rows: nat
    var screen: seq<Row>
    var savedScreen: Option<seq<Row>>
    var savedCursor: Option<Cursor>
    const scrollback: Scrollback
    var cursor: Cursor
    var modes: Modes
    var regionTop: nat
    var regionBottom: nat
    const parser: Parser
    var wrapPending: bool

    ghost function TermView(): Term
      reads this, scrollback
    {
      Term(cols, rows, screen, savedScreen, savedCursor, scrollback.lines, cursor, modes,
           regionTop, regionBottom, wrapPending)
    }

    ghost function View(): Machine
      reads this, scrollback, parser, parser.utf8
    {
      Machine(parser.View(), TermView())
    }

    /** The screen and the scrollback are sound; says nothing of the parser. */
    ghost predicate Sound()
      reads this, scrollback
    {
      scrollback.Valid() && scrollback.limit == DEFAULT_SCROLLBACK && Valid(TermView())
    }

    constructor (cols: nat, rows: nat)
      ensures Sound() && View() == Machine(Fresh, New(cols, rows))
      ensures fresh(scrollback) && fresh(parser) && fresh(parser.utf8)
    {
      var c, r := Clamp(cols, MAX_COLS), Clamp(rows, MAX_ROWS);
      var lines := new Scrollback(DEFAULT_SCROLLBACK);
      var vt := new Parser();
      this.cols, this.rows := c, r;
      screen := Repeat(r, BlankRow(c));
      savedScreen, savedCursor := None, None;
      scrollback, parser := lines, vt;
      cursor, modes := HOME, DEFAULT_MODES;
      regionTop, regionBottom, wrapPending := 0, r, false;
    }

    method Advance(data: seq<byte>)
      requires Sound() && parser.View().Valid()
      modifies this, scrollback, parser, parser.utf8
      ensures Sound() && View() == Feed(old(View()), data)
    {
      hide Apply, IsReset, Run;
      var actions := parser.Advance(data);
      ghost var before, parsed := TermView(), parser.View();
      assert actions[..0] == [];
      for i := 0 to |actions|
        invariant Sound() && TermView() == ApplyAll(before, actions[..i])
        invariant parser.View() == if HasReset(actions[..i]) then Fresh else parsed
      {
        assert actions[..i + 1] == actions[..i] + [actions[i]];
        ApplyConcat(before, actions[..i], [actions[i]]);
        assert ApplyAll(TermView(), [actions[i]]) == Apply(TermView(), actions[i]);
        ApplyAction(actions[i]);
        HasResetConcat(actions[..i], [actions[i]]);
      }
      assert actions[..|actions|] == actions;
    }

    /** Discards partial escape state after a reconnect. */
    method ResetParser()
      requires Sound() && parser.View().Valid()
      modifies this`wrapPending, parser, parser.utf8
      ensures Sound() && View() == Machine(Fresh, old(TermView()).(wrapPending := false))
    {
      parser.Reset();
      wrapPending := false;
    }

    /** Changes the size; sound afterwards exactly when the saved state fits. */
    method ResizeTo(cols: nat, rows: nat)
      requires Sound()
      modifies this, scrollback
      ensures scrollback.Valid() && scrollback.limit == DEFAULT_SCROLLBACK
      ensures TermView() == Resize(old(TermView()), cols, rows)
    {
      hide Valid, FitRows, FitRow, BlankRow, LastN, Resize;
      ghost var was := TermView();
      ResizedTo(was, cols, rows);
      var c, r := Clamp(cols, MAX_COLS), Clamp(rows, MAX_ROWS);
      if c == this.cols && r == this.rows {
        return;
      }
      this.cols := c;
      var fitted := RefitRows(screen, c);
      var removed := SaturatingSub(this.rows, r);
      if r > this.rows {
        screen := fitted + Repeat(r - this.rows, BlankRow(c));
      } else {
        screen := fitted[removed..];
        PushRows(fitted[..removed]);
      }
      this.rows := r;
      regionTop, regionBottom := 0, r;
      cursor := cursor.(row := Min(cursor.row, r - 1), col := Min(cursor.col, c - 1));
    }

    method PushRows(rows: seq<Row>)
      requires scrollback.Valid()
      modifies scrollback`lines
      ensures scrollback.Valid()
      ensures scrollback.lines == LastN(old(scrollback.lines) + rows, scrollback.limit)
    {
      ghost var before := scrollback.lines;
      assert before + rows[..0] == before;
      for i := 0 to |rows|
        invariant scrollback.Valid()
        invariant scrollback.lines == LastN(before + rows[..i], scrollback.limit)
      {
        LastNAppend(before + rows[..i], [rows[i]], scrollback.limit);
        assert before + rows[..i + 1] == (before + rows[..i]) + [rows[i]];
        scrollback.Push(rows[i]);
      }
      assert rows[..|rows|] == rows;
    }

    method ClearEverything()
      requires Sound()
      modifies this, scrollback
      ensures Sound() && TermView() == ClearAll(old(TermView()))
    {
      BlankRows(0, rows);
      scrollback.Clear();
      cursor := HOME;
      assert screen == Map(BlankCells, old(screen));
    }

    method ApplyAction(action: Action)
      requires Sound() && parser.View().Valid()
      modifies this, scrollback, parser, parser.utf8
      ensures Sound() && TermView() == Apply(old(TermView()), action)
      ensures parser.View() == if IsReset(action) then Fresh else old(parser.View())
    {
      match action
      case Print(ch) => OnPrint(ch);
      case Execute(code) => OnExecute(code);
      case Csi(params, intermediates, ignore, final) =>
        if !ignore {
          OnCsi(params, intermediates, final);
        }
      case Esc(_, ignore, final) =>
        if !ignore {
          OnEsc(final);
        }
      case Osc(_, _) =>
      case DcsStart(_, _, _) =>
      case DcsData(_) =>
      case DcsEnd =>
    }

    // ----- Printing ----------------------------------------------------------

    method OnPrint(ch: Scalar)
      requires Sound()
      modifies this, scrollback
      ensures Sound() && TermView() == PrintChar(old(TermView()), ch)
    {
      if wrapPending {
        OnLineFeed();
        cursor := cursor.(col := 0);
        wrapPending := false;
      }
      if modes.insert {
        ShiftCells(if IsWide(ch) then 2 else 1);
      }
      Put(ch);
    }

    method ShiftCells(width: nat)
      requires Sound() && width > 0
      modifies this`screen
      ensures Sound() && TermView() == MakeRoom(old(TermView()), width)
    {
      var row, col := cursor.row, cursor.col;
      var cells := screen[row].cells;
      ghost var was := cells;
      for k := 0 to width
        invariant cells == if k == 0 then was else Gap(was, col, k, cols)
        modifies {}
      {
        InsertIsGap(cells, col, cols);
        if k > 0 {
          GapTwice(was, col, k, 1, cols);
        }
        cells := InsertAt(cells, Min(col, |cells|), EMPTY)[..cols];
      }
      screen := screen[row := screen[row].(cells := cells)];
    }

    method Put(ch: Scalar)
      requires Sound()
      modifies this
      ensures Sound() && TermView() == PutChar(old(TermView()), ch)
    {
      hide Valid;
      CursorFits(TermView());
      var cell, row, col := NewCell(ch, cursor.attrs), cursor.row, cursor.col;
      if col >= cols {
        return;
      }
      var cells := screen[row].cells[col := cell];
      if cell.width == 2 && col + 1 < cols {
        cells := cells[col + 1 := Cell(SPACE, cell.attrs, 1)];
      }
      screen := screen[row := screen[row].(cells := cells)];
      cursor := cursor.(col := cursor.col + cell.width);
      if cursor.col >= cols {
        if modes.autoWrap {
          cursor := cursor.(col := cols);
          wrapPending := true;
        } else {
          cursor := cursor.(col := cols - 1);
        }
      }
      assert TermView() == PutChar(old(TermView()), ch);
    }

    method OnExecute(code: byte)
      requires Sound()
      modifies this, scrollback
      ensures Sound() && TermView() == ExecuteCode(old(TermView()), code)
    {
      if code == 0x08 {
        cursor := cursor.(col := SaturatingSub(cursor.col, 1));
        wrapPending := false;
      } else if code == 0x09 {
        var next := (cursor.col / 8 + 1) * 8;
        cursor := cursor.(col := Min(next, cols - 1));
      } else if code == 0x0A || code == 0x0B || code == 0x0C {
        OnLineFeed();
      } else if code == 0x0D {
        cursor := cursor.(col := 0);
        wrapPending := false;
      }
    }

    method OnLineFeed()
      requires Sound()
      modifies this, scrollback
      ensures Sound() && TermView() == LineFeed(old(TermView()))
    {
      wrapPending := false;
      if cursor.row + 1 == regionBottom {
        ScrollRegionUp(1);
      } else if cursor.row + 1 < rows {
        cursor := cursor.(row := cursor.row + 1);
      }
    }

    method OnReverseIndex()
      requires Sound()
      modifies this
      ensures Sound() && TermView() == ReverseIndex(old(TermView()))
    {
      if cursor.row == regionTop {
        ScrollRegionDown(1);
      } else {
        cursor := cursor.(row := SaturatingSub(cursor.row, 1));
      }
    }

    // ----- Lines: one removed and one inserted per step ----------------------

    method ScrollRegionUp(lines: nat)
      requires Sound()
      modifies this`screen, scrollback`lines
      ensures Sound() && TermView() == ScrollUp(old(TermView()), lines)
    {
      hide ShiftUp, Removed, LastN;
      ScrollLines(lines, regionTop == 0 && regionBottom == rows);
      assert TermView() == ScrollUp(old(TermView()), lines);
    }

    /** The loop of scroll_up. */
    method ScrollLines(lines: nat, whole: bool)
      requires scrollback.Valid() && regionTop < regionBottom <= |screen|
      requires whole ==> regionTop == 0 && regionBottom == |screen|
      modifies this`screen, scrollback`lines
      ensures scrollback.Valid()
      ensures screen == ShiftUp(old(screen), regionTop, regionBottom, lines, BlankRow(cols))
      ensures scrollback.lines
           == if whole then LastN(old(scrollback.lines) + Removed(old(screen), lines, BlankRow(cols)), scrollback.limit)
              else old(scrollback.lines)
    {
      hide ShiftUp, Removed, LastN, BlankRow, RemoveAt, InsertAt;
      ghost var was, history, blank := screen, scrollback.lines, BlankRow(cols);
      ShiftNothing(was, regionTop, regionBottom, blank);
      HistoryStart(history, was, blank, scrollback.limit);
      for k := 0 to lines
        invariant screen == ShiftUp(was, regionTop, regionBottom, k, blank)
        invariant scrollback.Valid()
        invariant scrollback.lines
               == if whole then LastN(history + Removed(was, k, blank), scrollback.limit) else history
      {
        ShiftUpStep(was, regionTop, regionBottom, k, blank);
        HistoryStep(history, was, k, blank, scrollback.limit);
        ScrollOneLine(whole);
      }
    }

    method ScrollOneLine(whole: bool)
      requires scrollback.Valid() && regionTop < regionBottom <= |screen|
      modifies this`screen, scrollback`lines
      ensures scrollback.Valid()
      ensures screen == InsertAt(RemoveAt(old(screen), regionTop), regionBottom - 1, BlankRow(cols))
      ensures scrollback.lines
           == if whole then LastN(old(scrollback.lines) + [old(screen)[regionTop]], scrollback.limit)
              else old(scrollback.lines)
    {
      var removed := screen[regionTop];
      screen := RemoveAt(screen, regionTop);
      if whole {
        scrollback.Push(removed);
      }
      screen := InsertAt(screen, SaturatingSub(regionBottom, 1), BlankRow(cols));
    }

    method ScrollRegionDown(lines: nat)
      requires Sound()
      modifies this`screen
      ensures Sound() && TermView() == ScrollDown(old(TermView()), lines)
    {
      hide ShiftDown;
      var grid := ShiftedDown(screen, regionTop, regionBottom, lines, BlankRow(cols));
      screen := grid;
      assert TermView() == ScrollDown(old(TermView()), lines);
    }

    method OnInsertLines(count: nat)
      requires Sound()
      modifies this
      ensures Sound() && TermView() == InsertLines(old(TermView()), count)
    {
      hide ShiftDown;
      if cursor.row < regionTop || cursor.row >= regionBottom {
        return;
      }
      var grid := ShiftedDown(screen, cursor.row, regionBottom, count, BlankRow(cols));
      screen := grid;
      cursor := cursor.(col := 0);
      assert TermView() == InsertLines(old(TermView()), count);
    }

    method OnDeleteLines(count: nat)
      requires Sound()
      modifies this
      ensures Sound() && TermView() == DeleteLines(old(TermView()), count)
    {
      hide ShiftUp;
      if cursor.row < regionTop || cursor.row >= regionBottom {
        return;
      }
      var grid := ShiftedUp(screen, cursor.row, regionBottom, count, BlankRow(cols));
      screen := grid;
      cursor := cursor.(col := 0);
      assert TermView() == DeleteLines(old(TermView()), count);
    }

    // ----- Cells: one at a time ----------------------------------------------

    method OnDeleteChars(count: nat)
      requires Sound()
      modifies this`screen
      ensures Sound() && TermView() == DeleteChars(old(TermView()), count)
    {
      var row := cursor.row;
      var cells := screen[row].cells;
      ghost var was := cells;
      for k := 0 to count
        invariant cells == DeleteCells(was, cursor.col, k)
        modifies {}
      {
        DeleteCellsStep(was, cursor.col, k);
        if cursor.col < |cells| {
          cells := RemoveAt(cells, cursor.col);
        }
        cells := cells + [EMPTY];
      }
      screen := screen[row := screen[row].(cells := cells)];
    }

    method OnInsertChars(count: nat)
      requires Sound()
      modifies this`screen
      ensures Sound() && TermView() == InsertChars(old(TermView()), count)
    {
      var row := cursor.row;
      var cells := screen[row].cells;
      ghost var was := cells;
      for k := 0 to count
        invariant |cells| >= cols && cells == InsertCells(was, cursor.col, k, cols)
        modifies {}
      {
        InsertCellsStep(was, cursor.col, k, cols);
        var at := Min(cursor.col, SaturatingSub(|cells|, 1));
        InsertIsGap(cells, at, cols);
        cells := InsertAt(cells, at, EMPTY)[..cols];
      }
      screen := screen[row := screen[row].(cells := cells)];
    }

    method OnEraseChars(count: nat)
      requires Sound()
      modifies this`screen
      ensures Sound() && TermView() == EraseChars(old(TermView()), count)
    {
      var row := cursor.row;
      var cells := screen[row].cells;
      ghost var was, blank := cells, NewCell(SPACE, cursor.attrs);
      for offset := 0 to count
        invariant cells == Overwrite(was, cursor.col, Min(cursor.col + offset, cols), blank)
        modifies {}
      {
        var col := cursor.col + offset;
        if col < cols {
          cells := cells[col := NewCell(SPACE, cursor.attrs)];
        }
      }
      screen := screen[row := screen[row].(cells := cells)];
    }

    method OnEraseLinePart(from: nat, to: nat)
      requires Sound()
      modifies this`screen
      ensures Sound() && TermView() == EraseLinePart(old(TermView()), from, to)
    {
      var row, end := cursor.row, Min(to, cols);
      var cells := screen[row].cells;
      ghost var was, blank := cells, NewCell(SPACE, cursor.attrs);
      var col := Min(from, cols);
      while col < end
        invariant col <= Max(Min(from, cols), end)
        invariant cells == Overwrite(was, from, Min(col, end), blank)
        modifies {}
      {
        cells := cells[col := NewCell(SPACE, cursor.attrs)];
        col := col + 1;
      }
      assert cells == Overwrite(was, from, end, blank);
      screen := screen[row := screen[row].(cells := cells)];
    }

    method OnEraseLine(mode: nat)
      requires Sound()
      modifies this`screen
      ensures Sound() && TermView() == EraseLine(old(TermView()), mode)
    {
      if mode == 0 {
        OnEraseLinePart(cursor.col, cols);
      } else if mode == 1 {
        OnEraseLinePart(0, cursor.col + 1);
      } else {
        OnEraseLinePart(0, cols);
      }
    }

    method BlankRows(from: nat, to: nat)
      requires Sound() && to <= rows
      modifies this`screen
      ensures Sound() && TermView() == ClearRows(old(TermView()), from, to)
    {
      ghost var was := screen;
      var row, grid := from, screen;
      while row < to
        invariant |grid| == |was| && (from <= to ==> row <= to) && (to < from ==> row == from)
        invariant forall i :: 0 <= i < |was| ==>
                    grid[i] == if from <= i < row then BlankCells(was[i]) else was[i]
        modifies {}
      {
        grid := grid[row := BlankCells(grid[row])];
        row := row + 1;
      }
      screen := grid;
      assert screen == ClearRows(old(TermView()), from, to).screen;
    }

    method OnEraseDisplay(mode: nat)
      requires Sound()
      modifies this, scrollback
      ensures Sound() && TermView() == EraseDisplay(old(TermView()), mode)
    {
      hide Valid, ClearRows, EraseLinePart;
      CursorFits(TermView());
      if mode == 0 {
        OnEraseLinePart(cursor.col, cols);
        BlankRows(cursor.row + 1, rows);
      } else if mode == 1 {
        BlankRows(0, cursor.row);
        OnEraseLinePart(0, cursor.col + 1);
      } else {
        BlankRows(0, rows);
        scrollback.Clear();
        cursor := HOME;
      }
      assert TermView() == EraseDisplay(old(TermView()), mode);
    }

    // ----- Sequences ---------------------------------------------------------

    method OnSgr(params: seq<u16>)
      requires Sound()
      modifies this`cursor
      ensures Sound() && TermView() == SetAttrs(old(TermView()), params)
    {
      if params == [] {
        cursor := cursor.(attrs := PLAIN);
        return;
      }
      var index, attrs := 0, cursor.attrs;
      while index < |params|
        invariant ApplyFrom(params, index, attrs) == ApplySgr(params, old(cursor.attrs))
        modifies {}
        decreases SaturatingSub(|params|, index)
      {
        var code := params[index];
        index := index + 1;
        if code == 38 || code == 48 {
          var (color, next) := ExtendedColor(params, index);
          index := next;
          if color.Some? {
            attrs := if code == 38 then attrs.(fg := color.value) else attrs.(bg := color.value);
          }
        } else {
          attrs := SetOne(code, attrs);
        }
      }
      cursor := cursor.(attrs := attrs);
    }

    method OnRestoreCursor()
      requires Sound()
      modifies this`cursor
      ensures Sound() && TermView() == RestoreCursor(old(TermView()))
    {
      if savedCursor.Some? {
        cursor := savedCursor.value;
      }
    }

    method OnSwitchScreen(alternate: bool)
      requires Sound()
      modifies this
      ensures Sound() && TermView() == SwitchScreen(old(TermView()), alternate)
    {
      if alternate == modes.alternateScreen {
        return;
      }
      if alternate {
        savedScreen := Some(screen);
        screen := Repeat(rows, BlankRow(cols));
        savedCursor := Some(cursor);
        cursor := HOME;
      } else if savedScreen.Some? {
        screen := savedScreen.value;
        savedScreen := None;
        if savedCursor.Some? {
          cursor := savedCursor.value;
        }
      }
      modes := modes.(alternateScreen := alternate);
    }

    method OnSetOrigin(enable: bool)
      requires Sound()
      modifies this
      ensures Sound() && TermView() == SetOrigin(old(TermView()), enable)
    {
      modes := modes.(origin := enable);
      cursor := cursor.(row := if enable then regionTop else 0, col := 0);
    }

    method OnSaveCursor()
      requires Sound()
      modifies this`savedCursor
      ensures Sound() && TermView() == SaveCursor(old(TermView()))
    {
      savedCursor := Some(cursor);
    }

    method OnPrivateMode(mode: nat, enable: bool)
      requires Sound()
      modifies this
      ensures Sound() && TermView() == SetPrivateMode(old(TermView()), mode, enable)
    {
      hide SetOrigin, SwitchScreen, SaveCursor, RestoreCursor, WithMode;
      match mode
      case 6 => OnSetOrigin(enable);
      case 47 | 1047 | 1049 => OnSwitchScreen(enable);
      case 1048 =>
        if enable {
          OnSaveCursor();
        } else {
          OnRestoreCursor();
        }
      case _ => modes := WithMode(modes, mode, enable);
    }

    method MoveCursorUp(count: nat)
      requires Sound()
      modifies this`cursor, this`wrapPending
      ensures Sound() && TermView() == MoveUp(old(TermView()), count)
    {
      cursor := cursor.(row := Max(SaturatingSub(cursor.row, count), regionTop));
      wrapPending := false;
    }

    method MoveCursorDown(count: nat)
      requires Sound()
      modifies this`cursor, this`wrapPending
      ensures Sound() && TermView() == MoveDown(old(TermView()), count)
    {
      cursor := cursor.(row := Min(cursor.row + count, rows - 1));
      wrapPending := false;
    }

    method MoveCursorRight(count: nat)
      requires Sound()
      modifies this`cursor, this`wrapPending
      ensures Sound() && TermView() == MoveRight(old(TermView()), count)
    {
      cursor := cursor.(col := Min(cursor.col + count, cols - 1));
      wrapPending := false;
    }

    method MoveCursorLeft(count: nat)
      requires Sound()
      modifies this`cursor, this`wrapPending
      ensures Sound() && TermView() == MoveLeft(old(TermView()), count)
    {
      cursor := cursor.(col := SaturatingSub(cursor.col, count));
      wrapPending := false;
    }

    method OnLineStart()
      requires Sound()
      modifies this`cursor
      ensures Sound() && TermView() == LineStart(old(TermView()))
    {
      cursor := cursor.(col := 0);
    }

    method OnToColumn(col: nat)
      requires Sound()
      modifies this`cursor
      ensures Sound() && TermView() == ToColumn(old(TermView()), col)
    {
      cursor := cursor.(col := Min(col, cols - 1));
    }

    method OnToRow(row: nat)
      requires Sound()
      modifies this`cursor
      ensures Sound() && TermView() == ToRow(old(TermView()), row)
    {
      cursor := cursor.(row := Min(if modes.origin then row + regionTop else row, rows - 1));
    }

    method OnToPosition(row: nat, col: nat)
      requires Sound()
      modifies this`cursor, this`wrapPending
      ensures Sound() && TermView() == ToPosition(old(TermView()), row, col)
    {
      OnToRow(row);
      OnToColumn(col);
      wrapPending := false;
    }

    method OnMotion(params: seq<u16>, final: byte)
      requires Sound()
      modifies this`cursor, this`wrapPending
      ensures Sound() && TermView() == Motion(old(TermView()), params, final)
    {
      hide MoveUp, MoveDown, MoveLeft, MoveRight, ToRow, ToColumn, ToPosition, LineStart;
      var first := Param(params, 0, 1);
      match final
      case 0x41 => MoveCursorUp(first);
      case 0x42 | 0x65 => MoveCursorDown(first);
      case 0x43 | 0x61 => MoveCursorRight(first);
      case 0x44 => MoveCursorLeft(first);
      case 0x45 =>
        MoveCursorDown(first);
        OnLineStart();
      case 0x46 =>
        MoveCursorUp(first);
        OnLineStart();
      case 0x47 | 0x60 => OnToColumn(first - 1);
      case 0x48 | 0x66 => OnToPosition(first - 1, Param(params, 1, 1) - 1);
      case 0x64 => OnToRow(first - 1);
      case _ =>
    }

    method OnSetRegion(top: nat, bottom: nat)
      requires Sound()
      modifies this
      ensures Sound() && TermView() == SetRegion(old(TermView()), top, bottom)
    {
      if top < bottom && bottom <= rows {
        regionTop, regionBottom := top, bottom;
        cursor := cursor.(row := if modes.origin then top else 0, col := 0);
      }
    }

    method OnSetInsert(mode: nat, enable: bool)
      requires Sound()
      modifies this`modes
      ensures Sound() && TermView() == SetInsert(old(TermView()), mode, enable)
    {
      if mode == 4 {
        modes := modes.(insert := enable);
      }
    }

    method OnCsi(params: seq<u16>, intermediates: seq<byte>, final: byte)
      requires Sound()
      modifies this, scrollback
      ensures Sound() && TermView() == CsiSequence(old(TermView()), params, intermediates, final)
    {
      hide EraseDisplay, EraseLine, InsertLines, DeleteLines, DeleteChars, InsertChars, EraseChars;
      hide ScrollUp, ScrollDown, SetRegion, SaveCursor, RestoreCursor, SetAttrs, SetInsert, Motion, SetPrivateMode;
      if 0x3F in intermediates {
        OnPrivateMode(Param(params, 0, 0), final == 0x68);
        return;
      }
      var first := Param(params, 0, 1);
      match final
      case 0x4A => OnEraseDisplay(Param(params, 0, 0));
      case 0x4B => OnEraseLine(Param(params, 0, 0));
      case 0x4C => OnInsertLines(first);
      case 0x4D => OnDeleteLines(first);
      case 0x50 => OnDeleteChars(first);
      case 0x40 => OnInsertChars(first);
      case 0x58 => OnEraseChars(first);
      case 0x53 => ScrollRegionUp(first);
      case 0x54 => ScrollRegionDown(first);
      case 0x72 => OnSetRegion(first - 1, Param(params, 1, rows));
      case 0x73 => OnSaveCursor();
      case 0x75 => OnRestoreCursor();
      case 0x6D => OnSgr(params);
      case 0x68 => OnSetInsert(Param(params, 0, 0), true);
      case 0x6C => OnSetInsert(Param(params, 0, 0), false);
      case _ => OnMotion(params, final);
    }

    method OnKeypad(application: bool)
      requires Sound()
      modifies this`modes
      ensures Sound()
      ensures TermView() == old(TermView()).(modes := old(modes).(applicationKeypad := application))
    {
      modes := modes.(applicationKeypad := application);
    }

    method OnEsc(final: byte)
      requires Sound() && parser.View().Valid()
      modifies this, scrollback, parser, parser.utf8
      ensures Sound() && TermView() == EscSequence(old(TermView()), final)
      ensures parser.View() == if final == 0x63 then Fresh else old(parser.View())
    {
      hide SaveCursor, RestoreCursor, LineFeed, ReverseIndex, LineStart, New;
      match final
      case 0x37 => OnSaveCursor();
      case 0x38 => OnRestoreCursor();
      case 0x44 => OnLineFeed();
      case 0x4D => OnReverseIndex();
      case 0x45 =>
        OnLineStart();
        OnLineFeed();
      case 0x63 => FullReset();
      case 0x3D => OnKeypad(true);
      case 0x3E => OnKeypad(false);
      case _ =>
    }

    /** `*self = Self::new(self.cols, self.rows)` */
    method FullReset()
      requires Sound() && parser.View().Valid()
      modifies this, scrollback, parser, parser.utf8
      ensures Sound() && TermView() == New(old(cols), old(rows)) && parser.View() == Fresh
    {
      hide Valid, BlankRow, Clamp;
      NewOfItsSize(TermView());
      parser.Reset();
      scrollback.Clear();
      screen := Repeat(rows, BlankRow(cols));
      savedScreen, savedCursor := None, None;
      cursor, modes := HOME, DEFAULT_MODES;
      regionTop, regionBottom, wrapPending := 0, rows, false;
    }
  }

  /** A resize by cases: rows are added, or taken away. */
  lemma ResizedTo(t: Term, cols: nat, rows: nat)
    requires Valid(t)
    ensures |t.screen| == t.rows
    ensures var c, r := Clamp(cols, MAX_COLS), Clamp(rows, MAX_ROWS);
            var fitted := FitRows(t.screen, c);
            Resize(t, cols, rows)
            == if c == t.cols && r == t.rows then t
               else t.(cols := c, rows := r,
                       screen := if r > t.rows then fitted + Repeat(r - t.rows, BlankRow(c)) else fitted[t.rows - r..],
                       scrollback := if r > t.rows then t.scrollback
                                     else LastN(t.scrollback + fitted[..t.rows - r], DEFAULT_SCROLLBACK),
                       regionTop := 0, regionBottom := r,
                       cursor := t.cursor.(row := Min(t.cursor.row, r - 1), col := Min(t.cursor.col, c - 1)))
  {
    hide FitRow, BlankRow;
    var c, r := Clamp(cols, MAX_COLS), Clamp(rows, MAX_ROWS);
    var fitted := FitRows(t.screen, c);
    if r > t.rows {
      assert fitted[0..] == fitted && t.scrollback + fitted[..0] == t.scrollback;
    } else {
      assert fitted[t.rows - r..] + Repeat(0, BlankRow(c)) == fitted[t.rows - r..];
    }
  }

  lemma CursorFits(t: Term)
    requires Valid(t)
    ensures |t.screen| == t.rows > 0 && t.cols > 0 && t.cursor.row < t.rows && t.cursor.col <= t.cols
    ensures |t.screen[t.cursor.row].cells| >= t.cols
  {
  }

  lemma NewOfItsSize(t: Term)
    requires Valid(t)
    ensures New(t.cols, t.rows)
         == Term(t.cols, t.rows, Repeat(t.rows, BlankRow(t.cols)), None, None, [], HOME, DEFAULT_MODES, 0, t.rows, false)
  {
  }

  /** The loop of resize that cuts or extends every row. */
  method RefitRows(rows: seq<Row>, cols: nat) returns (grid: seq<Row>)
    ensures grid == FitRows(rows, cols)
  {
    grid := rows;
    for i := 0 to |rows|
      invariant |grid| == |rows|
      invariant forall k :: 0 <= k < |rows| ==> grid[k] == if k < i then FitRow(rows[k], cols) else rows[k]
    {
      grid := grid[i := FitRow(grid[i], cols)];
    }
  }

  /** The loop of scroll_down and insert_lines. */
  method ShiftedDown(lines: seq<Row>, top: nat, bottom: nat, count: nat, blank: Row) returns (grid: seq<Row>)
    requires top < bottom <= |lines|
    ensures grid == ShiftDown(lines, top, bottom, count, blank)
  {
    hide ShiftDown, RemoveAt, InsertAt;
    grid := lines;
    ShiftNothing(lines, top, bottom, blank);
    for k := 0 to count
      invariant grid == ShiftDown(lines, top, bottom, k, blank)
    {
      ShiftDownStep(lines, top, bottom, k, blank);
      if bottom <= |grid| {
        grid := RemoveAt(grid, bottom - 1);
      }
      grid := InsertAt(grid, top, blank);
    }
  }

  /** The loop of delete_lines. */
  method ShiftedUp(lines: seq<Row>, top: nat, bottom: nat, count: nat, blank: Row) returns (grid: seq<Row>)
    requires top < bottom <= |lines|
    ensures grid == ShiftUp(lines, top, bottom, count, blank)
  {
    hide ShiftUp, RemoveAt, InsertAt;
    grid := lines;
    ShiftNothing(lines, top, bottom, blank);
    for k := 0 to count
      invariant grid == ShiftUp(lines, top, bottom, k, blank)
    {
      ShiftUpStep(lines, top, bottom, k, blank);
      grid := RemoveAt(grid, top);
      grid := InsertAt(grid, SaturatingSub(bottom, 1), blank);
    }
  }

  lemma HistoryStart(history: seq<Row>, s: seq<Row>, blank: Row, limit: nat)
    requires |history| <= limit
    ensures LastN(history + Removed(s, 0, blank), limit) == history
  {
    assert history + Removed(s, 0, blank) == history;
  }

  /** One more line scrolled off a whole screen. */
  lemma HistoryStep(history: seq<Row>, s: seq<Row>, n: nat, blank: Row, limit: nat)
    requires |s| > 0
    ensures LastN(LastN(history + Removed(s, n, blank), limit)
                  + [ShiftUp(s, 0, |s|, n, blank)[0]], limit)
         == LastN(history + Removed(s, n + 1, blank), limit)
  {
    hide ShiftUp, Removed, LastN;
    var line := ShiftUp(s, 0, |s|, n, blank)[0];
    RemovedStep(s, n, blank);
    LastNAppend(history + Removed(s, n, blank), [line], limit);
    assert history + Removed(s, n + 1, blank) == history + Removed(s, n, blank) + [line];
  }

  lemma GapCell(cells: seq<Cell>, at: nat, n: nat, cols: nat, i: nat)
    requires at <= |cells| && i < cols <= |cells|
    ensures Gap(cells, at, n, cols)[i]
         == if i < at then cells[i] else if i < at + n then EMPTY else cells[i - n]
  {
  }

  lemma InsertIsGap(cells: seq<Cell>, at: nat, cols: nat)
    requires at <= |cells| && cols <= |cells|
    ensures InsertAt(cells, at, EMPTY)[..cols] == Gap(cells, at, 1, cols)
  {
    assert Repeat(1, EMPTY) == [EMPTY];
  }

  /** Two gaps at one place are one gap. */
  lemma GapTwice(cells: seq<Cell>, at: nat, m: nat, n: nat, cols: nat)
    requires at <= cols <= |cells|
    ensures Gap(Gap(cells, at, m, cols), at, n, cols) == Gap(cells, at, m + n, cols)
  {
    hide Gap;
    var once := Gap(cells, at, m, cols);
    var twice, both := Gap(once, at, n, cols), Gap(cells, at, m + n, cols);
    forall i | 0 <= i < cols ensures twice[i] == both[i] {
      GapCell(once, at, n, cols, i);
      GapCell(cells, at, m + n, cols, i);
      if i >= n {
        GapCell(cells, at, m, cols, i - n);
      }
      if i < at {
        GapCell(cells, at, m, cols, i);
      }
    }
  }

  lemma DeleteCellsStep(cells: seq<Cell>, at: nat, n: nat)
    ensures var before := DeleteCells(cells, at, n);
            DeleteCells(cells, at, n + 1) == (if at < |before| then RemoveAt(before, at) else before) + [EMPTY]
  {
    var before, after := DeleteCells(cells, at, n), DeleteCells(cells, at, n + 1);
    if at < |cells| {
      var rest := cells[at..] + Repeat(n, EMPTY);
      assert cells[at..] + Repeat(n + 1, EMPTY) == rest + [EMPTY];
      assert (rest + [EMPTY])[n + 1..] == rest[n..][1..] + [EMPTY];
      assert RemoveAt(before, at) == cells[..at] + rest[n..][1..];
    } else {
      var k := Min(n, at - |cells| + 1);
      if at < |before| {
        assert RemoveAt(before, at) == cells + Repeat(k - 1, EMPTY);
      }
      assert after == cells + Repeat(Min(n + 1, at - |cells| + 1), EMPTY);
    }
  }

  lemma InsertCellsStep(cells: seq<Cell>, at: nat, n: nat, cols: nat)
    requires 1 <= cols <= |cells|
    ensures var before := InsertCells(cells, at, n, cols);
            InsertCells(cells, at, n + 1, cols) == Gap(before, Min(at, |before| - 1), 1, cols)
  {
    var once, i := Gap(cells, Min(at, |cells| - 1), 1, cols), Min(at, cols - 1);
    if n > 0 {
      GapTwice(once, i, n - 1, 1, cols);
    } else {
      assert once[..i] + Repeat(0, EMPTY) + once[i..] == once;
    }
  }
}
