/** What plain text looks like on the screen and in the scrollback. */
module LayoutTheorems {
  import opened Basics
  import opened Grid
  import opened Screen
  import opened ScrollTheorems
  import opened VtParser
  import opened ParserTheorems
  import opened Utf8Theorems
  import opened Emulator
  import opened TerminalTheorems

  type Line = seq<Scalar>

  /** A printable character one column wide. */
  predicate Narrow(c: Scalar) {
    c >= 0x20 && !IsWide(c)
  }

  predicate Plain(line: Line) {
    forall i :: 0 <= i < |line| ==> Narrow(line[i])
  }

  // ----- The intended layout -------------------------------------------------

  /** A line cut into pieces of `cols` characters: an empty line is one empty
      piece, and an exactly full line has no empty piece after it. */
  function Pieces(line: Line, cols: nat): (r: seq<Line>)
    requires cols > 0
    ensures r != []
    decreases |line|
  {
    if |line| <= cols then [line] else [line[..cols]] + Pieces(line[cols..], cols)
  }

  function Layout(lines: seq<Line>, cols: nat): (r: seq<Line>)
    requires cols > 0 && lines != []
    ensures r != []
  {
    if |lines| == 1 then Pieces(lines[0], cols)
    else Pieces(lines[0], cols) + Layout(lines[1..], cols)
  }

  /** A piece as a row of unstyled cells, padded with empty ones. */
  function Picture(piece: Line, cols: nat): (r: Row)
    ensures |r.cells| == cols
  {
    Row(seq(cols, i requires 0 <= i < cols => if i < |piece| then Cell(piece[i], PLAIN, 1) else EMPTY), false)
  }

  function Pictures(pieces: seq<Line>, cols: nat): (r: seq<Row>)
    ensures |r| == |pieces|
    ensures forall i :: 0 <= i < |r| ==> r[i] == Picture(pieces[i], cols)
  {
    seq(|pieces|, i requires 0 <= i < |pieces| => Picture(pieces[i], cols))
  }

  const CR: Scalar := 0x0D
  const LF: Scalar := 0x0A
  const CR_LF: Line := [CR, LF]
  const NO_TEXT: Line := []

  function JoinCrLf(lines: seq<Line>): Line
    requires lines != []
  {
    if |lines| == 1 then lines[0] else lines[0] + [CR, LF] + JoinCrLf(lines[1..])
  }

  /** The scrollback followed by the screen down to the cursor is exactly the
      pieces, as many of the newest as fit; the rest of the screen is blank, and
      the cursor stands after the last character. */
  ghost predicate LaidOut(t: Term, pieces: seq<Line>)
    requires pieces != []
  {
    && |t.screen| == t.rows > 0
    && t.cursor.row + 1 == Min(|pieces|, t.rows)
    && t.cursor.col == |pieces[|pieces| - 1]|
    && t.scrollback + t.screen[..t.cursor.row + 1]
       == LastN(Pictures(pieces, t.cols), DEFAULT_SCROLLBACK + t.cursor.row + 1)
    && forall i :: t.cursor.row < i < t.rows ==> t.screen[i] == BlankRow(t.cols)
  }

  // ----- What the terminal shows ---------------------------------------------

  /** No mode, region or saved screen interferes. */
  ghost predicate Undisturbed(t: Term) {
    && Valid(t)
    && t.modes == DEFAULT_MODES
    && WholeScreen(t)
    && t.cursor.attrs == PLAIN
  }

  /** The rows down to the cursor hold the newest pieces. */
  ghost predicate Visible(screen: seq<Row>, row: nat, pieces: seq<Line>, cols: nat) {
    row < |screen| && row < |pieces| && screen[..row + 1] == Pictures(pieces[|pieces| - 1 - row..], cols)
  }

  ghost predicate BlankBelow(screen: seq<Row>, row: nat, cols: nat) {
    forall i :: row < i < |screen| ==> screen[i] == BlankRow(cols)
  }

  /** The scrollback holds the pieces before those, as far as it reaches. */
  ghost predicate Older(scrollback: seq<Row>, row: nat, pieces: seq<Line>, cols: nat) {
    row < |pieces| && scrollback == LastN(Pictures(pieces[..|pieces| - 1 - row], cols), DEFAULT_SCROLLBACK)
  }

  predicate AllFit(pieces: seq<Line>, cols: nat) {
    forall i :: 0 <= i < |pieces| ==> |pieces[i]| <= cols
  }

  /** The terminal shows the pieces: the cursor stands after the last one, in
      the lowest row used; the rows above it hold the pieces before, and older
      ones are in the scrollback as far as it reaches. */
  ghost predicate Shows(t: Term, pieces: seq<Line>) {
    && Undisturbed(t)
    && pieces != []
    && AllFit(pieces, t.cols)
    && t.cursor.row == Min(|pieces|, t.rows) - 1
    && t.cursor.col == |pieces[|pieces| - 1]|
    && t.wrapPending == (|pieces[|pieces| - 1]| == t.cols)
    && Visible(t.screen, t.cursor.row, pieces, t.cols)
    && BlankBelow(t.screen, t.cursor.row, t.cols)
    && Older(t.scrollback, t.cursor.row, pieces, t.cols)
  }

  lemma FreshShowsOneEmptyPiece(cols: nat, rows: nat)
    ensures Shows(New(cols, rows), [NO_TEXT])
  {
    hide Visible, BlankBelow, Older, Picture, BlankRow;
    var t := New(cols, rows);
    assert t.screen[0] == BlankRow(t.cols);
    FreshRows(t.screen, t.cols);
  }

  lemma FreshRows(screen: seq<Row>, cols: nat)
    requires screen != [] && forall i :: 0 <= i < |screen| ==> screen[i] == BlankRow(cols)
    ensures Visible(screen, 0, [NO_TEXT], cols) && BlankBelow(screen, 0, cols) && Older([], 0, [NO_TEXT], cols)
  {
    hide BlankRow, Picture;
    EmptyPicture(cols);
    assert [NO_TEXT][0..] == [NO_TEXT] && [NO_TEXT][..0] == [];
  }

  /** What CR LF does: a line feed, with the cursor in column 0. */
  function NextLine(t: Term): (r: Term)
    requires Valid(t)
    ensures Valid(r) && SameSize(t, r)
  {
    var fed := LineFeed(t);
    fed.(cursor := fed.cursor.(col := 0), wrapPending := false)
  }

  lemma NextLineBelow(t: Term)
    requires Undisturbed(t) && t.cursor.row + 1 < t.rows
    ensures NextLine(t) == t.(cursor := t.cursor.(row := t.cursor.row + 1, col := 0), wrapPending := false)
    ensures Undisturbed(NextLine(t))
  {
    hide ScrollUp, Shaped, SavedFits;
  }

  lemma NextLineAtBottom(t: Term)
    requires Undisturbed(t) && t.cursor.row + 1 == t.rows
    ensures var u := NextLine(t);
            && |t.screen| == t.rows && Undisturbed(u) && SameSize(t, u)
            && u.screen == t.screen[1..] + [BlankRow(t.cols)]
            && u.scrollback == LastN(t.scrollback + [t.screen[0]], DEFAULT_SCROLLBACK)
            && u.cursor == t.cursor.(col := 0) && !u.wrapPending
  {
    hide LastN, BlankRow, SavedFits;
    assert Removed(t.screen, 1, BlankRow(t.cols)) == [t.screen[0]];
    assert LineFeed(t).screen == t.screen[1..] + [BlankRow(t.cols)];
  }

  lemma EmptyPicture(cols: nat)
    ensures Picture(NO_TEXT, cols) == BlankRow(cols)
  {
    assert Picture(NO_TEXT, cols).cells == BlankRow(cols).cells;
  }

  lemma PicturesAppend(pieces: seq<Line>, piece: Line, cols: nat)
    ensures Pictures(pieces + [piece], cols) == Pictures(pieces, cols) + [Picture(piece, cols)]
  {
    hide Picture;
  }

  lemma CursorOnScreen(t: Term)
    requires Undisturbed(t)
    ensures t.cursor.row < t.rows == |t.screen|
  {
  }

  /** CR LF starts a new piece. */
  lemma NewLine(t: Term, pieces: seq<Line>)
    requires Shows(t, pieces)
    ensures Shows(NextLine(t), pieces + [NO_TEXT])
  {
    hide NextLine, Undisturbed, Visible, BlankBelow, Older;
    CursorOnScreen(t);
    if t.cursor.row + 1 < t.rows {
      NextLineBelow(t);
      PieceBelow(t.screen, t.scrollback, t.cursor.row, pieces, t.cols);
    } else {
      NextLineAtBottom(t);
      PieceAtBottom(t.screen, t.scrollback, t.cursor.row, pieces, t.cols);
    }
  }

  lemma PieceBelow(screen: seq<Row>, scrollback: seq<Row>, row: nat, pieces: seq<Line>, cols: nat)
    requires row + 1 < |screen| && |pieces| == row + 1
    requires Visible(screen, row, pieces, cols) && BlankBelow(screen, row, cols) && Older(scrollback, row, pieces, cols)
    ensures var more := pieces + [NO_TEXT];
            && Visible(screen, row + 1, more, cols)
            && BlankBelow(screen, row + 1, cols)
            && Older(scrollback, row + 1, more, cols)
  {
    hide Picture, BlankRow, LastN;
    var more := pieces + [NO_TEXT];
    EmptyPicture(cols);
    assert more[0..] == more && pieces[0..] == pieces && more[..0] == pieces[..0];
    PicturesAppend(pieces, NO_TEXT, cols);
    assert screen[..row + 2] == screen[..row + 1] + [screen[row + 1]];
  }

  lemma PieceAtBottom(screen: seq<Row>, scrollback: seq<Row>, row: nat, pieces: seq<Line>, cols: nat)
    requires row + 1 == |screen|
    requires Visible(screen, row, pieces, cols) && Older(scrollback, row, pieces, cols)
    ensures var more, moved := pieces + [NO_TEXT], screen[1..] + [BlankRow(cols)];
            && Visible(moved, row, more, cols)
            && BlankBelow(moved, row, cols)
            && Older(LastN(scrollback + [screen[0]], DEFAULT_SCROLLBACK), row, more, cols)
  {
    hide Picture, BlankRow, LastN, Pictures;
    var more, moved := pieces + [NO_TEXT], screen[1..] + [BlankRow(cols)];
    var gone := |pieces| - 1 - row;
    EmptyPicture(cols);
    assert screen[..row + 1] == screen && moved[..row + 1] == moved;
    assert more[gone + 1..] == pieces[gone + 1..] + [NO_TEXT] && more[..gone + 1] == pieces[..gone + 1];
    OneMoveUp(pieces, gone, cols);
    PicturesAppend(pieces[gone + 1..], NO_TEXT, cols);
    LastNAppend(Pictures(pieces[..gone], cols), [Picture(pieces[gone], cols)], DEFAULT_SCROLLBACK);
  }

  /** The first piece shown joins those above. */
  lemma OneMoveUp(pieces: seq<Line>, gone: nat, cols: nat)
    requires gone < |pieces|
    ensures Pictures(pieces[..gone + 1], cols) == Pictures(pieces[..gone], cols) + [Picture(pieces[gone], cols)]
    ensures Pictures(pieces[gone..], cols)[0] == Picture(pieces[gone], cols)
    ensures Pictures(pieces[gone..], cols)[1..] == Pictures(pieces[gone + 1..], cols)
  {
    hide Picture;
  }

  /** A narrow character changes one cell and moves the cursor behind it. */
  lemma NarrowPut(t: Term, c: Scalar)
    requires Undisturbed(t) && Narrow(c) && t.cursor.col < t.cols
    ensures var u, row, col := PutChar(t, c), t.cursor.row, t.cursor.col;
            && Undisturbed(u) && SameSize(t, u) && row < |t.screen| && col < |t.screen[row].cells|
            && u.screen == t.screen[row := t.screen[row].(cells := t.screen[row].cells[col := Cell(c, PLAIN, 1)])]
            && u.cursor.row == row && u.cursor.col == col + 1
            && u.wrapPending == (t.wrapPending || col + 1 == t.cols) && u.scrollback == t.scrollback
  {
    hide Gap;
  }

  lemma PictureExtends(piece: Line, c: Scalar, cols: nat)
    requires |piece| < cols
    ensures Picture(piece + [c], cols)
         == Picture(piece, cols).(cells := Picture(piece, cols).cells[|piece| := Cell(c, PLAIN, 1)])
  {
    assert Picture(piece + [c], cols).cells == Picture(piece, cols).cells[|piece| := Cell(c, PLAIN, 1)];
  }

  lemma PieceExtends(screen: seq<Row>, scrollback: seq<Row>, row: nat, pieces: seq<Line>, c: Scalar, cols: nat)
    requires Visible(screen, row, pieces, cols) && BlankBelow(screen, row, cols) && Older(scrollback, row, pieces, cols)
    requires |pieces[|pieces| - 1]| < cols
    ensures var last := |pieces| - 1;
            var col, more := |pieces[last]|, pieces[last := pieces[last] + [c]];
            && col < |screen[row].cells|
            && var drawn := screen[row := screen[row].(cells := screen[row].cells[col := Cell(c, PLAIN, 1)])];
            && Visible(drawn, row, more, cols)
            && BlankBelow(drawn, row, cols)
            && Older(scrollback, row, more, cols)
  {
    hide Picture, BlankRow, LastN;
    var last := |pieces| - 1;
    var gone, more := last - row, pieces[last := pieces[last] + [c]];
    assert screen[row] == screen[..row + 1][row] == Picture(pieces[last], cols);
    PictureExtends(pieces[last], c, cols);
    assert more[..gone] == pieces[..gone];
    assert Pictures(more[gone..], cols) == Pictures(pieces[gone..], cols)[row := Picture(pieces[last] + [c], cols)];
  }

  /** One more character on a piece that is not full. */
  lemma Extend(t: Term, pieces: seq<Line>, c: Scalar)
    requires Shows(t, pieces) && Narrow(c)
    requires |pieces[|pieces| - 1]| < t.cols
    ensures var last := |pieces| - 1;
            Shows(PutChar(t, c), pieces[last := pieces[last] + [c]])
  {
    hide PutChar, Undisturbed, Narrow, Visible, BlankBelow, Older;
    NarrowPut(t, c);
    PieceExtends(t.screen, t.scrollback, t.cursor.row, pieces, c, t.cols);
  }

  /** Where a character goes: after a full piece, on the next line. */
  lemma PrintWhere(t: Term, pieces: seq<Line>, c: Scalar)
    requires Shows(t, pieces) && Narrow(c)
    ensures PrintChar(t, c) == PutChar(if |pieces[|pieces| - 1]| < t.cols then t else NextLine(t), c)
  {
    hide LineFeed, PutChar, MakeRoom, Visible, BlankBelow, Older;
    NextLineKeepsModes(t);
  }

  lemma NextLineKeepsModes(t: Term)
    requires Valid(t)
    ensures NextLine(t).modes == t.modes
  {
    hide ShiftUp, Removed, LastN, BlankRow;
  }

  /** Printing extends the last piece, or starts the next when it is full: the
      deferred wrap neither loses nor repeats a character. */
  lemma PrintStep(t: Term, pieces: seq<Line>, c: Scalar)
    requires Shows(t, pieces) && Narrow(c)
    ensures var last := |pieces| - 1;
            Shows(PrintChar(t, c), if |pieces[last]| < t.cols then pieces[last := pieces[last] + [c]]
                                   else pieces + [[c]])
  {
    hide NextLine, PutChar, PrintChar, Shows, Valid;
    ShowsMeans(t, pieces);
    PrintWhere(t, pieces, c);
    if |pieces[|pieces| - 1]| < t.cols {
      Extend(t, pieces, c);
    } else {
      var more := pieces + [NO_TEXT];
      NewLine(t, pieces);
      NextLineWidth(t);
      Extend(NextLine(t), more, c);
      assert NO_TEXT + [c] == [c] && more[|pieces| := [c]] == pieces + [[c]];
    }
  }

  lemma NextLineWidth(t: Term)
    requires Valid(t)
    ensures NextLine(t).cols == t.cols > 0
  {
  }

  // ----- Whole texts ---------------------------------------------------------

  lemma PiecesOfStarted(started: Line, line: Line, cols: nat)
    requires 0 < cols && |started| <= cols
    ensures line == [] ==> Pieces(started + line, cols) == [started]
    ensures line != [] && |started| == cols ==> Pieces(started + line, cols) == [started] + Pieces(line, cols)
  {
    if line == [] {
      assert started + line == started;
    } else if |started| == cols {
      assert (started + line)[..cols] == started && (started + line)[cols..] == line;
    }
  }

  lemma {:induction false} FeedLine(t: Term, before: seq<Line>, started: Line, line: Line)
    requires Shows(t, before + [started]) && Plain(line)
    ensures Shows(ApplyAll(t, Map(ActionOf, line)), before + Pieces(started + line, t.cols))
    decreases |line|
  {
    hide Shows, LaidOut, Apply, ActionOf, PrintChar, Pieces;
    var pieces := before + [started];
    ShowsMeans(t, pieces);
    assert pieces[|before|] == started;
    PiecesOfStarted(started, line, t.cols);
    if line != [] {
      var c, rest := line[0], line[1..];
      var u := PrintChar(t, c);
      PrintStep(t, pieces, c);
      NarrowPrints(t, c);
      assert Map(ActionOf, line)[1..] == Map(ActionOf, rest);
      if |started| < t.cols {
        assert pieces[|before| := started + [c]] == before + [started + [c]];
        FeedLine(u, before, started + [c], rest);
        assert started + [c] + rest == started + line;
      } else {
        FeedLine(u, pieces, [c], rest);
        assert [c] + rest == line;
        assert pieces + Pieces(line, t.cols) == before + ([started] + Pieces(line, t.cols));
      }
    }
  }

  lemma NarrowPrints(t: Term, c: Scalar)
    requires Valid(t) && Narrow(c)
    ensures Apply(t, ActionOf(c)) == PrintChar(t, c)
  {
  }

  lemma ShowsMeans(t: Term, pieces: seq<Line>)
    requires Shows(t, pieces)
    ensures Valid(t) && pieces != [] && |pieces[|pieces| - 1]| <= t.cols
    ensures LaidOut(t, pieces)
  {
    hide Picture, Pictures, Valid, BlankRow, LastN;
    var gone := |pieces| - 1 - t.cursor.row;
    PicturesSplit(pieces, gone, t.cols);
    NewestWithTail(Pictures(pieces[..gone], t.cols), Pictures(pieces[gone..], t.cols), DEFAULT_SCROLLBACK);
    CursorOnScreen(t);
  }

  lemma PicturesSplit(pieces: seq<Line>, gone: nat, cols: nat)
    requires gone <= |pieces|
    ensures Pictures(pieces, cols) == Pictures(pieces[..gone], cols) + Pictures(pieces[gone..], cols)
  {
    hide Picture;
  }

  /** The newest of a list with a tail kept whole. */
  lemma NewestWithTail(s: seq<Row>, tail: seq<Row>, n: nat)
    ensures LastN(s, n) + tail == LastN(s + tail, n + |tail|)
  {
  }

  /** Returning before or after the line feed is the same. */
  lemma CommuteReturn(t: Term)
    requires Valid(t)
    ensures LineFeed(t.(cursor := t.cursor.(col := 0), wrapPending := false)) == NextLine(t)
  {
    hide ScrollUp;
    ScrollUpIgnoresCursor(t.(wrapPending := false), t.cursor.(col := 0));
  }

  lemma CrLfIsNextLine(t: Term)
    requires Valid(t)
    ensures ApplyAll(t, Map(ActionOf, CR_LF)) == NextLine(t)
  {
    hide ApplyAll, NextLine, LineFeed, Valid;
    ApplyPair(t, Map(ActionOf, CR_LF));
    CommuteReturn(t);
  }

  lemma ApplyPair(t: Term, actions: seq<Action>)
    requires Valid(t) && |actions| == 2
    ensures ApplyAll(t, actions) == Apply(Apply(t, actions[0]), actions[1])
  {
    hide Apply, Valid;
    assert actions[1..][1..] == [];
    assert ApplyAll(Apply(t, actions[0]), actions[1..]) == ApplyAll(Apply(Apply(t, actions[0]), actions[1]), []);
  }

  lemma FeedCrLf(t: Term, pieces: seq<Line>)
    requires Shows(t, pieces)
    ensures Shows(ApplyAll(t, Map(ActionOf, CR_LF)), pieces + [NO_TEXT])
  {
    hide Shows, NextLine, ApplyAll, ActionOf, Valid;
    ShowsMeans(t, pieces);
    NewLine(t, pieces);
    CrLfIsNextLine(t);
  }

  lemma ScrollUpIgnoresCursor(t: Term, c: Cursor)
    requires Valid(t) && Valid(t.(cursor := c))
    ensures ScrollUp(t.(cursor := c), 1) == ScrollUp(t, 1).(cursor := c)
    ensures ScrollUp(t, 1).cursor == t.cursor && ScrollUp(t, 1).wrapPending == t.wrapPending
  {
    hide ShiftUp, Removed, LastN, BlankRow;
  }

  lemma {:induction false} FeedLines(t: Term, before: seq<Line>, lines: seq<Line>)
    requires Shows(t, before + [NO_TEXT]) && lines != []
    requires forall i :: 0 <= i < |lines| ==> Plain(lines[i])
    ensures Shows(ApplyAll(t, Map(ActionOf, JoinCrLf(lines))), before + Layout(lines, t.cols))
    decreases |lines|
  {
    hide Shows, Apply, ActionOf;
    ShowsMeans(t, before + [NO_TEXT]);
    var first := Map(ActionOf, lines[0]);
    FeedLine(t, before, NO_TEXT, lines[0]);
    assert NO_TEXT + lines[0] == lines[0];
    if |lines| > 1 {
      var pieces := Pieces(lines[0], t.cols);
      var u := ApplyAll(t, first);
      FeedCrLf(u, before + pieces);
      var v := ApplyAll(u, Map(ActionOf, CR_LF));
      FeedLines(v, before + pieces, lines[1..]);
      var rest := Map(ActionOf, JoinCrLf(lines[1..]));
      assert Map(ActionOf, JoinCrLf(lines)) == first + (Map(ActionOf, CR_LF) + rest);
      ApplyConcat(t, first, Map(ActionOf, CR_LF) + rest);
      ApplyConcat(u, Map(ActionOf, CR_LF), rest);
      assert before + pieces + Layout(lines[1..], t.cols) == before + Layout(lines, t.cols);
    }
  }

  lemma FeedAllLines(t: Term, lines: seq<Line>)
    requires Shows(t, [NO_TEXT]) && lines != []
    requires forall i :: 0 <= i < |lines| ==> Plain(lines[i])
    ensures Shows(ApplyAll(t, Map(ActionOf, JoinCrLf(lines))), Layout(lines, t.cols))
  {
    hide Shows, ApplyAll, Layout, JoinCrLf, Plain;
    ShowsMeans(t, [NO_TEXT]);
    assert [] + [NO_TEXT] == [NO_TEXT];
    FeedLines(t, [], lines);
    assert [] + Layout(lines, t.cols) == Layout(lines, t.cols);
  }

  lemma {:induction false} NoEscape(lines: seq<Line>)
    requires lines != [] && forall i :: 0 <= i < |lines| ==> Plain(lines[i])
    ensures ESC !in JoinCrLf(lines)
  {
    assert Plain(lines[0]);
    if |lines| > 1 {
      NoEscape(lines[1..]);
    }
  }

  lemma TextActions(start: Term, lines: seq<Line>)
    requires Valid(start) && lines != [] && forall i :: 0 <= i < |lines| ==> Plain(lines[i])
    ensures Feed(Machine(Fresh, start), EncodeAll(JoinCrLf(lines))).term
         == ApplyAll(start, Map(ActionOf, JoinCrLf(lines)))
  {
    hide Run, JoinCrLf, EncodeAll, ApplyAll, Valid;
    NoEscape(lines);
    DecodingInvertsEncoding(Fresh, JoinCrLf(lines));
  }

  /** The layout theorem.  A new terminal of any size is fed the UTF-8 bytes of
      any lines of narrow characters, joined by CR LF: what it then holds is
      exactly the lines cut to its width. */
  lemma TextLayout(cols: nat, rows: nat, lines: seq<Line>)
    requires lines != [] && forall i :: 0 <= i < |lines| ==> Plain(lines[i])
    ensures var t := Feed(Machine(Fresh, New(cols, rows)), EncodeAll(JoinCrLf(lines))).term;
            && t.cols == Clamp(cols, MAX_COLS) && t.rows == Clamp(rows, MAX_ROWS)
            && LaidOut(t, Layout(lines, t.cols))
  {
    hide Feed, Shows, LaidOut, Layout, JoinCrLf, EncodeAll, ApplyAll;
    var start := New(cols, rows);
    TextActions(start, lines);
    FreshShowsOneEmptyPiece(cols, rows);
    FeedAllLines(start, lines);
    ShowsMeans(ApplyAll(start, Map(ActionOf, JoinCrLf(lines))), Layout(lines, start.cols));
  }

  /** And it does not matter how the bytes arrive: any division into chunks,
      even inside a character, leaves the same text. */
  lemma TextLayoutInChunks(cols: nat, rows: nat, lines: seq<Line>, chunks: seq<seq<byte>>)
    requires lines != [] && forall i :: 0 <= i < |lines| ==> Plain(lines[i])
    requires Flatten(chunks) == EncodeAll(JoinCrLf(lines))
    ensures var t := FeedChunks(Machine(Fresh, New(cols, rows)), chunks).term;
            LaidOut(t, Layout(lines, Clamp(cols, MAX_COLS)))
  {
    hide Feed, LaidOut, Layout, JoinCrLf, EncodeAll, Run, HasReset, IsReset, ActionOf;
    NoEscape(lines);
    DecodingInvertsEncoding(Fresh, JoinCrLf(lines));
    TextNeverResets(JoinCrLf(lines));
    ChunksAreInvisible(Machine(Fresh, New(cols, rows)), chunks);
    TextLayout(cols, rows, lines);
  }

  lemma TextNeverResets(text: Line)
    ensures !HasReset(Map(ActionOf, text))
  {
  }
}
