/** The terminal's screen as a value, and what each operation makes of it:
    crates/rdt-terminal/src/term.rs.

    The source's loops are given here in closed form; the object in
    Terminal.dfy runs the loops and is proved to reach the same state.  The
    window title, the bell count and the dirty flag are not part of the state. */
module Screen {
  import opened Basics
  import opened Grid
  import opened Sgr
  import opened VtParser

  const DEFAULT_SCROLLBACK: nat := 10_000
  const MAX_COLS: nat := 500
  const MAX_ROWS: nat := 200

  datatype Modes = Modes(
    cursorVisible: bool,
    applicationCursorKeys: bool,
    applicationKeypad: bool,
    bracketedPaste: bool,
    origin: bool,
    autoWrap: bool,
    alternateScreen: bool,
    insert: bool
  )

  const DEFAULT_MODES: Modes := Modes(true, false, false, false, false, true, false, false)

  datatype Cursor = Cursor(row: nat, col: nat, attrs: Attrs)

  const HOME: Cursor := Cursor(0, 0, PLAIN)

  datatype Term = Term(
    cols: nat,
    rows: nat,
    screen: seq<Row>,
    savedScreen: Option<seq<Row>>,
    savedCursor: Option<Cursor>,
    scrollback: seq<Row>,
    cursor: Cursor,
    modes: Modes,
    regionTop: nat,
    regionBottom: nat,
    wrapPending: bool
  )

  // ----- The invariant -------------------------------------------------------

  /** Exactly `rows` rows of at least `cols` cells. */
  ghost predicate Shaped(screen: seq<Row>, cols: nat, rows: nat) {
    |screen| == rows && forall i :: 0 <= i < rows ==> |screen[i].cells| >= cols
  }

  ghost predicate Within(c: Cursor, cols: nat, rows: nat) {
    c.row < rows && c.col <= cols
  }

  ghost predicate Valid(t: Term) {
    && 1 <= t.cols <= MAX_COLS
    && 1 <= t.rows <= MAX_ROWS
    && Shaped(t.screen, t.cols, t.rows)
    && t.regionTop < t.regionBottom <= t.rows
    && Within(t.cursor, t.cols, t.rows)
    && SavedFits(t, t.cols, t.rows)
    && t.modes.alternateScreen == t.savedScreen.Some?
    && |t.scrollback| <= DEFAULT_SCROLLBACK
  }

  predicate SameSize(t: Term, u: Term) {
    u.cols == t.cols && u.rows == t.rows
  }

  /** The saved screen and the saved cursor, when there are any, suit a screen
      of the given size. */
  ghost predicate SavedFits(t: Term, cols: nat, rows: nat) {
    && (t.savedScreen.Some? ==> Shaped(t.savedScreen.value, cols, rows))
    && (t.savedCursor.Some? ==> Within(t.savedCursor.value, cols, rows))
  }

  // ----- Construction and resizing -------------------------------------------

  function Clamp(n: nat, hi: nat): (r: nat)
    requires hi >= 1
    ensures 1 <= r <= hi
  {
    Max(1, Min(n, hi))
  }

  function New(cols: nat, rows: nat): (t: Term)
    ensures Valid(t)
  {
    var c, r := Clamp(cols, MAX_COLS), Clamp(rows, MAX_ROWS);
    Term(c, r, Repeat(r, BlankRow(c)), None, None, [], HOME, DEFAULT_MODES, 0, r, false)
  }

  /** `Vec::resize` on the cells of one row. */
  function FitRow(row: Row, cols: nat): (r: Row)
    ensures |r.cells| == cols
  {
    if cols <= |row.cells| then row.(cells := row.cells[..cols])
    else row.(cells := row.cells + Repeat(cols - |row.cells|, EMPTY))
  }

  function FitRows(s: seq<Row>, cols: nat): (r: seq<Row>)
    ensures |r| == |s|
    ensures forall i :: 0 <= i < |s| ==> r[i] == FitRow(s[i], cols)
  {
    seq(|s|, i requires 0 <= i < |s| => FitRow(s[i], cols))
  }

  /** Rows that no longer fit leave at the top, into the scrollback; new rows
      are added at the bottom. */
  function Resize(t: Term, cols: nat, rows: nat): Term
    requires Valid(t)
  {
    var c, r := Clamp(cols, MAX_COLS), Clamp(rows, MAX_ROWS);
    if c == t.cols && r == t.rows then t
    else
      var fitted := FitRows(t.screen, c);
      var removed := SaturatingSub(t.rows, r);
      t.(cols := c, rows := r,
         screen := fitted[removed..] + Repeat(SaturatingSub(r, t.rows), BlankRow(c)),
         scrollback := LastN(t.scrollback + fitted[..removed], DEFAULT_SCROLLBACK),
         regionTop := 0, regionBottom := r,
         cursor := t.cursor.(row := Min(t.cursor.row, r - 1), col := Min(t.cursor.col, c - 1)))
  }

  function BlankCells(row: Row): (r: Row)
    ensures |r.cells| == |row.cells|
  {
    Row(Repeat(|row.cells|, EMPTY), false)
  }

  function ClearAll(t: Term): (r: Term)
    requires Valid(t)
    ensures Valid(r) && SameSize(t, r)
  {
    t.(screen := Map(BlankCells, t.screen), scrollback := [], cursor := HOME)
  }

  // ----- Rows of the screen --------------------------------------------------

  /** Rows `top..bottom` move up by `n`, blank rows come in from below. */
  function ShiftUp(s: seq<Row>, top: nat, bottom: nat, n: nat, blank: Row): (r: seq<Row>)
    requires top <= bottom <= |s|
    ensures |r| == |s|
  {
    var k := Min(n, bottom - top);
    s[..top] + s[top + k..bottom] + Repeat(k, blank) + s[bottom..]
  }

  /** Rows `top..bottom` move down by `n`, blank rows come in from above. */
  function ShiftDown(s: seq<Row>, top: nat, bottom: nat, n: nat, blank: Row): (r: seq<Row>)
    requires top <= bottom <= |s|
    ensures |r| == |s|
  {
    var k := Min(n, bottom - top);
    s[..top] + Repeat(k, blank) + s[top..bottom - k] + s[bottom..]
  }

  /** The rows that `n` scrolls of a whole screen remove at the top, in order:
      after the screen itself, the blank rows that had come in. */
  function Removed(s: seq<Row>, n: nat, blank: Row): (r: seq<Row>)
    ensures |r| == n
  {
    (s + Repeat(n, blank))[..n]
  }

  predicate WholeScreen(t: Term) {
    t.regionTop == 0 && t.regionBottom == t.rows
  }

  function ScrollUp(t: Term, n: nat): (r: Term)
    requires Valid(t)
    ensures Valid(r) && SameSize(t, r)
  {
    var blank := BlankRow(t.cols);
    t.(screen := ShiftUp(t.screen, t.regionTop, t.regionBottom, n, blank),
       scrollback := if WholeScreen(t)
                     then LastN(t.scrollback + Removed(t.screen, n, blank), DEFAULT_SCROLLBACK)
                     else t.scrollback)
  }

  function ScrollDown(t: Term, n: nat): (r: Term)
    requires Valid(t)
    ensures Valid(r) && SameSize(t, r)
  {
    t.(screen := ShiftDown(t.screen, t.regionTop, t.regionBottom, n, BlankRow(t.cols)))
  }

  predicate InRegion(t: Term) {
    t.regionTop <= t.cursor.row < t.regionBottom
  }

  function InsertLines(t: Term, n: nat): (r: Term)
    requires Valid(t)
    ensures Valid(r) && SameSize(t, r)
  {
    if !InRegion(t) then t
    else t.(screen := ShiftDown(t.screen, t.cursor.row, t.regionBottom, n, BlankRow(t.cols)),
            cursor := t.cursor.(col := 0))
  }

  function DeleteLines(t: Term, n: nat): (r: Term)
    requires Valid(t)
    ensures Valid(r) && SameSize(t, r)
  {
    if !InRegion(t) then t
    else t.(screen := ShiftUp(t.screen, t.cursor.row, t.regionBottom, n, BlankRow(t.cols)),
            cursor := t.cursor.(col := 0))
  }

  // ----- Cells of the cursor's row -------------------------------------------

  function CursorCells(t: Term): seq<Cell>
    requires Valid(t)
  {
    t.screen[t.cursor.row].cells
  }

  /** The screen with the cells of the cursor's row replaced. */
  function WithCells(t: Term, cells: seq<Cell>): (r: Term)
    requires Valid(t) && |cells| >= t.cols
    ensures Valid(r) && SameSize(t, r)
  {
    var row := t.cursor.row;
    t.(screen := t.screen[row := t.screen[row].(cells := cells)])
  }

  /** `cells[from..to]` overwritten. */
  function Overwrite(cells: seq<Cell>, from: nat, to: nat, cell: Cell): (r: seq<Cell>)
    ensures |r| == |cells|
  {
    seq(|cells|, i requires 0 <= i < |cells| => if from <= i < to then cell else cells[i])
  }

  /** `n` times over, the cell at `at` removed, if there is one, and an empty
      one appended.  At the end of the row there is none the first time, so the
      row gets longer; from then on the appended cell is the one removed. */
  function DeleteCells(cells: seq<Cell>, at: nat, n: nat): (r: seq<Cell>)
    ensures |r| >= |cells|
  {
    if at < |cells| then cells[..at] + (cells[at..] + Repeat(n, EMPTY))[n..]
    else cells + Repeat(Min(n, at - |cells| + 1), EMPTY)
  }

  /** `n` empty cells opened at `at`; whatever passes the right margin is dropped. */
  function Gap(cells: seq<Cell>, at: nat, n: nat, cols: nat): (r: seq<Cell>)
    requires at <= |cells| && cols <= |cells|
    ensures |r| == cols
  {
    (cells[..at] + Repeat(n, EMPTY) + cells[at..])[..cols]
  }

  /** Cells inserted one at a time at the cursor, but never past the last cell
      of the row, which for the first one may lie beyond the right margin. */
  function InsertCells(cells: seq<Cell>, at: nat, n: nat, cols: nat): (r: seq<Cell>)
    requires 1 <= cols <= |cells|
    ensures |r| >= cols
  {
    if n == 0 then cells
    else Gap(Gap(cells, Min(at, |cells| - 1), 1, cols), Min(at, cols - 1), n - 1, cols)
  }

  function DeleteChars(t: Term, n: nat): (r: Term)
    requires Valid(t)
    ensures Valid(r) && SameSize(t, r)
  {
    WithCells(t, DeleteCells(CursorCells(t), t.cursor.col, n))
  }

  function InsertChars(t: Term, n: nat): (r: Term)
    requires Valid(t)
    ensures Valid(r) && SameSize(t, r)
  {
    WithCells(t, InsertCells(CursorCells(t), t.cursor.col, n, t.cols))
  }

  function EraseChars(t: Term, n: nat): (r: Term)
    requires Valid(t)
    ensures Valid(r) && SameSize(t, r)
  {
    EraseLinePart(t, t.cursor.col, t.cursor.col + n)
  }

  function EraseLinePart(t: Term, from: nat, to: nat): (r: Term)
    requires Valid(t)
    ensures Valid(r) && SameSize(t, r)
  {
    WithCells(t, Overwrite(CursorCells(t), from, Min(to, t.cols), NewCell(SPACE, t.cursor.attrs)))
  }

  function EraseLine(t: Term, mode: nat): (r: Term)
    requires Valid(t)
    ensures Valid(r) && SameSize(t, r)
  {
    if mode == 0 then EraseLinePart(t, t.cursor.col, t.cols)
    else if mode == 1 then EraseLinePart(t, 0, t.cursor.col + 1)
    else EraseLinePart(t, 0, t.cols)
  }

  /** Rows `from..to` blanked. */
  function ClearRows(t: Term, from: nat, to: nat): (r: Term)
    requires Valid(t)
    ensures Valid(r) && SameSize(t, r)
  {
    t.(screen := seq(|t.screen|, i requires 0 <= i < |t.screen| =>
                       if from <= i < to then BlankCells(t.screen[i]) else t.screen[i]))
  }

  function EraseDisplay(t: Term, mode: nat): (r: Term)
    requires Valid(t)
    ensures Valid(r) && SameSize(t, r)
  {
    if mode == 0 then ClearRows(EraseLinePart(t, t.cursor.col, t.cols), t.cursor.row + 1, t.rows)
    else if mode == 1 then EraseLinePart(ClearRows(t, 0, t.cursor.row), 0, t.cursor.col + 1)
    else ClearRows(t, 0, t.rows).(scrollback := [], cursor := HOME)
  }

  // ----- Printing and control codes ------------------------------------------

  function LineFeed(t: Term): (r: Term)
    requires Valid(t)
    ensures Valid(r) && SameSize(t, r)
  {
    var u := t.(wrapPending := false);
    if t.cursor.row + 1 == t.regionBottom then ScrollUp(u, 1)
    else if t.cursor.row + 1 < t.rows then u.(cursor := t.cursor.(row := t.cursor.row + 1))
    else u
  }

  function ReverseIndex(t: Term): (r: Term)
    requires Valid(t)
    ensures Valid(r) && SameSize(t, r)
  {
    if t.cursor.row == t.regionTop then ScrollDown(t, 1)
    else t.(cursor := t.cursor.(row := SaturatingSub(t.cursor.row, 1)))
  }

  function PrintChar(t: Term, ch: Scalar): (r: Term)
    requires Valid(t)
    ensures Valid(r) && SameSize(t, r)
  {
    var u := if t.wrapPending
             then var fed := LineFeed(t); fed.(cursor := fed.cursor.(col := 0), wrapPending := false)
             else t;
    PutChar(if u.modes.insert then MakeRoom(u, if IsWide(ch) then 2 else 1) else u, ch)
  }

  /** Insert mode: the rest of the line moves right by `width`. */
  function MakeRoom(t: Term, width: nat): (r: Term)
    requires Valid(t)
    ensures Valid(r) && SameSize(t, r)
  {
    WithCells(t, Gap(CursorCells(t), t.cursor.col, width, t.cols))
  }

  function PutChar(t: Term, ch: Scalar): (r: Term)
    requires Valid(t)
    ensures Valid(r) && SameSize(t, r)
  {
    var cell, col := NewCell(ch, t.cursor.attrs), t.cursor.col;
    if col >= t.cols then t
    else
      var cells := CursorCells(t)[col := cell];
      var u := WithCells(t, if cell.width == 2 && col + 1 < t.cols
                            then cells[col + 1 := Cell(SPACE, cell.attrs, 1)] else cells);
      var next := col + cell.width;
      if next < t.cols then u.(cursor := t.cursor.(col := next))
      else if t.modes.autoWrap then u.(cursor := t.cursor.(col := t.cols), wrapPending := true)
      else u.(cursor := t.cursor.(col := t.cols - 1))
  }

  function ExecuteCode(t: Term, code: byte): (r: Term)
    requires Valid(t)
    ensures Valid(r) && SameSize(t, r)
  {
    if code == 0x08 then t.(cursor := t.cursor.(col := SaturatingSub(t.cursor.col, 1)), wrapPending := false)
    else if code == 0x09 then t.(cursor := t.cursor.(col := Min((t.cursor.col / 8 + 1) * 8, t.cols - 1)))
    else if code == 0x0A || code == 0x0B || code == 0x0C then LineFeed(t)
    else if code == 0x0D then t.(cursor := t.cursor.(col := 0), wrapPending := false)
    else t
  }

  // ----- Control sequences ---------------------------------------------------

  /** A missing or zero parameter means the default. */
  function Param(params: seq<u16>, index: nat, default: u16): u16 {
    if index < |params| && params[index] != 0 then params[index] else default
  }

  function MoveUp(t: Term, n: nat): (r: Term)
    requires Valid(t)
    ensures Valid(r) && SameSize(t, r)
  {
    t.(cursor := t.cursor.(row := Max(SaturatingSub(t.cursor.row, n), t.regionTop)), wrapPending := false)
  }

  function MoveDown(t: Term, n: nat): (r: Term)
    requires Valid(t)
    ensures Valid(r) && SameSize(t, r)
  {
    t.(cursor := t.cursor.(row := Min(t.cursor.row + n, t.rows - 1)), wrapPending := false)
  }

  function MoveRight(t: Term, n: nat): (r: Term)
    requires Valid(t)
    ensures Valid(r) && SameSize(t, r)
  {
    t.(cursor := t.cursor.(col := Min(t.cursor.col + n, t.cols - 1)), wrapPending := false)
  }

  function MoveLeft(t: Term, n: nat): (r: Term)
    requires Valid(t)
    ensures Valid(r) && SameSize(t, r)
  {
    t.(cursor := t.cursor.(col := SaturatingSub(t.cursor.col, n)), wrapPending := false)
  }

  function ToColumn(t: Term, col: nat): (r: Term)
    requires Valid(t)
    ensures Valid(r) && SameSize(t, r)
  {
    t.(cursor := t.cursor.(col := Min(col, t.cols - 1)))
  }

  /** The row that an address names. */
  function ClampRow(t: Term, row: nat): nat
    requires t.rows > 0
  {
    Min(if t.modes.origin then row + t.regionTop else row, t.rows - 1)
  }

  function ToRow(t: Term, row: nat): (r: Term)
    requires Valid(t)
    ensures Valid(r) && SameSize(t, r)
  {
    t.(cursor := t.cursor.(row := ClampRow(t, row)))
  }

  function SetRegion(t: Term, top: nat, bottom: nat): (r: Term)
    requires Valid(t)
    ensures Valid(r) && SameSize(t, r)
  {
    if top < bottom <= t.rows then
      t.(regionTop := top, regionBottom := bottom,
         cursor := t.cursor.(row := if t.modes.origin then top else 0, col := 0))
    else t
  }

  function SaveCursor(t: Term): (r: Term)
    requires Valid(t)
    ensures Valid(r) && SameSize(t, r)
  {
    t.(savedCursor := Some(t.cursor))
  }

  function RestoreCursor(t: Term): (r: Term)
    requires Valid(t)
    ensures Valid(r) && SameSize(t, r)
  {
    if t.savedCursor.Some? then t.(cursor := t.savedCursor.value) else t
  }

  /** Leaving the alternate screen puts the saved screen back as it is, whatever the size has become. */
  function BackToMain(t: Term): Term
    requires t.savedScreen.Some?
  {
    t.(screen := t.savedScreen.value, savedScreen := None, modes := t.modes.(alternateScreen := false),
       cursor := if t.savedCursor.Some? then t.savedCursor.value else t.cursor)
  }

  function SwitchScreen(t: Term, alternate: bool): (r: Term)
    requires Valid(t)
    ensures Valid(r) && SameSize(t, r)
  {
    if alternate == t.modes.alternateScreen then t
    else if alternate then
      t.(savedScreen := Some(t.screen), screen := Repeat(t.rows, BlankRow(t.cols)),
         savedCursor := Some(t.cursor), cursor := HOME,
         modes := t.modes.(alternateScreen := true))
    else BackToMain(t)
  }

  function SetOrigin(t: Term, enable: bool): (r: Term)
    requires Valid(t)
    ensures Valid(r) && SameSize(t, r)
  {
    t.(modes := t.modes.(origin := enable),
       cursor := t.cursor.(row := if enable then t.regionTop else 0, col := 0))
  }

  function SetPrivateMode(t: Term, mode: nat, enable: bool): (r: Term)
    requires Valid(t)
    ensures Valid(r) && SameSize(t, r)
  {
    match mode
    case 6 => SetOrigin(t, enable)
    case 47 | 1047 | 1049 => SwitchScreen(t, enable)
    case 1048 => if enable then SaveCursor(t) else RestoreCursor(t)
    case _ => t.(modes := WithMode(t.modes, mode, enable))
  }

  /** The private modes that are plain switches. */
  function WithMode(modes: Modes, mode: nat, enable: bool): (r: Modes)
    ensures r.alternateScreen == modes.alternateScreen
  {
    match mode
    case 1 => modes.(applicationCursorKeys := enable)
    case 4 => modes.(insert := enable)
    case 7 => modes.(autoWrap := enable)
    case 25 => modes.(cursorVisible := enable)
    case 2004 => modes.(bracketedPaste := enable)
    case _ => modes
  }

  function SetAttrs(t: Term, params: seq<u16>): (r: Term)
    requires Valid(t)
    ensures Valid(r) && SameSize(t, r)
  {
    t.(cursor := t.cursor.(attrs := ApplySgr(params, t.cursor.attrs)))
  }

  function SetInsert(t: Term, mode: nat, enable: bool): (r: Term)
    requires Valid(t)
    ensures Valid(r) && SameSize(t, r)
  {
    if mode == 4 then t.(modes := t.modes.(insert := enable)) else t
  }

  /** The sequences that move the cursor and touch no text. */
  function Motion(t: Term, params: seq<u16>, final: byte): (r: Term)
    requires Valid(t)
    ensures Valid(r) && SameSize(t, r)
  {
    var first := Param(params, 0, 1);
    match final
    case 0x41 => MoveUp(t, first)                                               // A
    case 0x42 | 0x65 => MoveDown(t, first)                                      // B e
    case 0x43 | 0x61 => MoveRight(t, first)                                     // C a
    case 0x44 => MoveLeft(t, first)                                             // D
    case 0x45 => LineStart(MoveDown(t, first))                                  // E
    case 0x46 => LineStart(MoveUp(t, first))                                    // F
    case 0x47 | 0x60 => ToColumn(t, first - 1)                                  // G `
    case 0x48 | 0x66 => ToPosition(t, first - 1, Param(params, 1, 1) - 1)       // H f
    case 0x64 => ToRow(t, first - 1)                                            // d
    case _ => t
  }

  function LineStart(t: Term): (r: Term)
    requires Valid(t)
    ensures Valid(r) && SameSize(t, r)
  {
    t.(cursor := t.cursor.(col := 0))
  }

  function ToPosition(t: Term, row: nat, col: nat): (r: Term)
    requires Valid(t)
    ensures Valid(r) && SameSize(t, r)
  {
    ToColumn(ToRow(t, row), col).(wrapPending := false)
  }

  /** A control sequence by its final byte. */
  function CsiSequence(t: Term, params: seq<u16>, intermediates: seq<byte>, final: byte): (r: Term)
    requires Valid(t)
    ensures Valid(r) && SameSize(t, r)
  {
    var first := Param(params, 0, 1);
    if 0x3F in intermediates then SetPrivateMode(t, Param(params, 0, 0), final == 0x68)
    else
      match final
      case 0x4A => EraseDisplay(t, Param(params, 0, 0))                         // J
      case 0x4B => EraseLine(t, Param(params, 0, 0))                            // K
      case 0x4C => InsertLines(t, first)                                        // L
      case 0x4D => DeleteLines(t, first)                                        // M
      case 0x50 => DeleteChars(t, first)                                        // P
      case 0x40 => InsertChars(t, first)                                        // @
      case 0x58 => EraseChars(t, first)                                         // X
      case 0x53 => ScrollUp(t, first)                                           // S
      case 0x54 => ScrollDown(t, first)                                         // T
      case 0x72 => SetRegion(t, first - 1, Param(params, 1, t.rows))            // r
      case 0x73 => SaveCursor(t)                                                // s
      case 0x75 => RestoreCursor(t)                                             // u
      case 0x6D => SetAttrs(t, params)                                          // m
      case 0x68 => SetInsert(t, Param(params, 0, 0), true)                      // h
      case 0x6C => SetInsert(t, Param(params, 0, 0), false)                     // l
      case _ => Motion(t, params, final)
  }

  lemma PrivateSequence(t: Term, params: seq<u16>, intermediates: seq<byte>, final: byte)
    requires Valid(t) && 0x3F in intermediates
    ensures CsiSequence(t, params, intermediates, final) == SetPrivateMode(t, Param(params, 0, 0), final == 0x68)
  {
    hide SetPrivateMode, Valid;
  }

  /** `ESC c`, the full reset, which also replaces the parser. */
  predicate IsReset(a: Action) {
    a.Esc? && !a.ignore && a.final == 0x63
  }

  function EscSequence(t: Term, final: byte): (r: Term)
    requires Valid(t)
    ensures Valid(r) && SameSize(t, r)
  {
    match final
    case 0x37 => SaveCursor(t)                                                  // 7
    case 0x38 => RestoreCursor(t)                                               // 8
    case 0x44 => LineFeed(t)                                                    // D
    case 0x4D => ReverseIndex(t)                                                // M
    case 0x45 => LineFeed(LineStart(t))                                         // E
    case 0x63 => New(t.cols, t.rows)                                            // c
    case 0x3D => t.(modes := t.modes.(applicationKeypad := true))               // =
    case 0x3E => t.(modes := t.modes.(applicationKeypad := false))              // >
    case _ => t
  }

  /** Every action keeps the screen valid: no index is ever out of range. */
  function Apply(t: Term, a: Action): (r: Term)
    requires Valid(t)
    ensures Valid(r) && SameSize(t, r)
  {
    match a
    case Print(ch) => PrintChar(t, ch)
    case Execute(code) => ExecuteCode(t, code)
    case Csi(params, intermediates, ignore, final) =>
      if ignore then t else CsiSequence(t, params, intermediates, final)
    case Esc(_, ignore, final) => if ignore then t else EscSequence(t, final)
    case Osc(_, _) => t
    case DcsStart(_, _, _) => t
    case DcsData(_) => t
    case DcsEnd => t
  }

  function ApplyAll(t: Term, actions: seq<Action>): (r: Term)
    requires Valid(t)
    ensures Valid(r) && SameSize(t, r)
    decreases |actions|
  {
    if actions == [] then t else ApplyAll(Apply(t, actions[0]), actions[1..])
  }

  lemma {:induction false} ApplyConcat(t: Term, a: seq<Action>, b: seq<Action>)
    requires Valid(t)
    ensures ApplyAll(t, a + b) == ApplyAll(ApplyAll(t, a), b)
    decreases |a|
  {
    hide Apply;
    if a == [] {
      assert a + b == b;
    } else {
      assert (a + b)[1..] == a[1..] + b;
      ApplyConcat(Apply(t, a[0]), a[1..], b);
    }
  }
}
