/** Where the cursor goes: every motion sequence read off the screen, and off the bytes. */
module MotionTheorems {
  import opened Basics
  import opened Grid
  import opened Screen
  import opened VtParser
  import opened ParserTheorems
  import opened CsiTheorems
  import opened Emulator

  /** A parameter as the sequences count it: absent or zero is one. */
  function Count(params: seq<u16>, i: nat): (n: nat)
    ensures 1 <= n <= U16_MAX
  {
    if i < |params| && params[i] > 0 then params[i] else 1
  }

  /** Nothing is changed but where the cursor stands, and whether a wrap is pending. */
  predicate Moved(t: Term, u: Term, row: nat, col: nat, pending: bool) {
    u == t.(cursor := t.cursor.(row := row, col := col), wrapPending := pending)
  }

  predicate Public(ints: seq<byte>) {
    0x3F !in ints
  }

  lemma ParamIsCount(params: seq<u16>, i: nat)
    ensures Param(params, i, 1) == Count(params, i)
  {
  }

  /** `CSI n A`: up by n, not above the top of the region. */
  lemma CursorUp(t: Term, params: seq<u16>, ints: seq<byte>)
    requires Valid(t) && Public(ints)
    ensures Moved(t, Apply(t, Csi(params, ints, false, 0x41)),
                  Max(t.cursor.row - Count(params, 0), t.regionTop), t.cursor.col, false)
  {
    hide Shaped, SavedFits;
    ParamIsCount(params, 0);
  }

  /** `CSI n B` and `CSI n e`: down by n, not below the screen. */
  lemma CursorDown(t: Term, params: seq<u16>, ints: seq<byte>, final: byte)
    requires Valid(t) && Public(ints) && (final == 0x42 || final == 0x65)
    ensures Moved(t, Apply(t, Csi(params, ints, false, final)),
                  Min(t.cursor.row + Count(params, 0), t.rows - 1), t.cursor.col, false)
  {
    hide Shaped, SavedFits;
    ParamIsCount(params, 0);
  }

  /** `CSI n C` and `CSI n a`: right by n, not past the last column. */
  lemma CursorRight(t: Term, params: seq<u16>, ints: seq<byte>, final: byte)
    requires Valid(t) && Public(ints) && (final == 0x43 || final == 0x61)
    ensures Moved(t, Apply(t, Csi(params, ints, false, final)),
                  t.cursor.row, Min(t.cursor.col + Count(params, 0), t.cols - 1), false)
  {
    hide Shaped, SavedFits;
    ParamIsCount(params, 0);
  }

  /** `CSI n D`: left by n, not before the first column. */
  lemma CursorLeft(t: Term, params: seq<u16>, ints: seq<byte>)
    requires Valid(t) && Public(ints)
    ensures Moved(t, Apply(t, Csi(params, ints, false, 0x44)),
                  t.cursor.row, Max(t.cursor.col - Count(params, 0), 0), false)
  {
    hide Shaped, SavedFits;
    ParamIsCount(params, 0);
  }

  /** `CSI n E`: as B, to the first column. */
  lemma LinesDown(t: Term, params: seq<u16>, ints: seq<byte>)
    requires Valid(t) && Public(ints)
    ensures Moved(t, Apply(t, Csi(params, ints, false, 0x45)), Min(t.cursor.row + Count(params, 0), t.rows - 1), 0, false)
  {
    hide Shaped, SavedFits;
    ParamIsCount(params, 0);
  }

  /** `CSI n F`: as A, to the first column. */
  lemma LinesUp(t: Term, params: seq<u16>, ints: seq<byte>)
    requires Valid(t) && Public(ints)
    ensures Moved(t, Apply(t, Csi(params, ints, false, 0x46)), Max(t.cursor.row - Count(params, 0), t.regionTop), 0, false)
  {
    hide Shaped, SavedFits;
    ParamIsCount(params, 0);
  }

  /** ``CSI n ` `` and `CSI n G`: to column n, counted from one; a pending wrap stays. */
  lemma ColumnAddress(t: Term, params: seq<u16>, ints: seq<byte>, final: byte)
    requires Valid(t) && Public(ints) && (final == 0x47 || final == 0x60)
    ensures Moved(t, Apply(t, Csi(params, ints, false, final)),
                  t.cursor.row, Min(Count(params, 0) - 1, t.cols - 1), t.wrapPending)
  {
    hide Shaped, SavedFits;
    ParamIsCount(params, 0);
  }

  /** A row address, counted from one, from the top of the screen or, in origin mode, of the region. */
  function Addressed(t: Term, n: nat): nat
    requires n > 0 && t.rows > 0
  {
    Min(n - 1 + (if t.modes.origin then t.regionTop else 0), t.rows - 1)
  }

  /** `CSI n d`: to row n; a pending wrap stays. */
  lemma RowAddress(t: Term, params: seq<u16>, ints: seq<byte>)
    requires Valid(t) && Public(ints)
    ensures Moved(t, Apply(t, Csi(params, ints, false, 0x64)), Addressed(t, Count(params, 0)), t.cursor.col, t.wrapPending)
  {
    hide Shaped, SavedFits;
    ParamIsCount(params, 0);
  }

  /** `CSI row ; column H` and `f`. */
  lemma CellAddress(t: Term, params: seq<u16>, ints: seq<byte>, final: byte)
    requires Valid(t) && Public(ints) && (final == 0x48 || final == 0x66)
    ensures Moved(t, Apply(t, Csi(params, ints, false, final)),
                  Addressed(t, Count(params, 0)), Min(Count(params, 1) - 1, t.cols - 1), false)
  {
    hide Shaped, SavedFits;
    ParamIsCount(params, 0);
    ParamIsCount(params, 1);
  }

  // ----- From the bytes ------------------------------------------------------

  /** A printed control sequence, fed to a terminal whose parser is in Ground, is applied as it was printed. */
  lemma SequenceFed(s: Machine, marker: Option<byte>, ps: seq<Digits>, ints: seq<byte>, final: byte)
    requires s.parser.Valid() && s.parser.state == Ground && Valid(s.term)
    requires (marker.Some? ==> 0x3C <= marker.value <= 0x3F) && ps != [] && Intermediates(ints) && 0x40 <= final <= 0x7E
    ensures var m := if marker.Some? then [marker.value] else [];
            Feed(s, [ESC, 0x5B] + m + Body(ps, ints, final)).term
            == Apply(s.term, Csi(ParamValues(ps), m + ints, false, final))
  {
    hide Run, Apply, Valid, Body;
    CsiRoundTrip(s.parser, marker, ps, ints, final);
    var m := if marker.Some? then [marker.value] else [];
    ApplySingle(s.term, Csi(ParamValues(ps), m + ints, false, final));
  }

  lemma ApplySingle(t: Term, a: Action)
    requires Valid(t)
    ensures ApplyAll(t, [a]) == Apply(t, a)
  {
    hide Apply, Valid;
    assert [a][1..] == [];
    assert ApplyAll(Apply(t, a), []) == Apply(t, a);
  }

  /** `ESC [`, a numeral and a final byte, as one sequence with one parameter. */
  function Sequence(digits: Digits, final: byte): seq<byte> {
    [ESC, 0x5B] + digits + [final]
  }

  lemma OneParameterFed(s: Machine, digits: Digits, final: byte)
    requires s.parser.Valid() && s.parser.state == Ground && Valid(s.term) && 0x40 <= final <= 0x7E
    ensures Feed(s, Sequence(digits, final)).term == Apply(s.term, Csi([ParamValue(digits)], [], false, final))
  {
    hide Feed, Apply, Valid, ParamValue;
    var ps: seq<Digits> := [digits];
    var none: seq<byte> := [];
    assert none + none == none;
    SequenceFed(s, None, ps, none, final);
    assert ParamBytes(ps) == digits && digits + [] == digits;
    assert [ESC, 0x5B] + [] + Body(ps, [], final) == Sequence(digits, final);
    assert ParamValues(ps) == [ParamValue(digits)] by {
      assert ps[1..] == [] && ParamValues([]) == [];
    }
  }

  /** The number a numeral stands for as a count: at most 65535, and one instead of zero. */
  function Steps(digits: Digits): nat {
    Max(Min(ValueFrom(0, digits), 0xFFFF), 1)
  }

  lemma StepsIsCount(digits: Digits)
    ensures Count([ParamValue(digits)], 0) == Steps(digits)
  {
    ValueGrows(0, digits);
  }

  /** The bytes `ESC [ n A`, for a numeral of any length. */
  lemma UpFed(s: Machine, digits: Digits)
    requires s.parser.Valid() && s.parser.state == Ground && Valid(s.term)
    ensures var t, n := s.term, Steps(digits);
            Moved(t, Feed(s, Sequence(digits, 0x41)).term, Max(t.cursor.row - n, t.regionTop), t.cursor.col, false)
  {
    hide Feed, Apply, ParamValue, Sequence, Count, Moved, Shaped, SavedFits;
    OneParameterFed(s, digits, 0x41);
    StepsIsCount(digits);
    CursorUp(s.term, [ParamValue(digits)], []);
  }

  /** `ESC [ n B` */
  lemma DownFed(s: Machine, digits: Digits)
    requires s.parser.Valid() && s.parser.state == Ground && Valid(s.term)
    ensures var t, n := s.term, Steps(digits);
            Moved(t, Feed(s, Sequence(digits, 0x42)).term, Min(t.cursor.row + n, t.rows - 1), t.cursor.col, false)
  {
    hide Feed, Apply, ParamValue, Sequence, Count, Moved, Shaped, SavedFits;
    OneParameterFed(s, digits, 0x42);
    StepsIsCount(digits);
    CursorDown(s.term, [ParamValue(digits)], [], 0x42);
  }

  /** `ESC [ n C` */
  lemma RightFed(s: Machine, digits: Digits)
    requires s.parser.Valid() && s.parser.state == Ground && Valid(s.term)
    ensures var t, n := s.term, Steps(digits);
            Moved(t, Feed(s, Sequence(digits, 0x43)).term, t.cursor.row, Min(t.cursor.col + n, t.cols - 1), false)
  {
    hide Feed, Apply, ParamValue, Sequence, Count, Moved, Shaped, SavedFits;
    OneParameterFed(s, digits, 0x43);
    StepsIsCount(digits);
    CursorRight(s.term, [ParamValue(digits)], [], 0x43);
  }

  /** `ESC [ n D` */
  lemma LeftFed(s: Machine, digits: Digits)
    requires s.parser.Valid() && s.parser.state == Ground && Valid(s.term)
    ensures var t, n := s.term, Steps(digits);
            Moved(t, Feed(s, Sequence(digits, 0x44)).term, t.cursor.row, Max(t.cursor.col - n, 0), false)
  {
    hide Feed, Apply, ParamValue, Sequence, Count, Moved, Shaped, SavedFits;
    OneParameterFed(s, digits, 0x44);
    StepsIsCount(digits);
    CursorLeft(s.term, [ParamValue(digits)], []);
  }

  /** `ESC [ n E` */
  lemma LinesDownFed(s: Machine, digits: Digits)
    requires s.parser.Valid() && s.parser.state == Ground && Valid(s.term)
    ensures var t, n := s.term, Steps(digits);
            Moved(t, Feed(s, Sequence(digits, 0x45)).term, Min(t.cursor.row + n, t.rows - 1), 0, false)
  {
    hide Feed, Apply, ParamValue, Sequence, Count, Moved, Shaped, SavedFits;
    OneParameterFed(s, digits, 0x45);
    StepsIsCount(digits);
    LinesDown(s.term, [ParamValue(digits)], []);
  }

  /** `ESC [ n F` */
  lemma LinesUpFed(s: Machine, digits: Digits)
    requires s.parser.Valid() && s.parser.state == Ground && Valid(s.term)
    ensures var t, n := s.term, Steps(digits);
            Moved(t, Feed(s, Sequence(digits, 0x46)).term, Max(t.cursor.row - n, t.regionTop), 0, false)
  {
    hide Feed, Apply, ParamValue, Sequence, Count, Moved, Shaped, SavedFits;
    OneParameterFed(s, digits, 0x46);
    StepsIsCount(digits);
    LinesUp(s.term, [ParamValue(digits)], []);
  }

  /** `ESC [ n G` */
  lemma ColumnFed(s: Machine, digits: Digits)
    requires s.parser.Valid() && s.parser.state == Ground && Valid(s.term)
    ensures var t, n := s.term, Steps(digits);
            Moved(t, Feed(s, Sequence(digits, 0x47)).term, t.cursor.row, Min(n - 1, t.cols - 1), t.wrapPending)
  {
    hide Feed, Apply, ParamValue, Sequence, Count, Moved, Shaped, SavedFits;
    OneParameterFed(s, digits, 0x47);
    StepsIsCount(digits);
    ColumnAddress(s.term, [ParamValue(digits)], [], 0x47);
  }

  /** `ESC [ n d` */
  lemma RowFed(s: Machine, digits: Digits)
    requires s.parser.Valid() && s.parser.state == Ground && Valid(s.term)
    ensures var t, n := s.term, Steps(digits);
            Moved(t, Feed(s, Sequence(digits, 0x64)).term, Addressed(t, n), t.cursor.col, t.wrapPending)
  {
    hide Feed, Apply, ParamValue, Sequence, Count, Moved, Shaped, SavedFits;
    OneParameterFed(s, digits, 0x64);
    StepsIsCount(digits);
    RowAddress(s.term, [ParamValue(digits)], []);
  }

  /** `ESC [ r ; c H` */
  lemma CellFed(s: Machine, row: Digits, col: Digits)
    requires s.parser.Valid() && s.parser.state == Ground && Valid(s.term)
    ensures var t := s.term;
            Moved(t, Feed(s, [ESC, 0x5B] + row + [0x3B] + col + [0x48]).term,
                  Addressed(t, Steps(row)), Min(Steps(col) - 1, t.cols - 1), false)
  {
    hide Feed, Apply, ParamValue, Count, Moved, Shaped, SavedFits;
    var ps: seq<Digits> := [row, col];
    CellFields(row, col);
    var none: seq<byte> := [];
    assert none + none == none;
    SequenceFed(s, None, ps, none, 0x48);
    StepsIsCount(row);
    StepsIsCount(col);
    CountIsOf([ParamValue(row), ParamValue(col)]);
    CellAddress(s.term, [ParamValue(row), ParamValue(col)], [], 0x48);
  }

  lemma CellFields(row: Digits, col: Digits)
    ensures var ps: seq<Digits> := [row, col];
            && ParamValues(ps) == [ParamValue(row), ParamValue(col)]
            && [ESC, 0x5B] + [] + Body(ps, [], 0x48) == [ESC, 0x5B] + row + [0x3B] + col + [0x48]
  {
    hide ParamValue;
    var ps: seq<Digits> := [row, col];
    var last: seq<Digits> := [col];
    assert ps[1..] == last && last[1..] == [];
    assert ParamBytes(last) == col && ParamValues([]) == [];
    assert ParamValues(last) == [ParamValue(col)];
    assert ParamBytes(ps) == row + [0x3B] + col;
  }

  lemma CountIsOf(params: seq<u16>)
    requires |params| == 2
    ensures Count(params, 0) == Count([params[0]], 0) && Count(params, 1) == Count([params[1]], 0)
  {
  }
}
