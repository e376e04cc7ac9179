/** Safety over whole runs, and what chunking may and may not change. */
module TerminalTheorems {
  import opened Basics
  import opened Grid
  import opened Screen
  import opened VtParser
  import opened ParserTheorems
  import opened Emulator

  // ----- Safety --------------------------------------------------------------

  datatype Call = Advance(data: seq<byte>) | ClearScreen | ResetParser | Snapshot | ResizeTo(cols: nat, rows: nat)

  function Do(s: Machine, call: Call): Machine
    requires s.parser.Valid() && Valid(s.term)
  {
    match call
    case Advance(data) => Feed(s, data)
    case ClearScreen => s.(term := ClearAll(s.term))
    case ResetParser => Machine(Fresh, s.term.(wrapPending := false))
    case Snapshot => s
    case ResizeTo(cols, rows) => s.(term := Resize(s.term, cols, rows))
  }

  /** A resize that cannot strand a saved screen or a saved cursor. */
  predicate ResizeIsSafe(t: Term, cols: nat, rows: nat) {
    var c, r := Clamp(cols, MAX_COLS), Clamp(rows, MAX_ROWS);
    || (c == t.cols && r == t.rows)
    || (&& (t.savedScreen.Some? ==> |t.savedScreen.value| == r
                                    && forall i :: 0 <= i < r ==> |t.savedScreen.value[i].cells| >= c)
        && (t.savedCursor.Some? ==> t.savedCursor.value.row < r && t.savedCursor.value.col <= c))
  }

  /** Resizing keeps the screen sound exactly when the saved screen and the
      saved cursor, which it does not touch, fit the new size. */
  lemma ResizeKeepsSoundness(t: Term, cols: nat, rows: nat)
    requires Valid(t)
    ensures Valid(Resize(t, cols, rows)) <==> ResizeIsSafe(t, cols, rows)
  {
    var c, r := Clamp(cols, MAX_COLS), Clamp(rows, MAX_ROWS);
    var u := Resize(t, cols, rows);
    assert Shaped(u.screen, u.cols, u.rows);
    assert u.savedScreen == t.savedScreen && u.savedCursor == t.savedCursor;
    assert c != t.cols || r != t.rows ==> (Valid(u) <==> SavedFits(t, c, r));
  }

  /** In particular, with no saved screen only the saved cursor counts. */
  lemma ResizeWithoutAlternateScreen(t: Term, cols: nat, rows: nat)
    requires Valid(t) && !t.modes.alternateScreen
    requires t.savedCursor.Some? ==> t.savedCursor.value.row < Clamp(rows, MAX_ROWS)
                                     && t.savedCursor.value.col <= Clamp(cols, MAX_COLS)
    ensures Valid(Resize(t, cols, rows))
  {
    ResizeKeepsSoundness(t, cols, rows);
  }

  /** Leaving the alternate screen after a resize: every row that an address can name is a row of the screen
      put back exactly when the resize has added no rows. */
  lemma RestoredRowsIff(t: Term, cols: nat, rows: nat)
    requires Valid(t) && t.modes.alternateScreen
    ensures var back := BackToMain(Resize(t, cols, rows));
            back.rows > 0 && ((forall row: nat :: ClampRow(back, row) < |back.screen|) <==> back.rows <= t.rows)
  {
    var back := BackToMain(Resize(t, cols, rows));
    assert |back.screen| == t.rows;
    assert ClampRow(back, back.rows) == back.rows - 1;
  }

  /** It does happen: a full-screen program is started, the window grows by one row, the program ends, and
      `CSI 2 d` then names a row that the screen does not have. */
  lemma ResizeUnderAlternateScreen()
    ensures var back := BackToMain(Resize(SwitchScreen(New(1, 1), true), 1, 2));
            back.rows == 2 && ClampRow(back, 1) == |back.screen|
  {
  }

  /** Runs the calls, or stops at a state that is no longer sound. */
  ghost function DoAll(s: Machine, calls: seq<Call>): Option<Machine>
    requires s.parser.Valid() && Valid(s.term)
    decreases |calls|
  {
    if calls == [] then Some(s)
    else
      var next := Do(s, calls[0]);
      if Valid(next.term) then DoAll(next, calls[1..]) else None
  }

  /** Every resize in the run is safe when its turn comes. */
  ghost predicate ResizesAreSafe(s: Machine, calls: seq<Call>)
    requires s.parser.Valid() && Valid(s.term)
    decreases |calls|
  {
    calls == [] ||
    (var next := Do(s, calls[0]);
     && (calls[0].ResizeTo? ==> ResizeIsSafe(s.term, calls[0].cols, calls[0].rows))
     && (Valid(next.term) ==> ResizesAreSafe(next, calls[1..])))
  }

  /** Over every run of the public calls, on every input, the screen stays
      sound throughout exactly when each resize is safe: no byte stream alone
      can bring the cursor, the region or a row out of bounds. */
  lemma {:induction false} RunsStaySound(s: Machine, calls: seq<Call>)
    requires s.parser.Valid() && Valid(s.term)
    ensures DoAll(s, calls).Some? <==> ResizesAreSafe(s, calls)
    decreases |calls|
  {
    hide Feed, Resize, ClearAll, ResizeIsSafe, Valid;
    if calls != [] {
      var call := calls[0];
      if call.ResizeTo? {
        ResizeKeepsSoundness(s.term, call.cols, call.rows);
      } else {
        OtherCallsStaySound(s, call);
      }
      if Valid(Do(s, call).term) {
        RunsStaySound(Do(s, call), calls[1..]);
      }
    }
  }

  lemma OtherCallsStaySound(s: Machine, call: Call)
    requires s.parser.Valid() && Valid(s.term) && !call.ResizeTo?
    ensures Valid(Do(s, call).term)
  {
  }

  // ----- Chunking ------------------------------------------------------------

  /** Without a full reset in it, a stream may be cut anywhere: the terminal
      reaches the same state, parser included. */
  lemma ChunkingIsInvisible(s: Machine, a: seq<byte>, b: seq<byte>)
    requires s.parser.Valid() && Valid(s.term)
    requires !HasReset(Run(s.parser, a + b).out)
    ensures Feed(s, a + b) == Feed(Feed(s, a), b)
  {
    hide Run, ApplyAll, HasReset;
    var first := Run(s.parser, a);
    var second := Run(first.next, b);
    RunConcat(s.parser, a, b);
    HasResetConcat(first.out, second.out);
    ApplyConcat(s.term, first.out, second.out);
  }

  function FeedChunks(s: Machine, chunks: seq<seq<byte>>): (r: Machine)
    requires s.parser.Valid() && Valid(s.term)
    ensures r.parser.Valid() && Valid(r.term)
    decreases |chunks|
  {
    if chunks == [] then s else FeedChunks(Feed(s, chunks[0]), chunks[1..])
  }

  /** The same for any number of cuts. */
  lemma {:induction false} ChunksAreInvisible(s: Machine, chunks: seq<seq<byte>>)
    requires s.parser.Valid() && Valid(s.term)
    requires !HasReset(Run(s.parser, Flatten(chunks)).out)
    ensures FeedChunks(s, chunks) == Feed(s, Flatten(chunks))
    decreases |chunks|
  {
    hide Run, HasReset, ApplyAll, Valid;
    if chunks == [] {
      RunNothing(s.parser);
      NothingApplied(s.term);
    } else {
      var a, b := chunks[0], Flatten(chunks[1..]);
      var first := Run(s.parser, a);
      RunConcat(s.parser, a, b);
      HasResetConcat(first.out, Run(first.next, b).out);
      ChunkingIsInvisible(s, a, b);
      ChunksAreInvisible(Feed(s, a), chunks[1..]);
    }
  }

  lemma NothingApplied(t: Term)
    requires Valid(t)
    ensures ApplyAll(t, []) == t && !HasReset([])
  {
  }

  /** The actions that reach the screen are the same for every continuation
      after a cut exactly when the chunk before it held no full reset or ended
      between two sequences and characters.  A full reset replaces the parser,
      but only after its whole chunk has been parsed. */
  lemma CutIsInvisibleIff(s: Machine, a: seq<byte>)
    requires s.parser.Valid() && Valid(s.term)
    ensures (forall b :: Run(s.parser, a + b).out == Run(s.parser, a).out + Run(Feed(s, a).parser, b).out)
            <==> !HasReset(Run(s.parser, a).out) || Clean(Run(s.parser, a).next)
  {
    hide Run, HasReset, ApplyAll;
    var first := Run(s.parser, a);
    forall b ensures Run(s.parser, a + b).out == first.out + Run(first.next, b).out {
      RunConcat(s.parser, a, b);
    }
    if HasReset(first.out) {
      assert Feed(s, a).parser == Fresh;
      CleanIffLikeNew(first.next);
      if !Clean(first.next) {
        var b :| Run(first.next, b).out != Run(Fresh, b).out;
        SamePrefix(first.out, Run(first.next, b).out, Run(Fresh, b).out);
        assert Run(s.parser, a + b).out != first.out + Run(Feed(s, a).parser, b).out;
      }
    }
  }

  lemma SamePrefix<T>(p: seq<T>, x: seq<T>, y: seq<T>)
    ensures p + x == p + y ==> x == y
  {
    assert (p + x)[|p|..] == x && (p + y)[|p|..] == y;
  }

  /** So the screen is the same, reset or not, when the cut is clean. */
  lemma CleanCutsAreInvisible(s: Machine, a: seq<byte>, b: seq<byte>)
    requires s.parser.Valid() && Valid(s.term)
    requires !HasReset(Run(s.parser, a).out) || Clean(Run(s.parser, a).next)
    ensures Feed(s, a + b).term == Feed(Feed(s, a), b).term
  {
    hide Run, HasReset, ApplyAll, Valid;
    CutIsInvisibleIff(s, a);
    ApplyConcat(s.term, Run(s.parser, a).out, Run(Feed(s, a).parser, b).out);
  }

  /** A cut inside a sequence that follows a reset does show: `ESC c ESC [ A`
      moves the cursor when it comes in one chunk, and prints the A when the
      chunk ends after the bracket. */
  lemma CutAfterResetShows()
    ensures var a: seq<byte>, b: seq<byte> := [ESC, 0x63, ESC, 0x5B], [0x41];
            var s := Machine(Fresh, New(1, 1));
            && Feed(s, a + b).term.screen[0].cells[0].ch == SPACE
            && Feed(Feed(s, a), b).term.screen[0].cells[0].ch == 0x41
  {
    hide Run, Step, ApplyAll, Valid;
    var s := Machine(Fresh, New(1, 1));
    var a: seq<byte>, b: seq<byte> := [ESC, 0x63, ESC, 0x5B], [0x41];
    var reset := Esc([], false, 0x63);
    var entry := ParseResetThenIntroducer();
    FinalA(entry);
    RunConcat(Fresh, a, b);
    assert IsReset([reset][0]);
    HasResetConcat([reset], []);
    HasResetConcat([reset], [Csi([0], [], false, 0x41)]);
    ApplyTwo(s.term, reset, Csi([0], [], false, 0x41));
    ApplyOne(s.term, reset);
    ApplyOne(New(1, 1), Print(0x41));
    RunOne(Fresh, 0x41);
    StepInGround(Fresh, 0x41);
    assert Run(Fresh, b).out == [Print(0x41)];
  }

  lemma ApplyOne(t: Term, a: Action)
    requires Valid(t)
    ensures ApplyAll(t, [a]) == Apply(t, a)
  {
    hide Apply;
    assert [a][1..] == [];
    assert ApplyAll(Apply(t, a), []) == Apply(t, a);
  }

  lemma ApplyTwo(t: Term, a: Action, b: Action)
    requires Valid(t)
    ensures ApplyAll(t, [a] + [b]) == Apply(Apply(t, a), b)
  {
    hide Apply, ApplyAll;
    ApplyConcat(t, [a], [b]);
    ApplyOne(t, a);
    ApplyOne(Apply(t, a), b);
  }

  lemma FinalA(entry: ParserState)
    requires entry.Valid() && entry.state == CsiEntry && entry.params == [] && entry.currentParam == None
    requires entry.intermediates == [] && !entry.ignore
    ensures Run(entry, [0x41]).out == [Csi([0], [], false, 0x41)]
  {
    hide Run, Step;
    RunOne(entry, 0x41);
    StepInCsiEntry(entry, 0x41);
    assert PushParam(entry).params == [] + [0] == [0];
  }

  lemma ParseResetThenIntroducer() returns (entry: ParserState)
    ensures entry.Valid() && entry.state == CsiEntry && entry.params == [] && entry.currentParam == None
    ensures entry.intermediates == [] && !entry.ignore
    ensures Run(Fresh, [ESC, 0x63, ESC, 0x5B]) == Emit(entry, [Esc([], false, 0x63)])
  {
    hide Run, Step;
    var escape := Clear(Fresh).(state := Escape);
    var after := escape.(state := Ground);
    entry := escape.(state := CsiEntry);
    var tail: seq<byte> := [ESC, 0x5B];
    StepOnEscape(Fresh);
    StepInEscape(escape, 0x63);
    StepOnEscape(after);
    StepInEscape(escape, 0x5B);
    RunQuiet(after, tail, escape);
    assert tail[1..] == [0x5B] && [0x5B][1..] == [];
    RunQuiet(escape, [0x5B], entry);
    RunNothing(entry);
    var whole: seq<byte> := [ESC, 0x63, ESC, 0x5B];
    RunQuiet(Fresh, whole, escape);
    assert whole[1..] == [0x63] + tail;
    RunConcat(escape, [0x63], tail);
    RunOne(escape, 0x63);
  }
}
