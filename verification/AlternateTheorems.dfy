/** What a full-screen program leaves behind when it leaves the alternate screen. */
module AlternateTheorems {
  import opened Basics
  import opened Grid
  import opened Screen
  import opened VtParser

  /** A private mode sequence that is not ignored. */
  predicate SetsPrivate(a: Action) {
    a.Csi? && !a.ignore && 0x3F in a.intermediates
  }

  /** The full reset, or a private mode that goes back to the main screen. */
  predicate Leaves(a: Action) {
    IsReset(a) || (SetsPrivate(a) && Param(a.params, 0, 0) in {47, 1047, 1049} && a.final != 0x68)
  }

  /** DECSC, SCOSC or private mode 1048. */
  predicate SavesCursor(a: Action) {
    || (a.Esc? && a.final == 0x37)
    || (a.Csi? && 0x3F !in a.intermediates && a.final == 0x73)
    || (SetsPrivate(a) && Param(a.params, 0, 0) == 1048 && a.final == 0x68)
  }

  predicate SameSaved(t: Term, u: Term) {
    u.savedScreen == t.savedScreen && u.savedCursor == t.savedCursor && u.modes.alternateScreen == t.modes.alternateScreen
  }

  lemma PutKeeps(t: Term, ch: Scalar)
    requires Valid(t)
    ensures SameSaved(t, PutChar(t, ch)) && SameSaved(t, MakeRoom(t, 1)) && SameSaved(t, MakeRoom(t, 2))
  {
    hide Gap, Shaped, SavedFits;
  }

  lemma FeedsKeep(t: Term)
    requires Valid(t)
    ensures SameSaved(t, LineFeed(t)) && SameSaved(t, ReverseIndex(t)) && SameSaved(t, LineFeed(LineStart(t)))
  {
    hide ShiftUp, ShiftDown, Removed, LastN, BlankRow, Shaped, SavedFits;
  }

  lemma PrintKeeps(t: Term, ch: Scalar)
    requires Valid(t)
    ensures SameSaved(t, PrintChar(t, ch))
  {
    hide PutChar, MakeRoom, LineFeed, ReverseIndex;
    FeedsKeep(t);
    var u := if t.wrapPending
             then var fed := LineFeed(t); fed.(cursor := fed.cursor.(col := 0), wrapPending := false)
             else t;
    PutKeeps(u, ch);
    PutKeeps(MakeRoom(u, 1), ch);
    PutKeeps(MakeRoom(u, 2), ch);
  }

  lemma ExecuteKeeps(t: Term, code: byte)
    requires Valid(t)
    ensures SameSaved(t, ExecuteCode(t, code))
  {
    hide LineFeed, ReverseIndex, Shaped, SavedFits;
    FeedsKeep(t);
  }

  lemma ErasureKeeps(t: Term, n: nat)
    requires Valid(t)
    ensures SameSaved(t, EraseDisplay(t, n)) && SameSaved(t, EraseLine(t, n)) && SameSaved(t, EraseChars(t, n))
    ensures SameSaved(t, DeleteChars(t, n)) && SameSaved(t, InsertChars(t, n))
  {
    hide Shaped, SavedFits, Overwrite, DeleteCells, InsertCells, BlankRow;
  }

  lemma LinesKeep(t: Term, n: nat)
    requires Valid(t)
    ensures SameSaved(t, InsertLines(t, n)) && SameSaved(t, DeleteLines(t, n))
    ensures SameSaved(t, ScrollUp(t, n)) && SameSaved(t, ScrollDown(t, n))
  {
    hide ShiftUp, ShiftDown, Removed, LastN, BlankRow, Shaped, SavedFits;
  }

  lemma MotionKeeps(t: Term, params: seq<u16>, final: byte)
    requires Valid(t)
    ensures SameSaved(t, Motion(t, params, final))
  {
    hide Shaped, SavedFits;
  }

  lemma SettingsKeep(t: Term, params: seq<u16>)
    requires Valid(t)
    ensures SameSaved(t, SetRegion(t, Param(params, 0, 1) - 1, Param(params, 1, t.rows)))
    ensures SameSaved(t, RestoreCursor(t)) && SameSaved(t, SetAttrs(t, params))
    ensures forall enable :: SameSaved(t, SetInsert(t, Param(params, 0, 0), enable))
  {
    hide Shaped, SavedFits;
  }

  lemma PrivateKeeps(t: Term, mode: nat, enable: bool)
    requires Valid(t) && t.modes.alternateScreen && !(mode in {47, 1047, 1049} && !enable)
    ensures var u := SetPrivateMode(t, mode, enable);
            && u.savedScreen == t.savedScreen && u.modes.alternateScreen
            && (!(mode == 1048 && enable) ==> u.savedCursor == t.savedCursor)
  {
    hide Shaped, SavedFits;
  }

  lemma CsiKeeps(t: Term, params: seq<u16>, intermediates: seq<byte>, final: byte)
    requires Valid(t) && 0x3F !in intermediates
    ensures var u := CsiSequence(t, params, intermediates, final);
            if final == 0x73 then u == SaveCursor(t) else SameSaved(t, u)
  {
    hide EraseDisplay, EraseLine, EraseChars, DeleteChars, InsertChars, InsertLines, DeleteLines, ScrollUp, ScrollDown;
    hide Motion, Valid, SaveCursor, RestoreCursor, SetRegion, SetAttrs, SetInsert, SameSaved, Param;
    match final
    case 0x4A | 0x4B => ErasureKeeps(t, Param(params, 0, 0));
    case 0x50 | 0x40 | 0x58 => ErasureKeeps(t, Param(params, 0, 1));
    case 0x4C | 0x4D | 0x53 | 0x54 => LinesKeep(t, Param(params, 0, 1));
    case 0x72 | 0x75 | 0x6D | 0x68 | 0x6C => SettingsKeep(t, params);
    case _ => MotionKeeps(t, params, final);
  }

  /** Under the alternate screen, one action keeps what was saved, unless it leaves or saves a cursor. */
  lemma ActionKeeps(t: Term, a: Action)
    requires Valid(t) && t.modes.alternateScreen && !Leaves(a)
    ensures var u := Apply(t, a);
            && u.savedScreen == t.savedScreen && u.modes.alternateScreen
            && (!SavesCursor(a) ==> u.savedCursor == t.savedCursor)
  {
    hide PrintChar, ExecuteCode, CsiSequence, SetPrivateMode, LineFeed, ReverseIndex, Shaped, SavedFits, New;
    match a
    case Print(ch) => PrintKeeps(t, ch);
    case Execute(code) => ExecuteKeeps(t, code);
    case Csi(params, intermediates, ignore, final) =>
      if 0x3F in intermediates {
        PrivateSequence(t, params, intermediates, final);
        if !ignore {
          PrivateKeeps(t, Param(params, 0, 0), final == 0x68);
        }
      } else {
        CsiKeeps(t, params, intermediates, final);
      }
    case Esc(_, _, _) => FeedsKeep(t);
    case Osc(_, _) =>
    case DcsStart(_, _, _) =>
    case DcsData(_) =>
    case DcsEnd =>
  }

  lemma {:induction false} ActionsKeep(t: Term, actions: seq<Action>)
    requires Valid(t) && t.modes.alternateScreen && forall a :: a in actions ==> !Leaves(a)
    ensures var u := ApplyAll(t, actions);
            && u.savedScreen == t.savedScreen && u.modes.alternateScreen
            && ((forall a :: a in actions ==> !SavesCursor(a)) ==> u.savedCursor == t.savedCursor)
    decreases |actions|
  {
    hide Apply, Leaves, SavesCursor, Valid;
    if actions != [] {
      ActionKeeps(t, actions[0]);
      ActionsKeep(Apply(t, actions[0]), actions[1..]);
    }
  }

  /** Whatever is drawn, scrolled, moved or set under the alternate screen, leaving it brings back the main screen
      cell for cell, and the cursor with it unless a cursor was saved in between. */
  lemma LeavingRestores(t: Term, actions: seq<Action>)
    requires Valid(t) && !t.modes.alternateScreen && forall a :: a in actions ==> !Leaves(a)
    ensures var u := SwitchScreen(ApplyAll(SwitchScreen(t, true), actions), false);
            && u.screen == t.screen && u.savedScreen == None && !u.modes.alternateScreen
            && ((forall a :: a in actions ==> !SavesCursor(a)) ==> u.cursor == t.cursor)
  {
    hide ApplyAll, Leaves, SavesCursor, Shaped, SavedFits;
    ActionsKeep(SwitchScreen(t, true), actions);
  }
}
