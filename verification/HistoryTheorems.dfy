/** What reaches the scrollback, under either screen. */
module HistoryTheorems {
  import opened Basics
  import opened Grid
  import opened Screen
  import opened VtParser
  import opened AlternateTheorems

  /** The rows a line feed pushes: the top one, from the last row of a region that is the whole screen. */
  function FedRows(t: Term): seq<Row>
    requires Valid(t)
  {
    if WholeScreen(t) && t.cursor.row + 1 == t.rows then [t.screen[0]] else []
  }

  /** The rows an action pushes into the scrollback. */
  function Pushed(t: Term, a: Action): seq<Row>
    requires Valid(t)
  {
    match a
    case Print(_) => if t.wrapPending then FedRows(t) else []
    case Execute(code) => if code == 0x0A || code == 0x0B || code == 0x0C then FedRows(t) else []
    case Csi(params, intermediates, ignore, final) =>
      if !ignore && 0x3F !in intermediates && final == 0x53 && WholeScreen(t)
      then Removed(t.screen, Param(params, 0, 1), BlankRow(t.cols)) else []
    case Esc(_, ignore, final) => if !ignore && (final == 0x44 || final == 0x45) then FedRows(t) else []
    case _ => []
  }

  /** It drops the whole scrollback: a full reset, or erasing the whole display. */
  predicate Clears(a: Action) {
    || IsReset(a)
    || (a.Csi? && !a.ignore && 0x3F !in a.intermediates && a.final == 0x4A && Param(a.params, 0, 0) >= 2)
  }

  predicate SameHistory(t: Term, u: Term) {
    u.scrollback == t.scrollback
  }

  // ----- One operation at a time ---------------------------------------------

  lemma AddNothing(s: seq<Row>)
    requires |s| <= DEFAULT_SCROLLBACK
    ensures LastN(s + [], DEFAULT_SCROLLBACK) == s
  {
    assert s + [] == s;
  }

  lemma FeedPushes(t: Term)
    requires Valid(t)
    ensures LineFeed(t).scrollback == LastN(t.scrollback + FedRows(t), DEFAULT_SCROLLBACK)
    ensures LineFeed(LineStart(t)).scrollback == LastN(t.scrollback + FedRows(t), DEFAULT_SCROLLBACK)
    ensures SameHistory(t, ReverseIndex(t))
  {
    hide ShiftUp, ShiftDown, LastN, BlankRow, SavedFits;
    AddNothing(t.scrollback);
    RemovedOne(t.screen, BlankRow(t.cols));
  }

  lemma RemovedOne(s: seq<Row>, blank: Row)
    ensures s != [] ==> Removed(s, 1, blank) == [s[0]]
  {
  }

  lemma PutKeepsHistory(t: Term, ch: Scalar)
    requires Valid(t)
    ensures SameHistory(t, PutChar(t, ch)) && SameHistory(t, MakeRoom(t, 1)) && SameHistory(t, MakeRoom(t, 2))
  {
    hide Gap, Shaped, SavedFits;
  }

  lemma PrintPushes(t: Term, ch: Scalar)
    requires Valid(t)
    ensures PrintChar(t, ch).scrollback == LastN(t.scrollback + (if t.wrapPending then FedRows(t) else []), DEFAULT_SCROLLBACK)
  {
    hide PutChar, MakeRoom, LineFeed, ReverseIndex, LastN, FedRows;
    FeedPushes(t);
    AddNothing(t.scrollback);
    var u := if t.wrapPending
             then var fed := LineFeed(t); fed.(cursor := fed.cursor.(col := 0), wrapPending := false)
             else t;
    PutKeepsHistory(u, ch);
    PutKeepsHistory(MakeRoom(u, 1), ch);
    PutKeepsHistory(MakeRoom(u, 2), ch);
  }

  lemma EditsKeepHistory(t: Term, n: nat)
    requires Valid(t)
    ensures SameHistory(t, EraseLine(t, n)) && SameHistory(t, EraseChars(t, n))
    ensures SameHistory(t, DeleteChars(t, n)) && SameHistory(t, InsertChars(t, n))
    ensures SameHistory(t, InsertLines(t, n)) && SameHistory(t, DeleteLines(t, n)) && SameHistory(t, ScrollDown(t, n))
    ensures EraseDisplay(t, n).scrollback == if n >= 2 then [] else t.scrollback
  {
    hide Shaped, SavedFits, Overwrite, DeleteCells, InsertCells, BlankRow, ShiftUp, ShiftDown;
  }

  lemma SettingsKeepHistory(t: Term, params: seq<u16>, final: byte)
    requires Valid(t)
    ensures SameHistory(t, SetRegion(t, Param(params, 0, 1) - 1, Param(params, 1, t.rows)))
    ensures SameHistory(t, SaveCursor(t)) && SameHistory(t, RestoreCursor(t)) && SameHistory(t, SetAttrs(t, params))
    ensures forall enable :: SameHistory(t, SetInsert(t, Param(params, 0, 0), enable))
    ensures SameHistory(t, Motion(t, params, final))
  {
    hide Shaped, SavedFits;
  }

  lemma PrivateKeepsHistory(t: Term, mode: nat, enable: bool)
    requires Valid(t)
    ensures SameHistory(t, SetPrivateMode(t, mode, enable))
  {
    hide Shaped, SavedFits, BlankRow;
  }

  lemma CsiPushes(t: Term, params: seq<u16>, intermediates: seq<byte>, final: byte)
    requires Valid(t) && 0x3F !in intermediates
    ensures var a := Csi(params, intermediates, false, final);
            CsiSequence(t, params, intermediates, final).scrollback
            == if Clears(a) then [] else LastN(t.scrollback + Pushed(t, a), DEFAULT_SCROLLBACK)
  {
    hide EraseDisplay, EraseLine, EraseChars, DeleteChars, InsertChars, InsertLines, DeleteLines, ScrollDown;
    hide Motion, SaveCursor, RestoreCursor, SetRegion, SetAttrs, SetInsert, Shaped, SavedFits;
    hide ShiftUp, Removed, LastN, BlankRow;
    AddNothing(t.scrollback);
    match final
    case 0x4A => EditsKeepHistory(t, Param(params, 0, 0));
    case 0x4B => EditsKeepHistory(t, Param(params, 0, 0));
    case 0x50 | 0x40 | 0x58 | 0x4C | 0x4D | 0x54 => EditsKeepHistory(t, Param(params, 0, 1));
    case 0x53 =>
    case _ => SettingsKeepHistory(t, params, final);
  }

  // ----- Actions and runs ----------------------------------------------------

  /** What every action makes of the scrollback: the newest rows of it and of what is pushed, or nothing. */
  lemma ActionPushes(t: Term, a: Action)
    requires Valid(t)
    ensures Apply(t, a).scrollback
         == if Clears(a) then [] else LastN(t.scrollback + Pushed(t, a), DEFAULT_SCROLLBACK)
  {
    hide PrintChar, ExecuteCode, CsiSequence, EscSequence, SetPrivateMode, FedRows, LastN, Removed, Shaped, SavedFits;
    AddNothing(t.scrollback);
    match a
    case Print(ch) => PrintPushes(t, ch);
    case Execute(code) => ExecutePushes(t, code);
    case Csi(params, intermediates, ignore, final) =>
      if 0x3F in intermediates {
        PrivateSequence(t, params, intermediates, final);
        PrivateKeepsHistory(t, Param(params, 0, 0), final == 0x68);
      } else {
        CsiPushes(t, params, intermediates, final);
      }
    case Esc(_, _, final) => EscPushes(t, final);
    case Osc(_, _) =>
    case DcsStart(_, _, _) =>
    case DcsData(_) =>
    case DcsEnd =>
  }

  lemma ExecutePushes(t: Term, code: byte)
    requires Valid(t)
    ensures ExecuteCode(t, code).scrollback
         == LastN(t.scrollback + (if code == 0x0A || code == 0x0B || code == 0x0C then FedRows(t) else []), DEFAULT_SCROLLBACK)
  {
    hide LineFeed, FedRows, LastN, Shaped, SavedFits;
    AddNothing(t.scrollback);
    FeedPushes(t);
  }

  lemma EscPushes(t: Term, final: byte)
    requires Valid(t)
    ensures EscSequence(t, final).scrollback
         == if final == 0x63 then []
            else LastN(t.scrollback + (if final == 0x44 || final == 0x45 then FedRows(t) else []), DEFAULT_SCROLLBACK)
  {
    hide LineFeed, ReverseIndex, FedRows, LastN, Shaped, SavedFits;
    AddNothing(t.scrollback);
    FeedPushes(t);
  }

  /** The action pushes no row and drops none. */
  predicate Quiet(t: Term, a: Action)
    requires Valid(t)
  {
    Pushed(t, a) == [] && (Clears(a) ==> t.scrollback == [])
  }

  /** An action leaves a scrollback that is not full alone exactly when it pushes and drops nothing. */
  lemma ActionIsQuietIff(t: Term, a: Action)
    requires Valid(t)
    ensures Quiet(t, a) ==> SameHistory(t, Apply(t, a))
    ensures |t.scrollback| < DEFAULT_SCROLLBACK && SameHistory(t, Apply(t, a)) ==> Quiet(t, a)
  {
    hide Apply, Valid, Pushed;
    ActionPushes(t, a);
    PushOnlyHere(t, a);
    AddNothing(t.scrollback);
    if |t.scrollback| < DEFAULT_SCROLLBACK && Pushed(t, a) != [] && !Clears(a) {
      AddSome(t.scrollback, Pushed(t, a));
    }
  }

  lemma PushOnlyHere(t: Term, a: Action)
    requires Valid(t)
    ensures Clears(a) ==> Pushed(t, a) == []
    ensures |t.scrollback| <= DEFAULT_SCROLLBACK
  {
  }

  lemma AddSome(s: seq<Row>, more: seq<Row>)
    requires |s| < DEFAULT_SCROLLBACK && more != []
    ensures LastN(s + more, DEFAULT_SCROLLBACK) != s
  {
    assert |LastN(s + more, DEFAULT_SCROLLBACK)| > |s|;
  }

  predicate AllQuiet(t: Term, actions: seq<Action>)
    requires Valid(t)
    decreases |actions|
  {
    actions == [] || (Quiet(t, actions[0]) && AllQuiet(Apply(t, actions[0]), actions[1..]))
  }

  /** The scrollback is the same at every point of the run. */
  predicate HistoryStays(t: Term, actions: seq<Action>, history: seq<Row>)
    requires Valid(t)
    decreases |actions|
  {
    t.scrollback == history && (actions == [] || HistoryStays(Apply(t, actions[0]), actions[1..], history))
  }

  /** Over every run, the scrollback stays as it is if no action pushes or drops rows; and, while it is not full,
      only then. */
  lemma {:induction false} HistoryStaysIff(t: Term, actions: seq<Action>)
    requires Valid(t)
    ensures AllQuiet(t, actions) ==> HistoryStays(t, actions, t.scrollback)
    ensures |t.scrollback| < DEFAULT_SCROLLBACK && HistoryStays(t, actions, t.scrollback) ==> AllQuiet(t, actions)
    decreases |actions|
  {
    hide Apply, Valid, Quiet;
    if actions != [] {
      var u := Apply(t, actions[0]);
      ActionIsQuietIff(t, actions[0]);
      if u.scrollback == t.scrollback {
        HistoryStaysIff(u, actions[1..]);
      } else {
        assert !HistoryStays(u, actions[1..], t.scrollback);
      }
    }
  }

  /** A visit to the alternate screen leaves the scrollback alone when what is done there is quiet. */
  lemma QuietVisitKeepsHistory(t: Term, actions: seq<Action>)
    requires Valid(t) && !t.modes.alternateScreen && AllQuiet(SwitchScreen(t, true), actions)
    ensures SwitchScreen(ApplyAll(SwitchScreen(t, true), actions), false).scrollback == t.scrollback
  {
    hide Valid, AllQuiet, HistoryStays, ApplyAll;
    var u := SwitchScreen(t, true);
    HistoryStaysIff(u, actions);
    HistoryAtEnd(u, actions, t.scrollback);
  }

  lemma {:induction false} HistoryAtEnd(t: Term, actions: seq<Action>, history: seq<Row>)
    requires Valid(t) && HistoryStays(t, actions, history)
    ensures ApplyAll(t, actions).scrollback == history
    decreases |actions|
  {
    hide Apply, Valid;
    if actions != [] {
      HistoryAtEnd(Apply(t, actions[0]), actions[1..], history);
    }
  }

  /** The scrollback is not set aside: under the alternate screen, too, a line feed in the last row of the whole
      screen pushes the top row, which belongs to the full-screen program. */
  lemma AlternateScreenScrollsHistory(t: Term)
    requires Valid(t) && t.modes.alternateScreen && WholeScreen(t) && t.cursor.row + 1 == t.rows
    ensures LineFeed(t).scrollback == LastN(t.scrollback + [t.screen[0]], DEFAULT_SCROLLBACK)
  {
    hide LastN;
    FeedPushes(t);
  }
}
