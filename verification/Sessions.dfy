/** The session manager: crates/rdt-session/src/lib.rs, each public method as one step. */
module Sessions {
  import opened Basics

  type SessionId = nat

  datatype State =
    | Idle | Connecting | Authenticating | Connected | Reconnecting
    | Disconnected | Failed | Cancelled
  {
    predicate IsTerminal() {
      Disconnected? || Failed? || Cancelled?
    }
  }

  datatype Info = Info(state: State, detail: string, attempt: nat)

  /** What a manager does to the outside: what it broadcasts, the cancel signals it sends,
      and, for the record, when a slot is made or pruned. */
  datatype Event =
    | Registered(id: SessionId)
    | Broadcast(id: SessionId, state: State, detail: string)
    | Signalled(id: SessionId)
    | Pruned(ids: set<SessionId>)

  datatype AuditKind = SessionConnect | AuthAttempt | SessionEstablished | SessionReconnect | SessionClosed
  datatype AuditOutcome = Failure | Denied | Success | Information
  datatype AuditEvent = AuditEvent(kind: AuditKind, outcome: AuditOutcome, id: SessionId, detail: string)

  function Audited(id: SessionId, state: State, detail: string): AuditEvent {
    var kind := match state
      case Connecting => SessionConnect
      case Authenticating => AuthAttempt
      case Connected => SessionEstablished
      case Reconnecting => SessionReconnect
      case Disconnected => SessionClosed
      case Cancelled => SessionClosed
      case Failed => SessionClosed
      case Idle => SessionConnect;
    var outcome := match state
      case Failed => Failure
      case Cancelled => Denied
      case Connected => Success
      case _ => Information;
    AuditEvent(kind, outcome, id, detail)
  }

  datatype Manager = Manager(
    limit: nat,
    auditing: bool,
    slots: map<SessionId, Info>,
    trace: seq<Event>,
    audit: seq<AuditEvent>)

  function Start(limit: nat, auditing: bool): Manager {
    Manager(limit, auditing, map[], [], [])
  }

  /** The sessions that are not finished. */
  function Live(slots: map<SessionId, Info>): set<SessionId> {
    set id | id in slots && !slots[id].state.IsTerminal()
  }

  function ActiveCount(m: Manager): nat {
    |Live(m.slots)|
  }

  function Transition(m: Manager, id: SessionId, state: State, detail: string): Manager {
    m.(slots := if id in m.slots then m.slots[id := Moved(m.slots[id], state, detail)] else m.slots,
       trace := m.trace + [Broadcast(id, state, detail)],
       audit := if m.auditing then m.audit + [Audited(id, state, detail)] else m.audit)
  }

  function Moved(info: Info, state: State, detail: string): Info {
    Info(state, detail, if state == Reconnecting then info.attempt + 1 else info.attempt)
  }

  function Inserted(m: Manager, id: SessionId): Manager {
    m.(slots := m.slots[id := Info(Connecting, "connecting", 0)], trace := m.trace + [Registered(id)])
  }

  /** None when the limit is reached. */
  function Register(m: Manager, id: SessionId): Option<Manager> {
    if ActiveCount(m) >= m.limit then None
    else Some(Transition(Inserted(m, id), id, Connecting, "connecting"))
  }

  function Removed(m: Manager, id: SessionId): Manager {
    if id in m.slots then m.(slots := m.slots - {id}, trace := m.trace + [Signalled(id)]) else m
  }

  function Cancel(m: Manager, id: SessionId): Manager {
    Transition(Removed(m, id), id, Cancelled, "cancelled by the user")
  }

  /** Cancelling every session, in the order in which the map lists them. */
  function CancelEach(m: Manager, order: seq<SessionId>): Manager
    decreases |order|
  {
    if order == [] then m else CancelEach(Cancel(m, order[0]), order[1..])
  }

  function Prune(m: Manager): Manager {
    m.(slots := map id | id in Live(m.slots) :: m.slots[id],
       trace := m.trace + [Pruned(m.slots.Keys - Live(m.slots))])
  }

  class SessionManager {
    const limit: nat
    const auditing: bool
    var slots: map<SessionId, Info>
    var audit: seq<AuditEvent>
    ghost var trace: seq<Event>

    ghost function View(): Manager
      reads this
    {
      Manager(limit, auditing, slots, trace, audit)
    }

    constructor (limit: nat, auditing: bool)
      ensures View() == Start(limit, auditing)
    {
      this.limit, this.auditing := limit, auditing;
      slots, audit, trace := map[], [], [];
    }

    /** Refuses a policy that allows no session at all. */
    static method New(limit: nat, auditing: bool) returns (r: Option<SessionManager>)
      ensures r.None? <==> limit == 0
      ensures r.Some? ==> fresh(r.value) && r.value.View() == Start(limit, auditing)
    {
      if limit == 0 {
        return None;
      }
      var manager := new SessionManager(limit, auditing);
      r := Some(manager);
    }

    /** The sessions that are not finished, counted one by one. */
    method CountActive() returns (active: nat)
      ensures active == ActiveCount(View())
    {
      active := 0;
      var todo := slots.Keys;
      ghost var seen: set<SessionId> := {};
      while todo != {}
        invariant todo <= slots.Keys && active == |seen|
        invariant forall id :: id in seen <==> id in slots && id !in todo && !slots[id].state.IsTerminal()
        decreases |todo|
      {
        var id :| id in todo;
        todo := todo - {id};
        if !slots[id].state.IsTerminal() {
          active := active + 1;
          seen := seen + {id};
        }
      }
      assert seen == Live(slots);
    }

    method RegisterSession(id: SessionId) returns (accepted: bool)
      modifies this
      ensures accepted <==> Register(old(View()), id).Some?
      ensures View() == if accepted then Register(old(View()), id).value else old(View())
    {
      var active := CountActive();
      if active >= limit {
        return false;
      }
      slots := slots[id := Info(Connecting, "connecting", 0)];
      trace := trace + [Registered(id)];
      MoveTo(id, Connecting, "connecting");
      accepted := true;
    }

    method MoveTo(id: SessionId, state: State, detail: string)
      modifies this
      ensures View() == Transition(old(View()), id, state, detail)
    {
      if id in slots {
        var info := slots[id];
        info := info.(state := state);
        info := info.(detail := detail);
        if state == Reconnecting {
          info := info.(attempt := info.attempt + 1);
        }
        slots := slots[id := info];
      }
      trace := trace + [Broadcast(id, state, detail)];
      if auditing {
        audit := audit + [Audited(id, state, detail)];
      }
    }

    method CancelSession(id: SessionId)
      modifies this
      ensures View() == Cancel(old(View()), id)
    {
      if id in slots {
        slots := slots - {id};
        trace := trace + [Signalled(id)];
      }
      MoveTo(id, Cancelled, "cancelled by the user");
    }

    /** The ids are collected first; their order is the map's and not determined. */
    method CancelAll() returns (ghost order: seq<SessionId>)
      modifies this
      ensures forall id :: id in order <==> id in old(slots)
      ensures |order| == |old(slots)|
      ensures View() == CancelEach(old(View()), order) && slots == map[]
    {
      hide Cancel, CancelEach;
      ghost var was := View();
      var ids := slots.Keys;
      order := [];
      NothingCancelled(was);
      while ids != {}
        invariant ids == slots.Keys && ids <= was.slots.Keys
        invariant forall id :: id in order <==> id in was.slots && id !in ids
        invariant |order| + |ids| == |was.slots|
        invariant View() == CancelEach(was, order)
        decreases |ids|
      {
        var id :| id in ids;
        ghost var before := View();
        CancelSession(id);
        CancelForgets(before, id);
        CancelOneMore(was, order, id);
        assert slots.Keys == before.slots.Keys - {id};
        ids := ids - {id};
        order := order + [id];
      }
    }

    method PruneFinished() returns (dropped: int)
      modifies this
      ensures View() == Prune(old(View()))
      ensures dropped == |old(slots)| - |slots|
    {
      var before, kept, todo := |slots|, slots, slots.Keys;
      while todo != {}
        invariant todo <= slots.Keys
        invariant forall id :: id in kept <==> id in slots && (id in todo || !slots[id].state.IsTerminal())
        invariant forall id :: id in kept ==> kept[id] == slots[id]
        decreases |todo|
        modifies {}
      {
        var id :| id in todo;
        todo := todo - {id};
        if slots[id].state.IsTerminal() {
          kept := kept - {id};
        }
      }
      trace := trace + [Pruned(slots.Keys - Live(slots))];
      assert kept == Prune(old(View())).slots;
      slots := kept;
      dropped := before - |slots|;
    }
  }

  lemma NothingCancelled(m: Manager)
    ensures CancelEach(m, []) == m
  {
  }

  /** A cancelled session is gone at once, and no other changes; a second cancel only broadcasts again. */
  lemma CancelForgets(m: Manager, id: SessionId)
    ensures Cancel(m, id).slots == m.slots - {id}
    ensures Cancel(Cancel(m, id), id).slots == Cancel(m, id).slots
    ensures Cancel(Cancel(m, id), id).trace
         == Cancel(m, id).trace + [Broadcast(id, Cancelled, "cancelled by the user")]
  {
  }

  lemma {:induction false} CancelOneMore(m: Manager, order: seq<SessionId>, id: SessionId)
    ensures CancelEach(m, order + [id]) == Cancel(CancelEach(m, order), id)
    decreases |order|
  {
    hide Cancel;
    if order == [] {
      assert order + [id] == [id];
      NothingCancelled(Cancel(m, id));
      assert [id][1..] == [];
    } else {
      assert (order + [id])[1..] == order[1..] + [id];
      CancelOneMore(Cancel(m, order[0]), order[1..], id);
    }
  }

  /** A manager refuses a session exactly when as many as its limit are idle, under way, connected or reconnecting. */
  lemma RefusedIff(m: Manager, id: SessionId)
    ensures Register(m, id) == None
       <==> |set i | i in m.slots && m.slots[i].state in {Idle, Connecting, Authenticating, Connected, Reconnecting}| >= m.limit
  {
    var live := set i | i in m.slots && m.slots[i].state in {Idle, Connecting, Authenticating, Connected, Reconnecting};
    assert live == Live(m.slots);
  }

  /** Each change of state is audited once, if at all: as closed for the three final states, failed for Failed, denied
      for Cancelled and successful for Connected. */
  lemma AuditMeaning(m: Manager, id: SessionId, state: State, detail: string)
    ensures var n := |m.audit|;
            var after := Transition(m, id, state, detail).audit;
            if !m.auditing then after == m.audit
            else && |after| == n + 1 && after[..n] == m.audit && after[n].id == id && after[n].detail == detail
                 && (after[n].kind == SessionClosed <==> state in {Disconnected, Failed, Cancelled})
                 && (after[n].kind == SessionConnect <==> state in {Idle, Connecting})
                 && (after[n].kind == AuthAttempt <==> state == Authenticating)
                 && (after[n].kind == SessionEstablished <==> state == Connected)
                 && (after[n].kind == SessionReconnect <==> state == Reconnecting)
                 && (after[n].outcome == Failure <==> state == Failed)
                 && (after[n].outcome == Denied <==> state == Cancelled)
                 && (after[n].outcome == Success <==> state == Connected)
  {
  }

  // ----- Runs ----------------------------------------------------------------

  datatype Op =
    | RegisterOp(id: SessionId)
    | MoveOp(id: SessionId, state: State, detail: string)
    | CancelOp(id: SessionId)
    | CancelAllOp(order: seq<SessionId>)
    | PruneOp

  function Step(m: Manager, op: Op): Manager {
    match op
    case RegisterOp(id) => if Register(m, id).Some? then Register(m, id).value else m
    case MoveOp(id, state, detail) => Transition(m, id, state, detail)
    case CancelOp(id) => Cancel(m, id)
    case CancelAllOp(order) => CancelEach(m, order)
    case PruneOp => Prune(m)
  }

  function Run(m: Manager, ops: seq<Op>): Manager
    decreases |ops|
  {
    if ops == [] then m else Step(Run(m, ops[..|ops| - 1]), ops[|ops| - 1])
  }

  // ----- What a subscriber can tell ------------------------------------------

  /** The state and detail last broadcast for a session. */
  function Latest(trace: seq<Event>, id: SessionId): Option<(State, string)>
    decreases |trace|
  {
    if trace == [] then None
    else
      var last := trace[|trace| - 1];
      if last.Broadcast? && last.id == id then Some((last.state, last.detail)) else Latest(trace[..|trace| - 1], id)
  }

  /** How often it was broadcast as reconnecting since it was registered. */
  function Attempts(trace: seq<Event>, id: SessionId): nat
    decreases |trace|
  {
    if trace == [] then 0
    else
      var last, before := trace[|trace| - 1], trace[..|trace| - 1];
      if last == Registered(id) then 0
      else if last.Broadcast? && last.id == id && last.state == Reconnecting then 1 + Attempts(before, id)
      else Attempts(before, id)
  }

  /** It was registered, and neither cancelled nor pruned since. */
  predicate Listed(trace: seq<Event>, id: SessionId)
    decreases |trace|
  {
    if trace == [] then false
    else
      var last := trace[|trace| - 1];
      if last == Registered(id) then true
      else if last == Signalled(id) || (last.Pruned? && id in last.ids) then false
      else Listed(trace[..|trace| - 1], id)
  }

  function AuditTrail(trace: seq<Event>): seq<AuditEvent>
    decreases |trace|
  {
    if trace == [] then []
    else
      var last := trace[|trace| - 1];
      AuditTrail(trace[..|trace| - 1])
      + (if last.Broadcast? then [Audited(last.id, last.state, last.detail)] else [])
  }

  /** The table is what the events say, session by session. */
  ghost predicate Agrees(m: Manager) {
    && (forall id :: id in m.slots <==> Listed(m.trace, id))
    && (forall id :: id in m.slots ==>
         && Latest(m.trace, id) == Some((m.slots[id].state, m.slots[id].detail))
         && m.slots[id].attempt == Attempts(m.trace, id))
    && m.audit == if m.auditing then AuditTrail(m.trace) else []
  }

  /** Like Agrees, except for one session that was inserted and not yet broadcast. */
  ghost predicate AgreesBut(m: Manager, newcomer: SessionId) {
    && (forall id :: id in m.slots <==> Listed(m.trace, id))
    && (forall id :: id in m.slots ==>
         && (id != newcomer ==> Latest(m.trace, id) == Some((m.slots[id].state, m.slots[id].detail)))
         && m.slots[id].attempt == Attempts(m.trace, id))
    && m.audit == if m.auditing then AuditTrail(m.trace) else []
  }

  lemma OneMore(trace: seq<Event>, e: Event)
    ensures (trace + [e])[..|trace + [e]| - 1] == trace && (trace + [e])[|trace + [e]| - 1] == e
  {
  }

  lemma TransitionAgrees(m: Manager, id: SessionId, state: State, detail: string)
    requires AgreesBut(m, id)
    ensures Agrees(Transition(m, id, state, detail))
  {
    hide Audited;
    OneMore(m.trace, Broadcast(id, state, detail));
  }

  lemma InsertedAgrees(m: Manager, id: SessionId)
    requires Agrees(m)
    ensures AgreesBut(Inserted(m, id), id)
  {
    OneMore(m.trace, Registered(id));
  }

  lemma CancelAgrees(m: Manager, id: SessionId)
    requires Agrees(m)
    ensures Agrees(Cancel(m, id))
  {
    hide Transition;
    OneMore(m.trace, Signalled(id));
    TransitionAgrees(Removed(m, id), id, Cancelled, "cancelled by the user");
  }

  lemma {:induction false} CancelEachAgrees(m: Manager, order: seq<SessionId>)
    requires Agrees(m)
    ensures Agrees(CancelEach(m, order))
    decreases |order|
  {
    hide Agrees, Cancel;
    if order != [] {
      CancelAgrees(m, order[0]);
      CancelEachAgrees(Cancel(m, order[0]), order[1..]);
    }
  }

  lemma PruneAgrees(m: Manager)
    requires Agrees(m)
    ensures Agrees(Prune(m))
  {
    OneMore(m.trace, Pruned(m.slots.Keys - Live(m.slots)));
  }

  lemma StepAgrees(m: Manager, op: Op)
    requires Agrees(m)
    ensures Agrees(Step(m, op))
  {
    hide Transition, Cancel, CancelEach, Prune, Inserted, ActiveCount, Latest, Attempts, Listed, AuditTrail;
    match op
    case RegisterOp(id) =>
      InsertedAgrees(m, id);
      TransitionAgrees(Inserted(m, id), id, Connecting, "connecting");
    case MoveOp(id, state, detail) => TransitionAgrees(m, id, state, detail);
    case CancelOp(id) => CancelAgrees(m, id);
    case CancelAllOp(order) => CancelEachAgrees(m, order);
    case PruneOp => PruneAgrees(m);
  }

  /** Over every run, the table shows exactly the sessions that were registered and neither cancelled nor pruned,
      each with the state and detail last broadcast and its reconnects counted; and the audit trail,
      when it is kept, has one record for every broadcast. */
  lemma {:induction false} RunsAgree(limit: nat, auditing: bool, ops: seq<Op>)
    ensures Agrees(Run(Start(limit, auditing), ops))
    decreases |ops|
  {
    hide Step;
    if ops != [] {
      hide Agrees;
      var m := Run(Start(limit, auditing), ops[..|ops| - 1]);
      RunsAgree(limit, auditing, ops[..|ops| - 1]);
      StepAgrees(m, ops[|ops| - 1]);
    }
  }

  // ----- The concurrency limit -----------------------------------------------

  /** The caller moves a finished session back to a live state. */
  predicate Revives(m: Manager, op: Op) {
    op.MoveOp? && !op.state.IsTerminal() && op.id in m.slots && m.slots[op.id].state.IsTerminal()
  }

  lemma LiveAfterMove(slots: map<SessionId, Info>, id: SessionId, info: Info)
    ensures Live(slots[id := info]) == if info.state.IsTerminal() then Live(slots) - {id} else Live(slots) + {id}
  {
  }

  lemma LiveAfterCancel(m: Manager, id: SessionId)
    ensures Live(Cancel(m, id).slots) == Live(m.slots) - {id} && Cancel(m, id).limit == m.limit
  {
    CancelForgets(m, id);
  }

  lemma {:induction false} LiveAfterCancels(m: Manager, order: seq<SessionId>)
    ensures ActiveCount(CancelEach(m, order)) <= ActiveCount(m) && CancelEach(m, order).limit == m.limit
    decreases |order|
  {
    hide Cancel, Live;
    if order != [] {
      LiveAfterCancel(m, order[0]);
      LiveAfterCancels(Cancel(m, order[0]), order[1..]);
    }
  }

  /** Pruning drops exactly the finished sessions. */
  lemma PruneKeepsLive(m: Manager)
    ensures Live(Prune(m).slots) == Live(m.slots) == Prune(m).slots.Keys
    ensures |Prune(m).slots| == ActiveCount(m)
  {
    assert |Prune(m).slots| == |Prune(m).slots.Keys|;
  }

  lemma OneElement(s: set<SessionId>, id: SessionId)
    ensures |s + {id}| == |s| + (if id in s then 0 else 1)
    ensures |s - {id}| == |s| - (if id in s then 1 else 0)
  {
    if id in s {
      assert s + {id} == s;
    } else {
      assert s - {id} == s;
    }
  }

  /** Where a transition of a known session leaves the count. */
  lemma CountAfterMove(slots: map<SessionId, Info>, id: SessionId, info: Info)
    ensures info.state.IsTerminal() ==> |Live(slots[id := info])| <= |Live(slots)|
    ensures !info.state.IsTerminal() ==> |Live(slots[id := info])| == |Live(slots)| + (if id in Live(slots) then 0 else 1)
  {
    LiveAfterMove(slots, id, info);
    OneElement(Live(slots), id);
  }

  /** A step takes the count over the limit exactly when it revives a finished session while the limit is reached. */
  lemma StepKeepsLimitIff(m: Manager, op: Op)
    requires ActiveCount(m) <= m.limit
    ensures Step(m, op).limit == m.limit
    ensures ActiveCount(Step(m, op)) <= m.limit <==> !(Revives(m, op) && ActiveCount(m) == m.limit)
  {
    hide CancelEach, Cancel, Prune, Live;
    match op
    case RegisterOp(id) =>
      var info := Info(Connecting, "connecting", 0);
      CountAfterMove(m.slots, id, info);
      CountAfterMove(m.slots[id := info], id, info);
      LiveMember(m.slots[id := info], id);
    case MoveOp(id, state, detail) =>
      if id in m.slots {
        CountAfterMove(m.slots, id, Moved(m.slots[id], state, detail));
        LiveMember(m.slots, id);
      }
    case CancelOp(id) =>
      LiveAfterCancel(m, id);
      OneElement(Live(m.slots), id);
    case CancelAllOp(order) => LiveAfterCancels(m, order);
    case PruneOp =>
      PruneKeepsLive(m);
      assert Prune(m).limit == m.limit by { PruneKeepsLimit(m); }
  }

  lemma PruneKeepsLimit(m: Manager)
    ensures Prune(m).limit == m.limit
  {
  }

  lemma LiveMember(slots: map<SessionId, Info>, id: SessionId)
    ensures id in Live(slots) <==> id in slots && !slots[id].state.IsTerminal()
  {
  }

  /** Before no step of the run is a finished session revived while the limit is reached. */
  ghost predicate NeverRevivesAtLimit(m: Manager, ops: seq<Op>) {
    forall k :: 0 <= k < |ops| ==> !(Revives(Run(m, ops[..k]), ops[k]) && ActiveCount(Run(m, ops[..k])) == m.limit)
  }

  ghost predicate WithinLimit(m: Manager, ops: seq<Op>) {
    forall k :: 0 <= k <= |ops| ==> ActiveCount(Run(m, ops[..k])) <= m.limit
  }

  lemma {:induction false} RunKeepsPolicy(m: Manager, ops: seq<Op>)
    requires WithinLimit(m, ops)
    ensures Run(m, ops).limit == m.limit
    decreases |ops|
  {
    hide Step, ActiveCount;
    if ops != [] {
      var n := |ops| - 1;
      assert forall k :: 0 <= k <= n ==> ops[..n][..k] == ops[..k];
      RunKeepsPolicy(m, ops[..n]);
      assert ActiveCount(Run(m, ops[..n])) <= m.limit;
      StepKeepsLimitIff(Run(m, ops[..n]), ops[n]);
    }
  }

  /** At every point of a run the active sessions are within the limit exactly when the callers never revive
      a finished session while the limit is reached. */
  lemma {:induction false} LimitHoldsIff(limit: nat, auditing: bool, ops: seq<Op>)
    ensures WithinLimit(Start(limit, auditing), ops) <==> NeverRevivesAtLimit(Start(limit, auditing), ops)
    decreases |ops|
  {
    hide Step, ActiveCount, Revives;
    var m := Start(limit, auditing);
    if ops == [] {
      assert ops[..0] == [] && Run(m, []) == m;
      StartIsEmpty(limit, auditing);
    } else {
      var n := |ops| - 1;
      var before, op := ops[..n], ops[n];
      LimitHoldsIff(limit, auditing, before);
      assert forall k :: 0 <= k <= n ==> before[..k] == ops[..k];
      assert before[..n] == before && ops[..|ops|] == ops;
      SplitRun(m, before, op, ops);
      if WithinLimit(m, before) {
        RunKeepsPolicy(m, before);
        StepKeepsLimitIff(Run(m, before), op);
      }
    }
  }

  lemma StartIsEmpty(limit: nat, auditing: bool)
    ensures ActiveCount(Start(limit, auditing)) == 0
  {
  }

  lemma SplitRun(m: Manager, before: seq<Op>, op: Op, ops: seq<Op>)
    requires ops == before + [op]
    ensures WithinLimit(m, ops) <==> WithinLimit(m, before) && ActiveCount(Step(Run(m, before), op)) <= m.limit
    ensures WithinLimit(m, before) ==> ActiveCount(Run(m, before)) <= m.limit
    ensures NeverRevivesAtLimit(m, ops)
       <==> NeverRevivesAtLimit(m, before) && !(Revives(Run(m, before), op) && ActiveCount(Run(m, before)) == m.limit)
  {
    hide Step, ActiveCount, Revives, Run;
    Prefixes(before, op, ops);
    RunOneMore(m, before, op);
    assert ops[..|before| + 1] == ops && ops[..|before|] == before && before[..|before|] == before;
    forall k | 0 <= k < |before| ensures ops[k] == before[k] && ops[..k] == before[..k] {
    }
  }

  lemma Prefixes(before: seq<Op>, op: Op, ops: seq<Op>)
    requires ops == before + [op]
    ensures forall k :: 0 <= k <= |before| ==> before[..k] == ops[..k]
  {
  }

  lemma RunOneMore(m: Manager, before: seq<Op>, op: Op)
    ensures Run(m, before + [op]) == Step(Run(m, before), op)
  {
    hide Step;
    assert (before + [op])[..|before|] == before;
  }

  /** The limit is not enforced on a revival: two live sessions under a limit of one. */
  lemma RevivalOverrunsLimit()
    ensures var ops := [RegisterOp(1), MoveOp(1, Failed, "refused"), RegisterOp(2), MoveOp(1, Connected, "back")];
            ActiveCount(Run(Start(1, true), ops)) == 2
  {
    var ops := [RegisterOp(1), MoveOp(1, Failed, "refused"), RegisterOp(2), MoveOp(1, Connected, "back")];
    hide Step, Transition, ActiveCount;
    var a := Step(Start(1, true), ops[0]);
    var b := Step(a, ops[1]);
    var c := Step(b, ops[2]);
    var d := Step(c, ops[3]);
    CountIs(map[], {}, Start(1, true));
    RegisterSlots(Start(1, true), 1);
    MoveSlots(a, 1, Failed, "refused");
    CountIs(b.slots, {}, b);
    RegisterSlots(b, 2);
    MoveSlots(c, 1, Connected, "back");
    CountIs(d.slots, {1, 2}, d);
    RunOfFour(Start(1, true), ops);
  }

  lemma CountIs(slots: map<SessionId, Info>, live: set<SessionId>, m: Manager)
    requires m.slots == slots && forall id :: id in live <==> id in slots && !slots[id].state.IsTerminal()
    ensures ActiveCount(m) == |live|
  {
    assert Live(slots) == live;
  }

  lemma RegisterSlots(m: Manager, id: SessionId)
    requires ActiveCount(m) < m.limit
    ensures Step(m, RegisterOp(id)).slots == m.slots[id := Info(Connecting, "connecting", 0)]
    ensures Step(m, RegisterOp(id)).limit == m.limit
  {
  }

  lemma MoveSlots(m: Manager, id: SessionId, state: State, detail: string)
    requires id in m.slots
    ensures Step(m, MoveOp(id, state, detail)).slots == m.slots[id := Moved(m.slots[id], state, detail)]
    ensures Step(m, MoveOp(id, state, detail)).limit == m.limit
  {
  }

  lemma RunOfFour(m: Manager, ops: seq<Op>)
    requires |ops| == 4
    ensures Run(m, ops) == Step(Step(Step(Step(m, ops[0]), ops[1]), ops[2]), ops[3])
  {
    hide Step;
    assert ops[..3][..2] == ops[..2] && ops[..2][..1] == ops[..1] && ops[..1][..0] == [];
    assert Run(m, ops[..1]) == Step(m, ops[0]);
    assert Run(m, ops[..2]) == Step(Run(m, ops[..1]), ops[1]);
    assert Run(m, ops[..3]) == Step(Run(m, ops[..2]), ops[2]);
  }
}
