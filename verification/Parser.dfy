/** The VT100/xterm byte parser: crates/rdt-terminal/src/parser.rs.

    `Step` is the transition function of the fourteen-state machine; the class
    `Parser` is the object the terminal owns, whose handlers update its fields
    in place and are proved to perform exactly that transition. */
module VtParser {
  import opened Basics
  import opened Text

  datatype Action =
    | Print(ch: Scalar)
    | Execute(code: byte)
    | Csi(params: seq<u16>, intermediates: seq<byte>, ignore: bool, final: byte)
    | Esc(intermediates: seq<byte>, ignore: bool, final: byte)
    | Osc(fields: seq<string>, bellTerminated: bool)
    | DcsStart(params: seq<u16>, intermediates: seq<byte>, final: byte)
    | DcsData(data: seq<byte>)
    | DcsEnd

  datatype State =
    | Ground | Escape | EscapeIntermediate
    | CsiEntry | CsiParam | CsiIntermediate | CsiIgnore
    | DcsEntry | DcsParam | DcsIntermediate | DcsPassthrough | DcsIgnore
    | OscString | SosPmApcString

  datatype DcsHeader = DcsHeader(params: seq<u16>, intermediates: seq<byte>, final: byte)

  const REPLACEMENT_CHARACTER: Scalar := 0xFFFD
  const CAN: byte := 0x18
  const SUB: byte := 0x1A
  const ESC: byte := 0x1B
  const BEL: byte := 0x07

  /** Everything the parser remembers between two bytes. */
  datatype ParserState = ParserState(
    state: State,
    params: seq<u16>,
    currentParam: Option<u16>,
    intermediates: seq<byte>,
    ignore: bool,
    oscBuffer: string,
    dcsBuffer: seq<byte>,
    utf8: seq<byte>,
    utf8Len: nat,
    utf8Expected: nat,
    pendingDcsStart: Option<DcsHeader>
  ) {
    /** The four-byte UTF-8 buffer is never full between two bytes. */
    predicate Valid() {
      && |utf8| == 4
      && utf8Len <= 3
      && (utf8Len > 0 ==> utf8Len < utf8Expected <= 4)
    }
  }

  /** The new state and the actions emitted, in order. */
  datatype Emit = Emit(next: ParserState, out: seq<Action>)

  const Fresh: ParserState :=
    ParserState(Ground, [], None, [], false, "", [], [0, 0, 0, 0], 0, 0, None)

  function Clear(p: ParserState): ParserState {
    p.(params := [], currentParam := None, intermediates := [], ignore := false,
       oscBuffer := "", dcsBuffer := [], utf8Len := 0, utf8Expected := 0)
  }

  function PushParam(p: ParserState): ParserState {
    p.(params := p.params + [if p.currentParam.Some? then p.currentParam.value else 0],
       currentParam := None)
  }

  /** `current * 10 + digit` on u16, saturating at each operation. */
  function AddDigit(current: Option<u16>, b: byte): u16
    requires 0x30 <= b <= 0x39
  {
    var c := if current.Some? then current.value else 0;
    Min(Min(c * 10, U16_MAX) + (b - 0x30), U16_MAX)
  }

  /** Handles the states in which ESC belongs to a string rather than aborting it. */
  predicate InString(s: State) {
    s.OscString? || s.DcsPassthrough? || s.SosPmApcString?
  }

  function Step(p: ParserState, b: byte): (r: Emit)
    requires p.Valid()
    ensures r.next.Valid()
  {
    if b == CAN || b == SUB then Emit(Clear(p).(state := Ground), [Execute(b)])
    else if b == ESC && !InString(p.state) then Emit(Clear(p).(state := Escape), [])
    else
      match p.state
      case Ground => GroundStep(p, b)
      case Escape => EscapeStep(p, b)
      case EscapeIntermediate => EscapeIntermediateStep(p, b)
      case CsiEntry => CsiEntryStep(p, b)
      case CsiParam => CsiParamStep(p, b)
      case CsiIntermediate => CsiIntermediateStep(p, b)
      case CsiIgnore => CsiIgnoreStep(p, b)
      case DcsEntry => Emit(DcsEntryStep(p, b), [])
      case DcsParam => Emit(DcsParamStep(p, b), [])
      case DcsIntermediate => Emit(DcsIntermediateStep(p, b), [])
      case DcsPassthrough => DcsPassthroughStep(p, b)
      case DcsIgnore => Emit(p, [])
      case OscString => OscStringStep(p, b)
      case SosPmApcString => Emit(if b == BEL then p.(state := Ground) else p, [])
  }

  function GroundStep(p: ParserState, b: byte): (r: Emit)
    requires p.Valid()
    ensures r.next.Valid()
    decreases p.utf8Len, 1
  {
    if p.utf8Len > 0 && b < 0x80 then Utf8Step(p, b)
    else if b <= 0x17 || b == 0x19 || 0x1C <= b <= 0x1F then Emit(p, [Execute(b)])
    else if 0x20 <= b <= 0x7F then Emit(p, [Print(b)])
    else Utf8Step(p, b)
  }

  /** Sequence length announced by a lead byte, or 0 when it cannot lead. */
  function SequenceLength(b: byte): nat {
    if 0xC0 <= b <= 0xDF then 2
    else if 0xE0 <= b <= 0xEF then 3
    else if 0xF0 <= b <= 0xF7 then 4
    else 0
  }

  /** `b & 0xC0 == 0x80` */
  predicate IsContinuation(b: byte) {
    b / 0x40 == 2
  }

  function Utf8Step(p: ParserState, b: byte): (r: Emit)
    requires p.Valid()
    ensures r.next.Valid()
    decreases p.utf8Len, 0
  {
    if p.utf8Len == 0 then
      if SequenceLength(b) == 0 then Emit(p, [Print(REPLACEMENT_CHARACTER)])
      else Emit(p.(utf8Expected := SequenceLength(b), utf8 := p.utf8[0 := b], utf8Len := 1), [])
    else if !IsContinuation(b) then
      var again := GroundStep(p.(utf8Len := 0, utf8Expected := 0), b);
      Emit(again.next, [Print(REPLACEMENT_CHARACTER)] + again.out)
    else
      var q := p.(utf8 := p.utf8[p.utf8Len := b], utf8Len := p.utf8Len + 1);
      if q.utf8Len == q.utf8Expected then
        var decoded := DecodeUtf8(q.utf8[..q.utf8Len]);
        Emit(q.(utf8Len := 0, utf8Expected := 0),
             [Print(if decoded.Some? then decoded.value else REPLACEMENT_CHARACTER)])
      else Emit(q, [])
  }

  /** The scalar value a whole multi-byte sequence encodes, when it is well
      formed: shortest form only, no surrogates, at most U+10FFFF
      (section 3 of RFC 3629). */
  function DecodeUtf8(s: seq<byte>): Option<Scalar> {
    if |s| < 2 || !(forall i :: 1 <= i < |s| ==> IsContinuation(s[i])) then None
    else if |s| == 2 && SequenceLength(s[0]) == 2 then
      var v := (s[0] as int - 0xC0) * 0x40 + (s[1] as int - 0x80);
      if v < 0x80 then None else Some(v)
    else if |s| == 3 && SequenceLength(s[0]) == 3 then
      var v := (s[0] as int - 0xE0) * 0x1000 + (s[1] as int - 0x80) * 0x40 + (s[2] as int - 0x80);
      if v < 0x800 || 0xD800 <= v < 0xE000 then None else Some(v)
    else if |s| == 4 && SequenceLength(s[0]) == 4 then
      var v := (s[0] as int - 0xF0) * 0x4_0000 + (s[1] as int - 0x80) * 0x1000 + (s[2] as int - 0x80) * 0x40 + (s[3] as int - 0x80);
      if v < 0x1_0000 || 0x11_0000 <= v then None else Some(v)
    else None
  }

  function EscDispatch(p: ParserState, b: byte): Emit {
    Emit(p.(intermediates := [], state := Ground), [Esc(p.intermediates, false, b)])
  }

  function EscapeStep(p: ParserState, b: byte): Emit {
    if b == 0x5B then Emit(p.(state := CsiEntry), [])
    else if b == 0x5D then Emit(p.(oscBuffer := "", state := OscString), [])
    else if b == 0x50 then Emit(p.(state := DcsEntry), [])
    else if b == 0x58 || b == 0x5E || b == 0x5F then Emit(p.(state := SosPmApcString), [])
    else if b == 0x5C then Emit(p.(state := Ground), [])
    else if 0x20 <= b <= 0x2F then
      Emit(p.(intermediates := p.intermediates + [b], state := EscapeIntermediate), [])
    else if 0x30 <= b <= 0x7E then EscDispatch(p, b)
    else Emit(p.(state := Ground), [])
  }

  function EscapeIntermediateStep(p: ParserState, b: byte): Emit {
    if 0x20 <= b <= 0x2F then Emit(p.(intermediates := p.intermediates + [b]), [])
    else if 0x30 <= b <= 0x7E then EscDispatch(p, b)
    else Emit(p.(state := Ground), [])
  }

  function CsiDispatch(p: ParserState, b: byte): Emit {
    Emit(p.(params := [], intermediates := [], ignore := false, currentParam := None, state := Ground),
         [Csi(PushParam(p).params, p.intermediates, p.ignore, b)])
  }

  function CsiEntryStep(p: ParserState, b: byte): Emit {
    if 0x30 <= b <= 0x39 then
      Emit(p.(currentParam := Some(b - 0x30), state := CsiParam), [])
    else if b == 0x3B then Emit(PushParam(p).(state := CsiParam), [])
    else if b == 0x3A then Emit(PushParam(p).(state := CsiIgnore), [])
    else if 0x3C <= b <= 0x3F then
      Emit(p.(intermediates := p.intermediates + [b], state := CsiParam), [])
    else if 0x20 <= b <= 0x2F then
      Emit(p.(intermediates := p.intermediates + [b], state := CsiIntermediate), [])
    else if 0x40 <= b <= 0x7E then CsiDispatch(p, b)
    else Emit(p, [])
  }

  function CsiParamStep(p: ParserState, b: byte): Emit {
    if 0x30 <= b <= 0x39 then
      Emit(p.(currentParam := Some(AddDigit(p.currentParam, b))), [])
    else if b == 0x3B then Emit(PushParam(p), [])
    else if b == 0x3A then Emit(PushParam(p).(state := CsiIgnore), [])
    else if 0x20 <= b <= 0x2F then
      Emit(p.(intermediates := p.intermediates + [b], state := CsiIntermediate), [])
    else if 0x40 <= b <= 0x7E then CsiDispatch(p, b)
    else if 0x3C <= b <= 0x3F then Emit(p.(ignore := true, state := CsiIgnore), [])
    else Emit(p, [])
  }

  function CsiIntermediateStep(p: ParserState, b: byte): Emit {
    if 0x20 <= b <= 0x2F then Emit(p.(intermediates := p.intermediates + [b]), [])
    else if 0x30 <= b <= 0x3F then Emit(p.(ignore := true, state := CsiIgnore), [])
    else if 0x40 <= b <= 0x7E then CsiDispatch(p, b)
    else Emit(p, [])
  }

  function CsiIgnoreStep(p: ParserState, b: byte): Emit {
    if 0x40 <= b <= 0x7E then
      Emit(p.(params := [], intermediates := [], ignore := false, currentParam := None, state := Ground),
           [Csi(p.params, p.intermediates, true, b)])
    else Emit(p, [])
  }

  function DcsDispatchStart(p: ParserState, b: byte): ParserState {
    p.(params := [], intermediates := [], currentParam := None, dcsBuffer := [], state := DcsPassthrough,
       pendingDcsStart := Some(DcsHeader(PushParam(p).params, p.intermediates, b)))
  }

  function DcsEntryStep(p: ParserState, b: byte): ParserState {
    if 0x30 <= b <= 0x39 then p.(currentParam := Some(b - 0x30), state := DcsParam)
    else if b == 0x3B then PushParam(p).(state := DcsParam)
    else if 0x3C <= b <= 0x3F then p.(intermediates := p.intermediates + [b], state := DcsParam)
    else if 0x20 <= b <= 0x2F then p.(intermediates := p.intermediates + [b], state := DcsIntermediate)
    else if 0x40 <= b <= 0x7E then DcsDispatchStart(p, b)
    else p
  }

  function DcsParamStep(p: ParserState, b: byte): ParserState {
    if 0x30 <= b <= 0x39 then p.(currentParam := Some(AddDigit(p.currentParam, b)))
    else if b == 0x3B then PushParam(p)
    else if 0x3C <= b <= 0x3F then p.(state := DcsIgnore)
    else if 0x20 <= b <= 0x2F then p.(intermediates := p.intermediates + [b], state := DcsIntermediate)
    else if 0x40 <= b <= 0x7E then DcsDispatchStart(p, b)
    else p
  }

  function DcsIntermediateStep(p: ParserState, b: byte): ParserState {
    if 0x20 <= b <= 0x2F then p.(intermediates := p.intermediates + [b])
    else if 0x30 <= b <= 0x3F then p.(state := DcsIgnore)
    else if 0x40 <= b <= 0x7E then DcsDispatchStart(p, b)
    else p
  }

  function DcsPassthroughStep(p: ParserState, b: byte): Emit {
    var start := if p.pendingDcsStart.Some?
                 then var h := p.pendingDcsStart.value; [DcsStart(h.params, h.intermediates, h.final)]
                 else [];
    var q := p.(pendingDcsStart := None);
    if b <= 0x17 || b == 0x19 || 0x1C <= b <= 0x7E then Emit(q.(dcsBuffer := q.dcsBuffer + [b]), start)
    else if b == 0x7F then Emit(q, start)
    else
      var data := if q.dcsBuffer == [] then [] else [DcsData(q.dcsBuffer)];
      Emit(if b == ESC then Clear(q).(state := Escape) else q.(dcsBuffer := [], state := Ground),
           start + data + [DcsEnd])
  }

  function OscStringStep(p: ParserState, b: byte): Emit {
    if b == BEL then
      Emit(p.(oscBuffer := "", state := Ground), [Osc(SplitOn(p.oscBuffer, ';'), true)])
    else if b == ESC then
      Emit(p.(oscBuffer := "", state := Escape), [Osc(SplitOn(p.oscBuffer, ';'), false)])
    else if 0x20 <= b <= 0x7F then Emit(p.(oscBuffer := p.oscBuffer + [b as char]), [])
    else Emit(p, [])
  }

  /** Feeds a whole byte stream. */
  function Run(p: ParserState, bytes: seq<byte>): (r: Emit)
    requires p.Valid()
    ensures r.next.Valid()
    decreases |bytes|
  {
    if bytes == [] then Emit(p, [])
    else
      var first := Step(p, bytes[0]);
      var rest := Run(first.next, bytes[1..]);
      Emit(rest.next, first.out + rest.out)
  }

  lemma {:induction false} RunConcat(p: ParserState, a: seq<byte>, b: seq<byte>)
    requires p.Valid()
    ensures Run(p, a + b) == Emit(Run(Run(p, a).next, b).next, Run(p, a).out + Run(Run(p, a).next, b).out)
    decreases |a|
  {
    hide Step;
    if a == [] {
      assert a + b == b;
    } else {
      assert (a + b)[1..] == a[1..] + b;
      RunConcat(Step(p, a[0]).next, a[1..], b);
    }
  }

  /** A byte that is neither an abort nor an ESC taken as one. */
  predicate Ordinary(p: ParserState, b: byte) {
    b != CAN && b != SUB && (b == ESC ==> InString(p.state))
  }

  lemma StepInGround(p: ParserState, b: byte)
    requires p.Valid() && p.state == Ground && Ordinary(p, b)
    ensures Step(p, b) == GroundStep(p, b)
  {
    hide GroundStep;
  }

  lemma StepInEscape(p: ParserState, b: byte)
    requires p.Valid() && p.state == Escape && Ordinary(p, b)
    ensures Step(p, b) == EscapeStep(p, b)
  {
    hide EscapeStep;
  }

  lemma StepInCsiEntry(p: ParserState, b: byte)
    requires p.Valid() && p.state == CsiEntry && Ordinary(p, b)
    ensures Step(p, b) == CsiEntryStep(p, b)
  {
    hide CsiEntryStep;
  }

  lemma StepInCsiParam(p: ParserState, b: byte)
    requires p.Valid() && p.state == CsiParam && Ordinary(p, b)
    ensures Step(p, b) == CsiParamStep(p, b)
  {
    hide CsiParamStep;
  }

  lemma StepInCsiIntermediate(p: ParserState, b: byte)
    requires p.Valid() && p.state == CsiIntermediate && Ordinary(p, b)
    ensures Step(p, b) == CsiIntermediateStep(p, b)
  {
    hide CsiIntermediateStep;
  }

  /** A byte that emits nothing only changes the state. */
  lemma RunQuiet(p: ParserState, bytes: seq<byte>, q: ParserState)
    requires p.Valid() && bytes != [] && q.Valid() && Step(p, bytes[0]) == Emit(q, [])
    ensures Run(p, bytes) == Run(q, bytes[1..])
  {
    hide Step;
    var rest := Run(q, bytes[1..]);
    assert [] + rest.out == rest.out;
  }

  lemma RunNothing(p: ParserState)
    requires p.Valid()
    ensures Run(p, []) == Emit(p, [])
  {
  }

  /** Two stretches of input, one after the other. */
  lemma RunThen(p: ParserState, a: seq<byte>, q: ParserState, b: seq<byte>, r: Emit)
    requires p.Valid() && q.Valid()
    requires Run(p, a) == Emit(q, []) && Run(q, b) == r
    ensures Run(p, a + b) == r
  {
    hide Run, Step;
    RunConcat(p, a, b);
    assert [] + r.out == r.out;
  }

  lemma RunOne(p: ParserState, b: byte)
    requires p.Valid()
    ensures Run(p, [b]) == Step(p, b)
  {
    hide Step;
    assert [b][1..] == [];
    assert Run(Step(p, b).next, []) == Emit(Step(p, b).next, []);
  }

  /** The parser object.  Every handler updates the fields in place and returns
      the actions it pushes. */
  class Parser {
    var state: State
    var params: seq<u16>
    var currentParam: Option<u16>
    var intermediates: seq<byte>
    var ignore: bool
    var oscBuffer: string
    var dcsBuffer: seq<byte>
    const utf8: array<byte>
    var utf8Len: nat
    var utf8Expected: nat
    var pendingDcsStart: Option<DcsHeader>

    ghost function View(): ParserState
      reads this, utf8
    {
      ParserState(state, params, currentParam, intermediates, ignore, oscBuffer, dcsBuffer,
                  utf8[..], utf8Len, utf8Expected, pendingDcsStart)
    }

    constructor ()
      ensures View() == Fresh
      ensures fresh(utf8)
    {
      state, params, currentParam, intermediates, ignore := Ground, [], None, [], false;
      oscBuffer, dcsBuffer, utf8Len, utf8Expected, pendingDcsStart := "", [], 0, 0, None;
      utf8 := new byte[4](_ => 0);
    }

    method Reset()
      requires View().Valid()
      modifies this, utf8
      ensures View() == Fresh
    {
      state, params, currentParam, intermediates, ignore := Ground, [], None, [], false;
      oscBuffer, dcsBuffer, utf8Len, utf8Expected, pendingDcsStart := "", [], 0, 0, None;
      forall i | 0 <= i < 4 {
        utf8[i] := 0;
      }
      assert utf8[..] == [0, 0, 0, 0];
    }

    /** Feeds a slice and returns every action it produced. */
    method Advance(bytes: seq<byte>) returns (out: seq<Action>)
      requires View().Valid()
      modifies this, utf8
      ensures Emit(View(), out) == Run(old(View()), bytes)
    {
      out := [];
      for i := 0 to |bytes|
        invariant View().Valid()
        invariant Emit(View(), out) == Run(old(View()), bytes[..i])
      {
        assert bytes[..i + 1] == bytes[..i] + [bytes[i]];
        RunConcat(old(View()), bytes[..i], [bytes[i]]);
        RunOne(View(), bytes[i]);
        var more := StepByte(bytes[i]);
        out := out + more;
      }
      assert bytes[..|bytes|] == bytes;
    }

    method StepByte(b: byte) returns (out: seq<Action>)
      requires View().Valid()
      modifies this, utf8
      ensures Emit(View(), out) == Step(old(View()), b)
    {
      out := [];
      if b == CAN || b == SUB {
        ClearFields();
        state := Ground;
        return [Execute(b)];
      }
      if b == ESC && !InString(state) {
        ClearFields();
        state := Escape;
        return;
      }
      match state
      case Ground => out := OnGround(b);
      case Escape => out := OnEscape(b);
      case EscapeIntermediate => out := OnEscapeIntermediate(b);
      case CsiEntry => out := OnCsiEntry(b);
      case CsiParam => out := OnCsiParam(b);
      case CsiIntermediate => out := OnCsiIntermediate(b);
      case CsiIgnore => out := OnCsiIgnore(b);
      case DcsEntry => OnDcsEntry(b);
      case DcsParam => OnDcsParam(b);
      case DcsIntermediate => OnDcsIntermediate(b);
      case DcsPassthrough => out := OnDcsPassthrough(b);
      case DcsIgnore =>
      case OscString => out := OnOscString(b);
      case SosPmApcString =>
        if b == BEL {
          state := Ground;
        }
    }

    method ClearFields()
      modifies this
      ensures View() == Clear(old(View()))
    {
      params, currentParam, intermediates, ignore := [], None, [], false;
      oscBuffer, dcsBuffer := "", [];
      utf8Len, utf8Expected := 0, 0;
    }

    method PushCurrentParam()
      modifies this
      ensures View() == PushParam(old(View()))
    {
      params := params + [if currentParam.Some? then currentParam.value else 0];
      currentParam := None;
    }

    method OnGround(b: byte) returns (out: seq<Action>)
      requires View().Valid()
      modifies this, utf8
      ensures Emit(View(), out) == GroundStep(old(View()), b)
      decreases utf8Len, 1
    {
      if utf8Len > 0 && b < 0x80 {
        out := OnUtf8(b);
        return;
      }
      if b <= 0x17 || b == 0x19 || 0x1C <= b <= 0x1F {
        out := [Execute(b)];
      } else if 0x20 <= b <= 0x7F {
        out := [Print(b)];
      } else {
        out := OnUtf8(b);
      }
    }

    method OnUtf8(b: byte) returns (out: seq<Action>)
      requires View().Valid()
      modifies this, utf8
      ensures Emit(View(), out) == Utf8Step(old(View()), b)
      decreases utf8Len, 0
    {
      out := [];
      if utf8Len == 0 {
        if SequenceLength(b) == 0 {
          return [Print(REPLACEMENT_CHARACTER)];
        }
        utf8Expected := SequenceLength(b);
        utf8[0] := b;
        utf8Len := 1;
        return;
      }
      if !IsContinuation(b) {
        utf8Len := 0;
        utf8Expected := 0;
        var again := OnGround(b);
        return [Print(REPLACEMENT_CHARACTER)] + again;
      }
      utf8[utf8Len] := b;
      utf8Len := utf8Len + 1;
      if utf8Len == utf8Expected {
        var decoded := DecodeUtf8(utf8[..utf8Len]);
        assert utf8[..utf8Len] == utf8[..][..utf8Len];
        out := [Print(if decoded.Some? then decoded.value else REPLACEMENT_CHARACTER)];
        utf8Len := 0;
        utf8Expected := 0;
      }
    }

    method OnEscape(b: byte) returns (out: seq<Action>)
      modifies this
      ensures Emit(View(), out) == EscapeStep(old(View()), b)
    {
      out := [];
      if b == 0x5B {
        state := CsiEntry;
      } else if b == 0x5D {
        oscBuffer := "";
        state := OscString;
      } else if b == 0x50 {
        state := DcsEntry;
      } else if b == 0x58 || b == 0x5E || b == 0x5F {
        state := SosPmApcString;
      } else if b == 0x5C {
        state := Ground;
      } else if 0x20 <= b <= 0x2F {
        intermediates := intermediates + [b];
        state := EscapeIntermediate;
      } else if 0x30 <= b <= 0x7E {
        out := DispatchEsc(b);
      } else {
        state := Ground;
      }
    }

    method DispatchEsc(b: byte) returns (out: seq<Action>)
      modifies this
      ensures Emit(View(), out) == EscDispatch(old(View()), b)
    {
      var taken := intermediates;
      intermediates := [];
      state := Ground;
      out := [Esc(taken, false, b)];
    }

    method OnEscapeIntermediate(b: byte) returns (out: seq<Action>)
      modifies this
      ensures Emit(View(), out) == EscapeIntermediateStep(old(View()), b)
    {
      out := [];
      if 0x20 <= b <= 0x2F {
        intermediates := intermediates + [b];
      } else if 0x30 <= b <= 0x7E {
        out := DispatchEsc(b);
      } else {
        state := Ground;
      }
    }

    method OnCsiEntry(b: byte) returns (out: seq<Action>)
      modifies this
      ensures Emit(View(), out) == CsiEntryStep(old(View()), b)
    {
      out := [];
      if 0x30 <= b <= 0x39 {
        currentParam := Some(b - 0x30);
        state := CsiParam;
      } else if b == 0x3B {
        PushCurrentParam();
        state := CsiParam;
      } else if b == 0x3A {
        PushCurrentParam();
        state := CsiIgnore;
      } else if 0x3C <= b <= 0x3F {
        intermediates := intermediates + [b];
        state := CsiParam;
      } else if 0x20 <= b <= 0x2F {
        intermediates := intermediates + [b];
        state := CsiIntermediate;
      } else if 0x40 <= b <= 0x7E {
        out := DispatchCsi(b);
      }
    }

    method OnCsiParam(b: byte) returns (out: seq<Action>)
      modifies this
      ensures Emit(View(), out) == CsiParamStep(old(View()), b)
    {
      out := [];
      if 0x30 <= b <= 0x39 {
        currentParam := Some(AddDigit(currentParam, b));
      } else if b == 0x3B {
        PushCurrentParam();
      } else if b == 0x3A {
        PushCurrentParam();
        state := CsiIgnore;
      } else if 0x20 <= b <= 0x2F {
        intermediates := intermediates + [b];
        state := CsiIntermediate;
      } else if 0x40 <= b <= 0x7E {
        out := DispatchCsi(b);
      } else if 0x3C <= b <= 0x3F {
        ignore := true;
        state := CsiIgnore;
      }
    }

    method OnCsiIntermediate(b: byte) returns (out: seq<Action>)
      modifies this
      ensures Emit(View(), out) == CsiIntermediateStep(old(View()), b)
    {
      out := [];
      if 0x20 <= b <= 0x2F {
        intermediates := intermediates + [b];
      } else if 0x30 <= b <= 0x3F {
        ignore := true;
        state := CsiIgnore;
      } else if 0x40 <= b <= 0x7E {
        out := DispatchCsi(b);
      }
    }

    method OnCsiIgnore(b: byte) returns (out: seq<Action>)
      modifies this
      ensures Emit(View(), out) == CsiIgnoreStep(old(View()), b)
    {
      out := [];
      if 0x40 <= b <= 0x7E {
        out := [Csi(params, intermediates, true, b)];
        params, intermediates := [], [];
        ignore, currentParam, state := false, None, Ground;
      }
    }

    method DispatchCsi(b: byte) returns (out: seq<Action>)
      modifies this
      ensures Emit(View(), out) == CsiDispatch(old(View()), b)
    {
      PushCurrentParam();
      out := [Csi(params, intermediates, ignore, b)];
      params, intermediates := [], [];
      ignore, currentParam, state := false, None, Ground;
    }

    method OnDcsEntry(b: byte)
      modifies this
      ensures View() == DcsEntryStep(old(View()), b)
    {
      if 0x30 <= b <= 0x39 {
        currentParam := Some(b - 0x30);
        state := DcsParam;
      } else if b == 0x3B {
        PushCurrentParam();
        state := DcsParam;
      } else if 0x3C <= b <= 0x3F {
        intermediates := intermediates + [b];
        state := DcsParam;
      } else if 0x20 <= b <= 0x2F {
        intermediates := intermediates + [b];
        state := DcsIntermediate;
      } else if 0x40 <= b <= 0x7E {
        StartDcs(b);
      }
    }

    method OnDcsParam(b: byte)
      modifies this
      ensures View() == DcsParamStep(old(View()), b)
    {
      if 0x30 <= b <= 0x39 {
        currentParam := Some(AddDigit(currentParam, b));
      } else if b == 0x3B {
        PushCurrentParam();
      } else if 0x3C <= b <= 0x3F {
        state := DcsIgnore;
      } else if 0x20 <= b <= 0x2F {
        intermediates := intermediates + [b];
        state := DcsIntermediate;
      } else if 0x40 <= b <= 0x7E {
        StartDcs(b);
      }
    }

    method OnDcsIntermediate(b: byte)
      modifies this
      ensures View() == DcsIntermediateStep(old(View()), b)
    {
      if 0x20 <= b <= 0x2F {
        intermediates := intermediates + [b];
      } else if 0x30 <= b <= 0x3F {
        state := DcsIgnore;
      } else if 0x40 <= b <= 0x7E {
        StartDcs(b);
      }
    }

    method StartDcs(b: byte)
      modifies this
      ensures View() == DcsDispatchStart(old(View()), b)
    {
      PushCurrentParam();
      pendingDcsStart := Some(DcsHeader(params, intermediates, b));
      params, intermediates := [], [];
      dcsBuffer := [];
      state := DcsPassthrough;
    }

    method OnDcsPassthrough(b: byte) returns (out: seq<Action>)
      modifies this
      ensures Emit(View(), out) == DcsPassthroughStep(old(View()), b)
    {
      out := [];
      if pendingDcsStart.Some? {
        var h := pendingDcsStart.value;
        pendingDcsStart := None;
        out := [DcsStart(h.params, h.intermediates, h.final)];
      }
      if b <= 0x17 || b == 0x19 || 0x1C <= b <= 0x7E {
        dcsBuffer := dcsBuffer + [b];
      } else if b != 0x7F {
        if dcsBuffer != [] {
          out := out + [DcsData(dcsBuffer)];
          dcsBuffer := [];
        }
        out := out + [DcsEnd];
        if b == ESC {
          ClearFields();
          state := Escape;
        } else {
          state := Ground;
        }
      }
    }

    method OnOscString(b: byte) returns (out: seq<Action>)
      modifies this
      ensures Emit(View(), out) == OscStringStep(old(View()), b)
    {
      out := [];
      if b == BEL {
        out := [Osc(SplitOn(oscBuffer, ';'), true)];
        oscBuffer := "";
        state := Ground;
      } else if b == ESC {
        out := [Osc(SplitOn(oscBuffer, ';'), false)];
        oscBuffer := "";
        state := Escape;
      } else if 0x20 <= b <= 0x7F {
        oscBuffer := oscBuffer + [b as char];
      }
    }
  }
}
