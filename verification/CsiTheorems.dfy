/** Control sequences against the syntax of section 5.4 of ECMA-48. */
module CsiTheorems {
  import opened Basics
  import opened VtParser
  import opened ParserTheorems

  type Digits = s: seq<byte> | forall i :: 0 <= i < |s| ==> 0x30 <= s[i] <= 0x39

  /** The value of a decimal numeral, continuing from `v`. */
  function ValueFrom(v: nat, digits: Digits): nat
    decreases |digits|
  {
    if digits == [] then v
    else ValueFrom(v * 10 + (digits[0] - 0x30), digits[1..])
  }

  /** What a parameter string stands for: empty is 0, and u16 saturates. */
  function ParamValue(digits: Digits): u16 {
    Min(ValueFrom(0, digits), U16_MAX)
  }

  function ParamValues(ps: seq<Digits>): seq<u16> {
    if ps == [] then [] else [ParamValue(ps[0])] + ParamValues(ps[1..])
  }

  /** Parameters separated by `;`. */
  function ParamBytes(ps: seq<Digits>): seq<byte>
    requires ps != []
  {
    if |ps| == 1 then ps[0] else ps[0] + [0x3B] + ParamBytes(ps[1..])
  }

  lemma {:induction false} ValueGrows(v: nat, digits: Digits)
    ensures ValueFrom(v, digits) >= v
    decreases |digits|
  {
    if digits != [] {
      ValueGrows(v * 10 + (digits[0] - 0x30), digits[1..]);
    }
  }

  /** Reading a numeral saturates at the end result, however long it is and
      wherever the overflow happens. */
  lemma {:induction false} ReadDigits(p: ParserState, v: nat, digits: Digits)
    requires p.Valid() && p.state == CsiParam && digits != []
    requires (if p.currentParam.Some? then p.currentParam.value else 0) == Min(v, U16_MAX)
    ensures Run(p, digits)
         == Emit(p.(currentParam := Some(Min(ValueFrom(v, digits), U16_MAX))), [])
    decreases |digits|
  {
    hide Run, Step;
    var v' := v * 10 + (digits[0] - 0x30);
    var q := p.(currentParam := Some(Min(v', U16_MAX)));
    StepInCsiParam(p, digits[0]);
    RunQuiet(p, digits, q);
    if |digits| == 1 {
      assert digits[1..] == [];
      RunNothing(q);
    } else {
      ReadDigits(q, v', digits[1..]);
    }
  }

  lemma ReadParam(p: ParserState, digits: Digits) returns (q: ParserState)
    requires p.Valid() && p.state == CsiParam && p.currentParam == None
    ensures q.Valid() && Run(p, digits) == Emit(q, [])
    ensures q == p.(currentParam := q.currentParam)
    ensures PushParam(q) == p.(params := p.params + [ParamValue(digits)])
  {
    hide Run, Step;
    if digits == [] {
      q := p;
      RunNothing(p);
    } else {
      ReadDigits(p, 0, digits);
      q := p.(currentParam := Some(ParamValue(digits)));
    }
  }

  lemma {:induction false} ReadParams(p: ParserState, ps: seq<Digits>) returns (q: ParserState)
    requires p.Valid() && p.state == CsiParam && p.currentParam == None && ps != []
    ensures q.Valid() && Run(p, ParamBytes(ps)) == Emit(q, [])
    ensures q == p.(params := q.params, currentParam := q.currentParam)
    ensures PushParam(q).params == p.params + ParamValues(ps)
    decreases |ps|
  {
    hide Run, Step, ParamValue, ParamBytes, ParamValues, PushParam;
    var first := ReadParam(p, ps[0]);
    ParamsUnfold(ps);
    if |ps| == 1 {
      q := first;
    } else {
      var pushed := PushParam(first);
      ReadSeparator(first);
      q := ReadParams(pushed, ps[1..]);
      RunThen(p, ps[0], first, [0x3B], Emit(pushed, []));
      RunThen(p, ps[0] + [0x3B], pushed, ParamBytes(ps[1..]), Emit(q, []));
      PushedThen(p.params, ps);
    }
  }

  lemma ParamsUnfold(ps: seq<Digits>)
    requires ps != []
    ensures |ps| == 1 ==> ParamBytes(ps) == ps[0] && ParamValues(ps) == [ParamValue(ps[0])]
    ensures |ps| > 1 ==> ParamBytes(ps) == ps[0] + [0x3B] + ParamBytes(ps[1..])
  {
    hide ParamValue;
    if |ps| == 1 {
      assert ParamValues(ps[1..]) == [];
    }
  }

  lemma PushedThen(params: seq<u16>, ps: seq<Digits>)
    requires ps != []
    ensures params + [ParamValue(ps[0])] + ParamValues(ps[1..]) == params + ParamValues(ps)
  {
    hide ParamValue;
  }

  lemma ReadSeparator(p: ParserState)
    requires p.Valid() && p.state == CsiParam
    ensures Run(p, [0x3B]) == Emit(PushParam(p), [])
  {
    hide Run, Step;
    RunOne(p, 0x3B);
    StepInCsiParam(p, 0x3B);
  }

  predicate Intermediates(s: seq<byte>) {
    forall i :: 0 <= i < |s| ==> 0x20 <= s[i] <= 0x2F
  }

  lemma {:induction false} ReadIntermediates(p: ParserState, s: seq<byte>) returns (q: ParserState)
    requires p.Valid() && (p.state == CsiParam || p.state == CsiIntermediate) && Intermediates(s)
    ensures q.Valid() && Run(p, s) == Emit(q, [])
    ensures q == p.(intermediates := p.intermediates + s, state := q.state)
    ensures q.state == CsiParam || q.state == CsiIntermediate
    decreases |s|
  {
    hide Run, Step;
    if s == [] {
      q := p;
      RunNothing(p);
    } else {
      var next := p.(intermediates := p.intermediates + [s[0]], state := CsiIntermediate);
      if p.state == CsiParam {
        StepInCsiParam(p, s[0]);
      } else {
        StepInCsiIntermediate(p, s[0]);
      }
      RunQuiet(p, s, next);
      q := ReadIntermediates(next, s[1..]);
      assert p.intermediates + s == next.intermediates + s[1..];
    }
  }

  /** The state after `ESC [`: the fields are clear, whatever came before. */
  lemma Introducer(p: ParserState) returns (entry: ParserState)
    requires p.Valid() && p.state == Ground
    ensures entry.Valid() && entry.state == CsiEntry && entry.utf8Len == 0
    ensures entry.params == [] && entry.currentParam == None && entry.intermediates == [] && !entry.ignore
    ensures Run(p, [ESC, 0x5B]) == Emit(entry, [])
  {
    hide Run, Step;
    entry := Clear(p).(state := CsiEntry);
    var escape := Clear(p).(state := Escape);
    StepOnEscape(p);
    StepInEscape(escape, 0x5B);
    assert [ESC, 0x5B][1..] == [0x5B] && [0x5B][1..] == [];
    RunQuiet(p, [ESC, 0x5B], escape);
    RunQuiet(escape, [0x5B], entry);
    RunNothing(entry);
  }

  /** Without a private marker the entry state reads on as the parameter state. */
  lemma EntryReadsAsParam(entry: ParserState, bytes: seq<byte>)
    requires entry.Valid() && entry.state == CsiEntry && entry.currentParam == None
    requires bytes != [] && (0x20 <= bytes[0] <= 0x3B || 0x40 <= bytes[0] <= 0x7E)
    ensures Run(entry, bytes) == Run(entry.(state := CsiParam), bytes)
  {
    hide Step, Run;
    EntryStepsAsParam(entry, bytes[0]);
    SameStepSameRun(entry, entry.(state := CsiParam), bytes);
  }

  lemma EntryStepsAsParam(entry: ParserState, b: byte)
    requires entry.Valid() && entry.state == CsiEntry && entry.currentParam == None
    requires 0x20 <= b <= 0x3B || 0x40 <= b <= 0x7E
    ensures Step(entry, b) == Step(entry.(state := CsiParam), b)
  {
    hide Step;
    StepInCsiEntry(entry, b);
    StepInCsiParam(entry.(state := CsiParam), b);
  }

  lemma SameStepSameRun(p: ParserState, q: ParserState, bytes: seq<byte>)
    requires p.Valid() && q.Valid() && bytes != [] && Step(p, bytes[0]) == Step(q, bytes[0])
    ensures Run(p, bytes) == Run(q, bytes)
  {
    hide Step;
  }

  /** The bytes between `ESC [` and the private marker's successor. */
  function Body(ps: seq<Digits>, intermediates: seq<byte>, final: byte): seq<byte>
    requires ps != []
  {
    ParamBytes(ps) + intermediates + [final]
  }

  lemma ReadFinal(p: ParserState, final: byte)
    requires p.Valid() && (p.state == CsiParam || p.state == CsiIntermediate)
    requires 0x40 <= final <= 0x7E
    ensures Run(p, [final]) == CsiDispatch(p, final)
  {
    hide Run, Step, CsiDispatch;
    RunOne(p, final);
    if p.state == CsiParam {
      StepInCsiParam(p, final);
    } else {
      StepInCsiIntermediate(p, final);
    }
  }

  lemma ReadBody(p: ParserState, ps: seq<Digits>, intermediates: seq<byte>, final: byte) returns (r: Emit)
    requires p.Valid() && p.state == CsiParam && p.params == [] && p.currentParam == None && !p.ignore
    requires ps != [] && Intermediates(intermediates) && 0x40 <= final <= 0x7E
    ensures r == Run(p, Body(ps, intermediates, final))
    ensures r.out == [Csi(ParamValues(ps), p.intermediates + intermediates, false, final)]
    ensures r.next.state == Ground && r.next.utf8Len == p.utf8Len
  {
    hide Run, Step;
    var q := ReadParams(p, ps);
    var i := ReadIntermediates(q, intermediates);
    r := CsiDispatch(i, final);
    ReadFinal(i, final);
    RunThen(p, ParamBytes(ps), q, intermediates, Emit(i, []));
    RunThen(p, ParamBytes(ps) + intermediates, i, [final], r);
    assert PushParam(i).params == PushParam(q).params == [] + ParamValues(ps) == ParamValues(ps);
  }

  lemma {:induction false} BodyStart(ps: seq<Digits>, intermediates: seq<byte>, final: byte)
    requires ps != [] && Intermediates(intermediates) && 0x40 <= final <= 0x7E
    ensures var b := Body(ps, intermediates, final)[0]; 0x20 <= b <= 0x3B || 0x40 <= b <= 0x7E
  {
    if ParamBytes(ps) == [] {
      assert Body(ps, intermediates, final) == intermediates + [final];
    }
  }

  /** Printing a control sequence and parsing it gives it back: any optional
      private marker, any non-empty list of decimal parameters of any length,
      any intermediates and final byte, from any Ground state.  The parser is
      left in Ground, so the sequence stands alone. */
  lemma CsiRoundTrip(p: ParserState, marker: Option<byte>, ps: seq<Digits>, intermediates: seq<byte>, final: byte)
    requires p.Valid() && p.state == Ground
    requires marker.Some? ==> 0x3C <= marker.value <= 0x3F
    requires ps != [] && Intermediates(intermediates) && 0x40 <= final <= 0x7E
    ensures var m := if marker.Some? then [marker.value] else [];
            var r := Run(p, [ESC, 0x5B] + m + Body(ps, intermediates, final));
            && r.out == [Csi(ParamValues(ps), m + intermediates, false, final)]
            && Clean(r.next)
  {
    hide Run, Step;
    var entry := Introducer(p);
    var intro, body := [ESC, 0x5B], Body(ps, intermediates, final);
    if marker.Some? {
      var q := ReadMarker(entry, marker.value);
      assert q.intermediates == [marker.value];
      var r := ReadBody(q, ps, intermediates, final);
      RunThen(p, intro, entry, [marker.value], Emit(q, []));
      RunThen(p, intro + [marker.value], q, body, r);
    } else {
      BodyStart(ps, intermediates, final);
      EntryReadsAsParam(entry, body);
      var r := ReadBody(entry.(state := CsiParam), ps, intermediates, final);
      RunThen(p, intro, entry, body, r);
      assert intro + [] + body == intro + body;
      assert [] + intermediates == intermediates && entry.intermediates + intermediates == intermediates;
    }
  }

  lemma ReadMarker(entry: ParserState, marker: byte) returns (q: ParserState)
    requires entry.Valid() && entry.state == CsiEntry && 0x3C <= marker <= 0x3F
    ensures q == entry.(intermediates := entry.intermediates + [marker], state := CsiParam)
    ensures Run(entry, [marker]) == Emit(q, [])
  {
    q := entry.(intermediates := entry.intermediates + [marker], state := CsiParam);
    hide Run, Step;
    RunOne(entry, marker);
    StepInCsiEntry(entry, marker);
  }
}
