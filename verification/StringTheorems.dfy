/** The strings and the short sequences, read through from their first byte to
    their last: one round trip for each form that a program can send. */
module StringTheorems {
  import opened Basics
  import opened Text
  import opened VtParser
  import opened ParserTheorems
  import opened CsiTheorems

  // ----- Sequences one after the other ---------------------------------------

  /** What follows a sequence that leaves nothing behind is read as by a new parser. */
  lemma ThenRest(p: ParserState, a: seq<byte>, rest: seq<byte>)
    requires p.Valid() && Clean(Run(p, a).next)
    ensures Run(p, a + rest).out == Run(p, a).out + Run(Fresh, rest).out
  {
    hide Run;
    RunConcat(p, a, rest);
    CleanIffLikeNew(Run(p, a).next);
  }

  /** ESC and the byte after it, from any state but inside a string. */
  lemma Opened(p: ParserState, opener: byte, inside: ParserState)
    requires p.Valid() && !InString(p.state) && inside.Valid()
    requires Ordinary(Clear(p).(state := Escape), opener) && opener != ESC
    requires EscapeStep(Clear(p).(state := Escape), opener) == Emit(inside, [])
    ensures Run(p, [ESC, opener]) == Emit(inside, [])
  {
    hide Run, Step, EscapeStep;
    var escape := Clear(p).(state := Escape);
    StepOnEscape(p);
    StepInEscape(escape, opener);
    assert [ESC, opener][1..] == [opener] && [opener][1..] == [];
    RunQuiet(p, [ESC, opener], escape);
    RunQuiet(escape, [opener], inside);
    RunNothing(inside);
  }

  /** ESC breaks off whatever is in progress outside a string and starts anew. */
  lemma EscapeRestarts(p: ParserState, rest: seq<byte>)
    requires p.Valid() && !InString(p.state)
    ensures Run(p, [ESC] + rest).out == Run(Fresh, [ESC] + rest).out
  {
    hide Run, Step;
    var q := Clear(p).(state := Escape);
    var r := Clear(Fresh).(state := Escape);
    StepOnEscape(p);
    StepOnEscape(Fresh);
    assert ([ESC] + rest)[0] == ESC && ([ESC] + rest)[1..] == rest;
    RunQuiet(p, [ESC] + rest, q);
    RunQuiet(Fresh, [ESC] + rest, r);
    RunKeeps(q, r, rest);
  }

  /** A byte that neither ends a string nor aborts it. */
  predicate InBody(b: byte) {
    b != BEL && b != ESC && b != CAN && b != SUB
  }

  // ----- Operating system commands -------------------------------------------

  /** The characters of a command: its bytes from 0x20 to 0x7F; the others are dropped. */
  function Characters(body: seq<byte>): string {
    if body == [] then ""
    else (if 0x20 <= body[0] <= 0x7F then [body[0] as char] else "") + Characters(body[1..])
  }

  lemma OscByte(p: ParserState, b: byte)
    requires p.Valid() && p.state == OscString && InBody(b)
    ensures Step(p, b) == Emit(p.(oscBuffer := p.oscBuffer + if 0x20 <= b <= 0x7F then [b as char] else ""), [])
  {
  }

  lemma NoCharacters()
    ensures Characters([]) == ""
  {
  }

  lemma CharactersUnfold(body: seq<byte>, before: string)
    requires body != []
    ensures before + (if 0x20 <= body[0] <= 0x7F then [body[0] as char] else "") + Characters(body[1..])
         == before + Characters(body)
  {
  }

  lemma {:induction false} OscRead(p: ParserState, body: seq<byte>)
    requires p.Valid() && p.state == OscString && forall b :: b in body ==> InBody(b)
    ensures Run(p, body) == Emit(p.(oscBuffer := p.oscBuffer + Characters(body)), [])
    decreases |body|
  {
    hide Run, Step, InBody, Characters;
    if body == [] {
      RunNothing(p);
      NoCharacters();
    } else {
      var q := p.(oscBuffer := p.oscBuffer + if 0x20 <= body[0] <= 0x7F then [body[0] as char] else "");
      OscByte(p, body[0]);
      RunQuiet(p, body, q);
      OscRead(q, body[1..]);
      CharactersUnfold(body, p.oscBuffer);
    }
  }

  /** BEL, or ESC and the backslash that ST consists of. */
  function OscEnd(bell: bool): seq<byte> {
    if bell then [BEL] else [ESC, 0x5C]
  }

  lemma OscEnded(p: ParserState, bell: bool, fields: seq<string>)
    requires p.Valid() && p.state == OscString && p.utf8Len == 0 && SplitOn(p.oscBuffer, ';') == fields
    ensures Run(p, OscEnd(bell)).out == [Osc(fields, bell)] && Clean(Run(p, OscEnd(bell)).next)
  {
    hide Run, Step, SplitOn;
    if bell {
      RunOne(p, BEL);
      OscBell(p);
    } else {
      var escape := p.(oscBuffer := "", state := Escape);
      OscEscape(p);
      StepInEscape(escape, 0x5C);
      RunOne(p, ESC);
      RunOne(escape, 0x5C);
      RunConcat(p, [ESC], [0x5C]);
      assert [ESC] + [0x5C] == [ESC, 0x5C];
    }
  }

  lemma OscBell(p: ParserState)
    requires p.Valid() && p.state == OscString
    ensures Step(p, BEL) == Emit(p.(oscBuffer := "", state := Ground), [Osc(SplitOn(p.oscBuffer, ';'), true)])
  {
    hide SplitOn;
  }

  lemma OscEscape(p: ParserState)
    requires p.Valid() && p.state == OscString
    ensures Step(p, ESC) == Emit(p.(oscBuffer := "", state := Escape), [Osc(SplitOn(p.oscBuffer, ';'), false)])
  {
    hide SplitOn;
  }

  /** An operating system command comes out once, as the fields that its
      characters were joined from, whether BEL or ST ends it; nothing of it, the
      backslash of ST included, reaches the screen. */
  lemma OscRoundTrip(p: ParserState, body: seq<byte>, fields: seq<string>, bell: bool, rest: seq<byte>)
    requires p.Valid() && !InString(p.state)
    requires forall b :: b in body ==> InBody(b)
    requires fields != [] && forall i :: 0 <= i < |fields| ==> ';' !in fields[i]
    requires Join(fields, ";") == Characters(body)
    ensures Run(p, [ESC, 0x5D] + body + (if bell then [BEL] else [ESC, 0x5C]) + rest).out
         == [Osc(fields, bell)] + Run(Fresh, rest).out
  {
    hide Run, Step, SplitOn, Join, Characters, InBody;
    var inside := Clear(p).(state := OscString);
    Opened(p, 0x5D, inside);
    OscRead(inside, body);
    var full := inside.(oscBuffer := Characters(body));
    assert "" + Characters(body) == Characters(body);
    SplitJoin(fields, ';');
    OscEnded(full, bell, fields);
    var r := Run(full, OscEnd(bell));
    RunThen(p, [ESC, 0x5D], inside, body, Emit(full, []));
    RunThen(p, [ESC, 0x5D] + body, full, OscEnd(bell), r);
    ThenRest(p, [ESC, 0x5D] + body + OscEnd(bell), rest);
  }

  // ----- Device control strings ----------------------------------------------

  /** The data of a device control string: every byte of the body but DEL. */
  function Data(body: seq<byte>): seq<byte> {
    if body == [] then []
    else (if body[0] == 0x7F then [] else [body[0]]) + Data(body[1..])
  }

  /** A byte that a device control string takes: below 0x80, and no abort or ESC. */
  predicate InData(b: byte) {
    b < 0x80 && b != ESC && b != CAN && b != SUB
  }

  function Header(p: ParserState): seq<Action> {
    if p.pendingDcsStart.Some?
    then [DcsStart(p.pendingDcsStart.value.params, p.pendingDcsStart.value.intermediates, p.pendingDcsStart.value.final)]
    else []
  }

  lemma DcsByte(p: ParserState, b: byte)
    requires p.Valid() && p.state == DcsPassthrough && InData(b)
    ensures Step(p, b) == Emit(p.(pendingDcsStart := None, dcsBuffer := p.dcsBuffer + if b == 0x7F then [] else [b]), Header(p))
  {
  }

  lemma NoData()
    ensures Data([]) == []
  {
  }

  lemma DataUnfold(body: seq<byte>, before: seq<byte>)
    requires body != []
    ensures before + (if body[0] == 0x7F then [] else [body[0]]) + Data(body[1..]) == before + Data(body)
  {
  }

  lemma {:induction false} DcsRead(p: ParserState, body: seq<byte>)
    requires p.Valid() && p.state == DcsPassthrough && forall b :: b in body ==> InData(b)
    requires p.pendingDcsStart == None
    ensures Run(p, body) == Emit(p.(dcsBuffer := p.dcsBuffer + Data(body)), [])
    decreases |body|
  {
    hide Run, Step, InData, Data;
    if body == [] {
      RunNothing(p);
      NoData();
    } else {
      var q := p.(dcsBuffer := p.dcsBuffer + if body[0] == 0x7F then [] else [body[0]]);
      DcsByte(p, body[0]);
      RunQuiet(p, body, q);
      DcsRead(q, body[1..]);
      DataUnfold(body, p.dcsBuffer);
    }
  }

  lemma RunEmits(p: ParserState, bytes: seq<byte>, q: ParserState, out: seq<Action>, r: ParserState)
    requires p.Valid() && q.Valid() && bytes != [] && Step(p, bytes[0]) == Emit(q, out)
    requires Run(q, bytes[1..]) == Emit(r, [])
    ensures Run(p, bytes) == Emit(r, out)
  {
    hide Step;
    assert out + [] == out;
  }

  /** The body, with the header going out at its first byte. */
  lemma DcsBody(p: ParserState, body: seq<byte>)
    requires p.Valid() && p.state == DcsPassthrough && p.dcsBuffer == [] && body != []
    requires forall b :: b in body ==> InData(b)
    ensures Run(p, body) == Emit(p.(pendingDcsStart := None, dcsBuffer := Data(body)), Header(p))
  {
    hide Run, Step, InData, Header;
    DcsByte(p, body[0]);
    var q := p.(pendingDcsStart := None, dcsBuffer := if body[0] == 0x7F then [] else [body[0]]);
    assert [] + q.dcsBuffer == q.dcsBuffer;
    DcsRead(q, body[1..]);
    RunEmits(p, body, q, Header(p), q.(dcsBuffer := q.dcsBuffer + Data(body[1..])));
  }

  lemma DcsEscape(p: ParserState)
    requires p.Valid() && p.state == DcsPassthrough
    ensures Step(p, ESC) == Emit(Clear(p).(pendingDcsStart := None, state := Escape),
                                 Header(p) + (if p.dcsBuffer == [] then [] else [DcsData(p.dcsBuffer)]) + [DcsEnd])
  {
  }

  lemma DcsClosed(p: ParserState)
    requires p.Valid() && p.state == DcsPassthrough
    ensures Clean(Run(p, [ESC, 0x5C]).next)
    ensures Run(p, [ESC, 0x5C]).out == Header(p) + (if p.dcsBuffer == [] then [] else [DcsData(p.dcsBuffer)]) + [DcsEnd]
  {
    hide Run, Step;
    var escape := Clear(p).(pendingDcsStart := None, state := Escape);
    DcsEscape(p);
    StepInEscape(escape, 0x5C);
    RunOne(p, ESC);
    RunOne(escape, 0x5C);
    RunConcat(p, [ESC], [0x5C]);
    assert [ESC] + [0x5C] == [ESC, 0x5C];
    assert Step(p, ESC).out + [] == Step(p, ESC).out;
  }

  lemma DcsBodyClosed(p: ParserState, body: seq<byte>)
    requires p.Valid() && p.state == DcsPassthrough && p.dcsBuffer == []
    requires forall b :: b in body ==> InData(b)
    ensures Clean(Run(p, body + [ESC, 0x5C]).next)
    ensures Run(p, body + [ESC, 0x5C]).out
         == Header(p) + (if Data(body) == [] then [] else [DcsData(Data(body))]) + [DcsEnd]
  {
    hide Run, Step, InData;
    if body == [] {
      assert body + [ESC, 0x5C] == [ESC, 0x5C];
      DcsClosed(p);
    } else {
      var q := p.(pendingDcsStart := None, dcsBuffer := Data(body));
      DcsBody(p, body);
      DcsClosed(q);
      RunConcat(p, body, [ESC, 0x5C]);
      assert Header(q) == [];
    }
  }

  predicate InParams(b: byte) {
    0x30 <= b <= 0x39 || b == 0x3B
  }

  lemma {:induction false} ParamBytesAre(ps: seq<Digits>)
    requires ps != []
    ensures forall b :: b in ParamBytes(ps) ==> InParams(b)
  {
    if |ps| > 1 {
      ParamBytesAre(ps[1..]);
    }
  }

  /** The parameters of a device control string are read as those of a control sequence. */
  lemma {:induction false} DcsParamsAsCsi(p: ParserState, bytes: seq<byte>)
    requires p.Valid() && p.state == DcsParam && forall b :: b in bytes ==> InParams(b)
    ensures var q := Run(p.(state := CsiParam), bytes);
            && q.out == [] && q.next.state == CsiParam
            && Run(p, bytes) == Emit(q.next.(state := DcsParam), [])
    decreases |bytes|
  {
    hide Run, Step, InParams;
    var c := p.(state := CsiParam);
    if bytes == [] {
      RunNothing(p);
      RunNothing(c);
    } else {
      DcsParamAsCsi(p, bytes[0]);
      var q := Step(p, bytes[0]).next;
      RunQuiet(p, bytes, q);
      RunQuiet(c, bytes, q.(state := CsiParam));
      DcsParamsAsCsi(q, bytes[1..]);
    }
  }

  lemma DcsParamAsCsi(p: ParserState, b: byte)
    requires p.Valid() && p.state == DcsParam && InParams(b)
    ensures var q := Step(p, b);
            && q.out == [] && q.next.state == DcsParam
            && Step(p.(state := CsiParam), b) == Emit(q.next.(state := CsiParam), [])
  {
  }

  lemma DcsParams(p: ParserState, ps: seq<Digits>) returns (q: ParserState)
    requires p.Valid() && p.state == DcsParam && p.currentParam == None && ps != []
    ensures q.Valid() && Run(p, ParamBytes(ps)) == Emit(q, [])
    ensures q == p.(params := q.params, currentParam := q.currentParam)
    ensures PushParam(q).params == p.params + ParamValues(ps)
  {
    hide Run, Step, ParamBytes, ParamValues, InParams;
    var c := ReadParams(p.(state := CsiParam), ps);
    ParamBytesAre(ps);
    DcsParamsAsCsi(p, ParamBytes(ps));
    q := c.(state := DcsParam);
  }

  lemma DcsIntermediateByte(p: ParserState, b: byte)
    requires p.Valid() && (p.state == DcsParam || p.state == DcsIntermediate) && 0x20 <= b <= 0x2F
    ensures Step(p, b) == Emit(p.(intermediates := p.intermediates + [b], state := DcsIntermediate), [])
  {
  }

  lemma {:induction false} DcsIntermediates(p: ParserState, s: seq<byte>) returns (q: ParserState)
    requires p.Valid() && (p.state == DcsParam || p.state == DcsIntermediate) && Intermediates(s)
    ensures q.Valid() && Run(p, s) == Emit(q, [])
    ensures q == p.(intermediates := p.intermediates + s, state := q.state)
    ensures q.state == DcsParam || q.state == DcsIntermediate
    decreases |s|
  {
    hide Run, Step;
    if s == [] {
      q := p;
      RunNothing(p);
    } else {
      var next := p.(intermediates := p.intermediates + [s[0]], state := DcsIntermediate);
      DcsIntermediateByte(p, s[0]);
      RunQuiet(p, s, next);
      q := DcsIntermediates(next, s[1..]);
      assert p.intermediates + s == next.intermediates + s[1..];
    }
  }

  lemma DcsFinal(p: ParserState, final: byte)
    requires p.Valid() && (p.state == DcsParam || p.state == DcsIntermediate) && 0x40 <= final <= 0x7E
    ensures Step(p, final) == Emit(DcsDispatchStart(p, final), [])
  {
    hide DcsDispatchStart;
  }

  /** The header, read up to the point where the data begins. */
  lemma DcsHeaderRead(p: ParserState, ps: seq<Digits>, ints: seq<byte>, final: byte) returns (q: ParserState)
    requires p.Valid() && p.state == DcsParam && p.params == [] && p.currentParam == None
    requires ps != [] && Intermediates(ints) && 0x40 <= final <= 0x7E
    ensures q.Valid() && Run(p, Body(ps, ints, final)) == Emit(q, [])
    ensures q.state == DcsPassthrough && q.dcsBuffer == [] && q.utf8Len == p.utf8Len
    ensures Header(q) == [DcsStart(ParamValues(ps), p.intermediates + ints, final)]
  {
    hide Run, Step, ParamBytes, ParamValues;
    var params := DcsParams(p, ps);
    var i := DcsIntermediates(params, ints);
    DcsFinal(i, final);
    q := DcsDispatchStart(i, final);
    RunOne(i, final);
    RunThen(p, ParamBytes(ps), params, ints, Emit(i, []));
    RunThen(p, ParamBytes(ps) + ints, i, [final], Emit(q, []));
    assert PushParam(i).params == PushParam(params).params == [] + ParamValues(ps) == ParamValues(ps);
  }

  lemma DcsEntryAsParam(entry: ParserState, bytes: seq<byte>)
    requires entry.Valid() && entry.state == DcsEntry && entry.currentParam == None
    requires bytes != [] && (0x20 <= bytes[0] <= 0x3B || 0x40 <= bytes[0] <= 0x7E) && bytes[0] != 0x3A
    ensures Run(entry, bytes) == Run(entry.(state := DcsParam), bytes)
  {
    hide Step, Run;
    DcsEntryStepAsParam(entry, bytes[0]);
    SameStepSameRun(entry, entry.(state := DcsParam), bytes);
  }

  lemma DcsEntryStepAsParam(entry: ParserState, b: byte)
    requires entry.Valid() && entry.state == DcsEntry && entry.currentParam == None
    requires (0x20 <= b <= 0x3B || 0x40 <= b <= 0x7E) && b != 0x3A
    ensures Step(entry, b) == Step(entry.(state := DcsParam), b)
  {
  }

  lemma DcsMarker(entry: ParserState, marker: byte)
    requires entry.Valid() && entry.state == DcsEntry && 0x3C <= marker <= 0x3F
    ensures Run(entry, [marker]) == Emit(entry.(intermediates := entry.intermediates + [marker], state := DcsParam), [])
  {
    hide Run, Step;
    RunOne(entry, marker);
    DcsMarkerStep(entry, marker);
  }

  lemma DcsMarkerStep(entry: ParserState, marker: byte)
    requires entry.Valid() && entry.state == DcsEntry && 0x3C <= marker <= 0x3F
    ensures Step(entry, marker) == Emit(entry.(intermediates := entry.intermediates + [marker], state := DcsParam), [])
  {
  }

  lemma {:induction false} BodyStartsSo(ps: seq<Digits>, ints: seq<byte>, final: byte)
    requires ps != [] && Intermediates(ints) && 0x40 <= final <= 0x7E
    ensures Body(ps, ints, final) != []
    ensures var b := Body(ps, ints, final)[0]; (0x20 <= b <= 0x3B || 0x40 <= b <= 0x7E) && b != 0x3A
  {
    ParamBytesAre(ps);
    if ParamBytes(ps) == [] {
      assert Body(ps, ints, final) == ints + [final];
    } else {
      assert Body(ps, ints, final)[0] == ParamBytes(ps)[0];
    }
  }

  /** From ESC to the point where the data begins, whatever came before. */
  lemma DcsOpened(p: ParserState, marker: Option<byte>, ps: seq<Digits>, ints: seq<byte>, final: byte) returns (q: ParserState)
    requires p.Valid() && !InString(p.state)
    requires (marker.Some? ==> 0x3C <= marker.value <= 0x3F) && ps != [] && Intermediates(ints) && 0x40 <= final <= 0x7E
    ensures var m := if marker.Some? then [marker.value] else [];
            && q.Valid() && q.state == DcsPassthrough && q.dcsBuffer == [] && q.utf8Len == 0
            && Run(p, [ESC, 0x50] + m + Body(ps, ints, final)) == Emit(q, [])
            && Header(q) == [DcsStart(ParamValues(ps), m + ints, final)]
  {
    hide Run, Step, Body;
    var intro, body := [ESC, 0x50], Body(ps, ints, final);
    var entry := Clear(p).(state := DcsEntry);
    Opened(p, 0x50, entry);
    if marker.Some? {
      var r := entry.(intermediates := [marker.value], state := DcsParam);
      assert entry.intermediates + [marker.value] == [marker.value];
      DcsMarker(entry, marker.value);
      q := DcsHeaderRead(r, ps, ints, final);
      RunThen(p, intro, entry, [marker.value], Emit(r, []));
      RunThen(p, intro + [marker.value], r, body, Emit(q, []));
    } else {
      BodyStartsSo(ps, ints, final);
      DcsEntryAsParam(entry, body);
      q := DcsHeaderRead(entry.(state := DcsParam), ps, ints, final);
      RunThen(p, intro, entry, body, Emit(q, []));
      assert intro + [] + body == intro + body;
      assert entry.intermediates + ints == [] + ints;
    }
  }

  /** A device control string comes out as its header, its data in one piece
      when there is any, and its end, once each and in this order; ST ends it,
      and a BEL inside it is data. */
  lemma DcsRoundTrip(p: ParserState, marker: Option<byte>, ps: seq<Digits>, ints: seq<byte>, final: byte,
                     body: seq<byte>, rest: seq<byte>)
    requires p.Valid() && !InString(p.state)
    requires (marker.Some? ==> 0x3C <= marker.value <= 0x3F) && ps != [] && Intermediates(ints) && 0x40 <= final <= 0x7E
    requires forall b :: b in body ==> InData(b)
    ensures var m := if marker.Some? then [marker.value] else [];
            Run(p, [ESC, 0x50] + m + Body(ps, ints, final) + (body + [ESC, 0x5C]) + rest).out
            == [DcsStart(ParamValues(ps), m + ints, final)]
               + (if Data(body) == [] then [] else [DcsData(Data(body))]) + [DcsEnd]
               + Run(Fresh, rest).out
  {
    hide Run, Step, Body, InData;
    var m := if marker.Some? then [marker.value] else [];
    var open := [ESC, 0x50] + m + Body(ps, ints, final);
    var q := DcsOpened(p, marker, ps, ints, final);
    DcsBodyClosed(q, body);
    RunThen(p, open, q, body + [ESC, 0x5C], Run(q, body + [ESC, 0x5C]));
    ThenRest(p, open + (body + [ESC, 0x5C]), rest);
  }

  /** A byte from 0x80 up ends the data as well, and is lost. */
  lemma HighByteEnds(p: ParserState, marker: Option<byte>, ps: seq<Digits>, ints: seq<byte>, final: byte,
                     body: seq<byte>, high: byte, rest: seq<byte>)
    requires p.Valid() && !InString(p.state) && high >= 0x80
    requires (marker.Some? ==> 0x3C <= marker.value <= 0x3F) && ps != [] && Intermediates(ints) && 0x40 <= final <= 0x7E
    requires body != [] && forall b :: b in body ==> InData(b)
    ensures var m := if marker.Some? then [marker.value] else [];
            Run(p, [ESC, 0x50] + m + Body(ps, ints, final) + (body + [high]) + rest).out
            == [DcsStart(ParamValues(ps), m + ints, final)]
               + (if Data(body) == [] then [] else [DcsData(Data(body))]) + [DcsEnd]
               + Run(Fresh, rest).out
  {
    hide Run, Step, Body, InData;
    var m := if marker.Some? then [marker.value] else [];
    var open := [ESC, 0x50] + m + Body(ps, ints, final);
    var q := DcsOpened(p, marker, ps, ints, final);
    var d := q.(pendingDcsStart := None, dcsBuffer := Data(body));
    DcsBody(q, body);
    DcsHigh(d, high);
    RunOne(d, high);
    RunConcat(q, body, [high]);
    RunThen(p, open, q, body + [high], Run(q, body + [high]));
    ThenRest(p, open + (body + [high]), rest);
    AppendAssociates(Header(q), if Data(body) == [] then [] else [DcsData(Data(body))], [DcsEnd]);
  }

  lemma DcsHigh(p: ParserState, b: byte)
    requires p.Valid() && p.state == DcsPassthrough && p.pendingDcsStart == None && p.utf8Len == 0 && b >= 0x80
    ensures Step(p, b).out == (if p.dcsBuffer == [] then [] else [DcsData(p.dcsBuffer)]) + [DcsEnd]
    ensures Clean(Step(p, b).next)
  {
    var data: seq<Action> := if p.dcsBuffer == [] then [] else [DcsData(p.dcsBuffer)];
    assert [] + data + [DcsEnd] == data + [DcsEnd];
  }

  /** A private marker behind the parameters spoils a device control string:
      nothing of it comes out, up to the ST that ends it. */
  lemma SpoiledDcsVanishes(p: ParserState, ps: seq<Digits>, late: byte, junk: seq<byte>, rest: seq<byte>)
    requires p.Valid() && !InString(p.state) && ps != [] && ParamBytes(ps) != [] && 0x3C <= late <= 0x3F
    requires forall b :: b in junk ==> b != ESC && b != CAN && b != SUB
    ensures Run(p, [ESC, 0x50] + ParamBytes(ps) + [late] + junk + [ESC, 0x5C] + rest).out == Run(Fresh, rest).out
  {
    hide Run, Step, ParamBytes;
    var body := [ESC, 0x50] + ParamBytes(ps) + [late] + junk;
    var spoiled := DcsSpoiled(p, ps, late, junk);
    LoneTerminator(spoiled, rest);
    RunThen(p, body, spoiled, [ESC, 0x5C] + rest, Run(spoiled, [ESC, 0x5C] + rest));
    AppendAssociates(body, [ESC, 0x5C], rest);
  }

  lemma DcsSpoiled(p: ParserState, ps: seq<Digits>, late: byte, junk: seq<byte>) returns (spoiled: ParserState)
    requires p.Valid() && !InString(p.state) && ps != [] && ParamBytes(ps) != [] && 0x3C <= late <= 0x3F
    requires forall b :: b in junk ==> b != ESC && b != CAN && b != SUB
    ensures spoiled.Valid() && spoiled.state == DcsIgnore
    ensures Run(p, [ESC, 0x50] + ParamBytes(ps) + [late] + junk) == Emit(spoiled, [])
  {
    hide Run, Step, ParamBytes, ParamValues;
    var entry := Clear(p).(state := DcsEntry);
    Opened(p, 0x50, entry);
    ParamBytesAre(ps);
    assert InParams(ParamBytes(ps)[0]) by {
      assert ParamBytes(ps)[0] in ParamBytes(ps);
    }
    DcsEntryAsParam(entry, ParamBytes(ps));
    var q := DcsParams(entry.(state := DcsParam), ps);
    spoiled := q.(state := DcsIgnore);
    DcsSpoils(q, late);
    RunOne(q, late);
    DcsIgnores(spoiled, junk);
    RunThen(p, [ESC, 0x50], entry, ParamBytes(ps), Emit(q, []));
    RunThen(p, [ESC, 0x50] + ParamBytes(ps), q, [late], Emit(spoiled, []));
    RunThen(p, [ESC, 0x50] + ParamBytes(ps) + [late], spoiled, junk, Emit(spoiled, []));
  }

  lemma DcsSpoils(p: ParserState, late: byte)
    requires p.Valid() && p.state == DcsParam && 0x3C <= late <= 0x3F
    ensures Step(p, late) == Emit(p.(state := DcsIgnore), [])
  {
  }

  lemma {:induction false} DcsIgnores(p: ParserState, junk: seq<byte>)
    requires p.Valid() && p.state == DcsIgnore && forall b :: b in junk ==> b != ESC && b != CAN && b != SUB
    ensures Run(p, junk) == Emit(p, [])
    decreases |junk|
  {
    hide Run, Step;
    if junk == [] {
      RunNothing(p);
    } else {
      assert junk[0] in junk;
      DcsIgnoredByte(p, junk[0]);
      RunQuiet(p, junk, p);
      assert forall b :: b in junk[1..] ==> b in junk;
      DcsIgnores(p, junk[1..]);
    }
  }

  lemma DcsIgnoredByte(p: ParserState, b: byte)
    requires p.Valid() && p.state == DcsIgnore && b != ESC && b != CAN && b != SUB
    ensures Step(p, b) == Emit(p, [])
  {
  }

  // ----- Escape sequences ----------------------------------------------------

  /** The bytes after ESC that begin something longer, or end a string. */
  predicate Opener(b: byte) {
    b == 0x5B || b == 0x5D || b == 0x50 || b == 0x58 || b == 0x5E || b == 0x5F || b == 0x5C
  }

  lemma {:induction false} EscIntermediates(p: ParserState, s: seq<byte>) returns (q: ParserState)
    requires p.Valid() && (p.state == Escape || p.state == EscapeIntermediate) && Intermediates(s)
    ensures q.Valid() && Run(p, s) == Emit(q, [])
    ensures q == p.(intermediates := p.intermediates + s, state := if s == [] then p.state else EscapeIntermediate)
    decreases |s|
  {
    hide Run, Step;
    if s == [] {
      q := p;
      RunNothing(p);
    } else {
      var next := p.(intermediates := p.intermediates + [s[0]], state := EscapeIntermediate);
      EscIntermediateByte(p, s[0]);
      RunQuiet(p, s, next);
      q := EscIntermediates(next, s[1..]);
      assert p.intermediates + s == next.intermediates + s[1..];
    }
  }

  lemma EscIntermediateByte(p: ParserState, b: byte)
    requires p.Valid() && (p.state == Escape || p.state == EscapeIntermediate) && 0x20 <= b <= 0x2F
    ensures Step(p, b) == Emit(p.(intermediates := p.intermediates + [b], state := EscapeIntermediate), [])
  {
  }

  lemma EscFinal(p: ParserState, final: byte)
    requires p.Valid() && (p.state == EscapeIntermediate || (p.state == Escape && !Opener(final))) && 0x30 <= final <= 0x7E
    ensures Step(p, final) == Emit(p.(intermediates := [], state := Ground), [Esc(p.intermediates, false, final)])
  {
  }

  lemma EscapeEntered(p: ParserState)
    requires p.Valid() && !InString(p.state)
    ensures Run(p, [ESC]) == Emit(Clear(p).(state := Escape), [])
  {
    hide Step;
    RunOne(p, ESC);
    StepOnEscape(p);
  }

  /** ESC, any intermediates and a final byte come out as one escape sequence. */
  lemma EscRoundTrip(p: ParserState, ints: seq<byte>, final: byte, rest: seq<byte>)
    requires p.Valid() && !InString(p.state)
    requires Intermediates(ints) && 0x30 <= final <= 0x7E && (ints == [] ==> !Opener(final))
    ensures Run(p, [ESC] + ints + [final] + rest).out == [Esc(ints, false, final)] + Run(Fresh, rest).out
  {
    hide Run, Step;
    var escape := Clear(p).(state := Escape);
    EscapeEntered(p);
    var q := EscIntermediates(escape, ints);
    EscFinal(q, final);
    RunOne(q, final);
    assert [] + ints == ints;
    RunThen(p, [ESC], escape, ints, Emit(q, []));
    RunThen(p, [ESC] + ints, q, [final], Run(q, [final]));
    ThenRest(p, [ESC] + ints + [final], rest);
  }

  /** A control code or a byte from 0x7F up breaks an escape sequence off, and is lost with it. */
  lemma BrokenEscape(p: ParserState, ints: seq<byte>, b: byte, rest: seq<byte>)
    requires p.Valid() && !InString(p.state) && Intermediates(ints)
    requires (b < 0x20 || b >= 0x7F) && b != ESC && b != CAN && b != SUB
    ensures Run(p, [ESC] + ints + [b] + rest).out == Run(Fresh, rest).out
  {
    hide Run, Step;
    var escape := Clear(p).(state := Escape);
    EscapeEntered(p);
    var q := EscIntermediates(escape, ints);
    EscBroken(q, b);
    RunOne(q, b);
    RunThen(p, [ESC], escape, ints, Emit(q, []));
    RunThen(p, [ESC] + ints, q, [b], Run(q, [b]));
    ThenRest(p, [ESC] + ints + [b], rest);
    assert [] + Run(Fresh, rest).out == Run(Fresh, rest).out;
  }

  lemma EscBroken(p: ParserState, b: byte)
    requires p.Valid() && (p.state == EscapeIntermediate || p.state == Escape)
    requires (b < 0x20 || b >= 0x7F) && b != ESC && b != CAN && b != SUB
    ensures Step(p, b) == Emit(p.(state := Ground), [])
  {
  }

  /** Inside a control sequence such a byte is lost alone. */
  lemma DroppedInSequence(p: ParserState, b: byte, rest: seq<byte>)
    requires p.Valid() && (p.state == CsiEntry || p.state == CsiParam || p.state == CsiIntermediate)
    requires (b < 0x20 || b >= 0x7F) && b != ESC && b != CAN && b != SUB
    ensures Run(p, [b] + rest) == Run(p, rest)
  {
    hide Run, Step;
    DroppedByte(p, b);
    assert ([b] + rest)[1..] == rest;
    RunQuiet(p, [b] + rest, p);
  }

  lemma DroppedByte(p: ParserState, b: byte)
    requires p.Valid() && (p.state == CsiEntry || p.state == CsiParam || p.state == CsiIntermediate)
    requires (b < 0x20 || b >= 0x7F) && b != ESC && b != CAN && b != SUB
    ensures Step(p, b) == Emit(p, [])
  {
  }

  /** ST on its own emits nothing. */
  lemma LoneTerminator(p: ParserState, rest: seq<byte>)
    requires p.Valid() && !InString(p.state)
    ensures Run(p, [ESC, 0x5C] + rest).out == Run(Fresh, rest).out
  {
    hide Run, Step;
    var done := Clear(p).(state := Ground);
    Opened(p, 0x5C, done);
    ThenRest(p, [ESC, 0x5C], rest);
    assert [] + Run(Fresh, rest).out == Run(Fresh, rest).out;
  }

  // ----- Control sequences that are ignored ----------------------------------

  /** A byte that an ignored sequence runs past. */
  predicate Junk(b: byte) {
    !(0x40 <= b <= 0x7E) && b != ESC && b != CAN && b != SUB
  }

  lemma {:induction false} JunkIgnored(p: ParserState, junk: seq<byte>)
    requires p.Valid() && p.state == CsiIgnore && forall b :: b in junk ==> Junk(b)
    ensures Run(p, junk) == Emit(p, [])
    decreases |junk|
  {
    hide Run, Step;
    if junk == [] {
      RunNothing(p);
    } else {
      JunkByte(p, junk[0]);
      RunQuiet(p, junk, p);
      JunkIgnored(p, junk[1..]);
    }
  }

  lemma JunkByte(p: ParserState, b: byte)
    requires p.Valid() && p.state == CsiIgnore && Junk(b)
    ensures Step(p, b) == Emit(p, [])
  {
  }

  lemma IgnoredFinal(p: ParserState, final: byte)
    requires p.Valid() && p.state == CsiIgnore && p.utf8Len == 0 && 0x40 <= final <= 0x7E
    ensures Run(p, [final]).out == [Csi(p.params, p.intermediates, true, final)] && Clean(Run(p, [final]).next)
  {
    RunOne(p, final);
  }

  /** Once a sequence is spoiled it runs to its final byte and comes out marked as ignored. */
  lemma SpoiledRuns(p: ParserState, start: seq<byte>, q: ParserState, junk: seq<byte>, final: byte, rest: seq<byte>)
    requires p.Valid() && q.Valid() && Run(p, start) == Emit(q, [])
    requires q.state == CsiIgnore && q.utf8Len == 0
    requires (forall b :: b in junk ==> Junk(b)) && 0x40 <= final <= 0x7E
    ensures Run(p, start + junk + [final] + rest).out
         == [Csi(q.params, q.intermediates, true, final)] + Run(Fresh, rest).out
  {
    hide Run, Step, Junk;
    JunkIgnored(q, junk);
    IgnoredFinal(q, final);
    RunThen(p, start, q, junk, Emit(q, []));
    RunThen(p, start + junk, q, [final], Run(q, [final]));
    ThenRest(p, start + junk + [final], rest);
  }

  /** What the parser holds after `ESC [`, a marker and parameters, when at least
      one byte of these follows `ESC [`. */
  lemma ParamsHeld(p: ParserState, marker: Option<byte>, ps: seq<Digits>) returns (q: ParserState)
    requires p.Valid() && p.state == Ground && ps != []
    requires marker.Some? ==> 0x3C <= marker.value <= 0x3F
    requires marker.None? ==> ParamBytes(ps) != []
    ensures var m := if marker.Some? then [marker.value] else [];
            && q.Valid() && q.state == CsiParam && q.utf8Len == 0 && q.intermediates == m
            && PushParam(q).params == ParamValues(ps)
            && Run(p, [ESC, 0x5B] + m + ParamBytes(ps)) == Emit(q, [])
  {
    hide Run, Step, ParamBytes, ParamValues;
    var intro := [ESC, 0x5B];
    var entry := Introducer(p);
    if marker.Some? {
      var r := ReadMarker(entry, marker.value);
      q := ReadParams(r, ps);
      RunThen(p, intro, entry, [marker.value], Emit(r, []));
      RunThen(p, intro + [marker.value], r, ParamBytes(ps), Emit(q, []));
    } else {
      ParamBytesAre(ps);
      assert ParamBytes(ps)[0] in ParamBytes(ps);
      EntryReadsAsParam(entry, ParamBytes(ps));
      q := ReadParams(entry.(state := CsiParam), ps);
      RunThen(p, intro, entry, ParamBytes(ps), Emit(q, []));
      assert intro + [] + ParamBytes(ps) == intro + ParamBytes(ps);
    }
    assert [] + ParamValues(ps) == ParamValues(ps);
  }

  /** A colon spoils a control sequence: it comes out marked as ignored, with
      the parameters read so far. */
  lemma ColonSpoils(p: ParserState, marker: Option<byte>, ps: seq<Digits>, junk: seq<byte>, final: byte, rest: seq<byte>)
    requires p.Valid() && p.state == Ground && ps != []
    requires marker.Some? ==> 0x3C <= marker.value <= 0x3F
    requires marker.None? ==> ParamBytes(ps) != []
    requires (forall b :: b in junk ==> Junk(b)) && 0x40 <= final <= 0x7E
    ensures var m := if marker.Some? then [marker.value] else [];
            Run(p, [ESC, 0x5B] + m + ParamBytes(ps) + [0x3A] + junk + [final] + rest).out
            == [Csi(ParamValues(ps), m, true, final)] + Run(Fresh, rest).out
  {
    hide Run, Step, ParamBytes, ParamValues, Junk;
    var m := if marker.Some? then [marker.value] else [];
    var start := [ESC, 0x5B] + m + ParamBytes(ps);
    var q := ParamsHeld(p, marker, ps);
    var spoiled := PushParam(q).(state := CsiIgnore);
    StepInCsiParam(q, 0x3A);
    RunOne(q, 0x3A);
    RunThen(p, start, q, [0x3A], Emit(spoiled, []));
    SpoiledRuns(p, start + [0x3A], spoiled, junk, final, rest);
  }

  /** So does a private marker anywhere but in front; the parameter it
      interrupts is lost. */
  lemma LateMarkerSpoils(p: ParserState, marker: Option<byte>, ps: seq<Digits>, late: byte, junk: seq<byte>, final: byte, rest: seq<byte>)
    requires p.Valid() && p.state == Ground && ps != [] && 0x3C <= late <= 0x3F
    requires marker.Some? ==> 0x3C <= marker.value <= 0x3F
    requires marker.None? ==> ParamBytes(ps) != []
    requires (forall b :: b in junk ==> Junk(b)) && 0x40 <= final <= 0x7E
    ensures var m := if marker.Some? then [marker.value] else [];
            Run(p, [ESC, 0x5B] + m + ParamBytes(ps) + [late] + junk + [final] + rest).out
            == [Csi(ParamValues(ps[..|ps| - 1]), m, true, final)] + Run(Fresh, rest).out
  {
    hide Run, Step, ParamBytes, ParamValues, Junk;
    var m := if marker.Some? then [marker.value] else [];
    var start := [ESC, 0x5B] + m + ParamBytes(ps);
    var q := ParamsHeld(p, marker, ps);
    var spoiled := q.(ignore := true, state := CsiIgnore);
    StepInCsiParam(q, late);
    RunOne(q, late);
    RunThen(p, start, q, [late], Emit(spoiled, []));
    LastIsLost(ps);
    assert q.params == PushParam(q).params[..|PushParam(q).params| - 1];
    SpoiledRuns(p, start + [late], spoiled, junk, final, rest);
  }

  lemma {:induction false} LastIsLost(ps: seq<Digits>)
    requires ps != []
    ensures |ParamValues(ps)| == |ps|
    ensures ParamValues(ps)[..|ps| - 1] == ParamValues(ps[..|ps| - 1])
  {
    hide ParamValue;
    if |ps| == 1 {
      assert ps[1..] == [];
    } else {
      LastIsLost(ps[1..]);
      assert ps[..|ps| - 1][1..] == ps[1..][..|ps| - 2];
    }
  }

  /** And so does a parameter byte behind an intermediate. */
  lemma LateParameterSpoils(p: ParserState, marker: Option<byte>, ps: seq<Digits>, ints: seq<byte>, late: byte,
                            junk: seq<byte>, final: byte, rest: seq<byte>)
    requires p.Valid() && p.state == Ground && ps != [] && ints != [] && Intermediates(ints) && 0x30 <= late <= 0x3F
    requires marker.Some? ==> 0x3C <= marker.value <= 0x3F
    requires marker.None? ==> ParamBytes(ps) != []
    requires (forall b :: b in junk ==> Junk(b)) && 0x40 <= final <= 0x7E
    ensures var m := if marker.Some? then [marker.value] else [];
            Run(p, [ESC, 0x5B] + m + ParamBytes(ps) + ints + [late] + junk + [final] + rest).out
            == [Csi(ParamValues(ps[..|ps| - 1]), m + ints, true, final)] + Run(Fresh, rest).out
  {
    hide Run, Step, ParamBytes, ParamValues, Junk;
    var m := if marker.Some? then [marker.value] else [];
    var start := [ESC, 0x5B] + m + ParamBytes(ps);
    var q := ParamsHeld(p, marker, ps);
    var i := AfterIntermediates(q, ints);
    var spoiled := i.(ignore := true, state := CsiIgnore);
    StepInCsiIntermediate(i, late);
    RunOne(i, late);
    RunThen(p, start, q, ints, Emit(i, []));
    RunThen(p, start + ints, i, [late], Emit(spoiled, []));
    LastIsLost(ps);
    assert q.params == PushParam(q).params[..|PushParam(q).params| - 1];
    SpoiledRuns(p, start + ints + [late], spoiled, junk, final, rest);
  }

  lemma AfterIntermediates(p: ParserState, s: seq<byte>) returns (q: ParserState)
    requires p.Valid() && p.state == CsiParam && s != [] && Intermediates(s)
    ensures q.Valid() && Run(p, s) == Emit(q, [])
    ensures q == p.(intermediates := p.intermediates + s, state := CsiIntermediate)
  {
    hide Run, Step;
    var first := p.(intermediates := p.intermediates + [s[0]], state := CsiIntermediate);
    StepInCsiParam(p, s[0]);
    RunQuiet(p, s, first);
    q := StaysIntermediate(first, s[1..]);
    assert p.intermediates + s == first.intermediates + s[1..];
  }

  lemma {:induction false} StaysIntermediate(p: ParserState, s: seq<byte>) returns (q: ParserState)
    requires p.Valid() && p.state == CsiIntermediate && Intermediates(s)
    ensures q.Valid() && Run(p, s) == Emit(q, [])
    ensures q == p.(intermediates := p.intermediates + s)
    decreases |s|
  {
    hide Run, Step;
    if s == [] {
      q := p;
      RunNothing(p);
    } else {
      var next := p.(intermediates := p.intermediates + [s[0]]);
      StepInCsiIntermediate(p, s[0]);
      RunQuiet(p, s, next);
      q := StaysIntermediate(next, s[1..]);
      assert p.intermediates + s == next.intermediates + s[1..];
    }
  }
}
