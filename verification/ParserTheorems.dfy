/** What the parser promises about whole byte streams. */
module ParserTheorems {
  import opened Basics
  import opened VtParser

  // ----- Ground is a clean restart point -------------------------------------

  /** Two parsers no continuation can tell apart.  In Ground only the partial
      UTF-8 character counts; inside a sequence everything counts except the
      stale UTF-8 buffer and, outside the data of a device control string, a
      pending header left behind by an aborted one. */
  ghost predicate Indistinguishable(p: ParserState, q: ParserState) {
    && p.Valid() && q.Valid()
    && if p.state == Ground then SameCharacter(p, q) else SameSequence(p, q)
  }

  ghost predicate SameCharacter(p: ParserState, q: ParserState)
    requires p.Valid() && q.Valid()
  {
    && q.state == p.state
    && q.utf8Len == p.utf8Len
    && (p.utf8Len > 0 ==> q.utf8Expected == p.utf8Expected && q.utf8[..q.utf8Len] == p.utf8[..p.utf8Len])
  }

  ghost predicate SameSequence(p: ParserState, q: ParserState) {
    && p.utf8Len == 0
    && q == p.(utf8 := q.utf8, utf8Expected := q.utf8Expected, pendingDcsStart := q.pendingDcsStart)
    && (p.state == DcsPassthrough ==> q.pendingDcsStart == p.pendingDcsStart)
  }

  /** The byte that starts a character, or stands for one, keeps them so. */
  lemma LeadByteKeeps(p: ParserState, q: ParserState, b: byte)
    requires Indistinguishable(p, q) && p.state == Ground && p.utf8Len == 0
    ensures GroundStep(p, b).out == GroundStep(q, b).out
    ensures Indistinguishable(GroundStep(p, b).next, GroundStep(q, b).next)
  {
    assert p.utf8[0 := b][..1] == [b] == q.utf8[0 := b][..1];
  }

  lemma ContinuationKeeps(p: ParserState, q: ParserState, b: byte)
    requires Indistinguishable(p, q) && p.state == Ground && p.utf8Len > 0 && IsContinuation(b)
    ensures GroundStep(p, b).out == GroundStep(q, b).out
    ensures Indistinguishable(GroundStep(p, b).next, GroundStep(q, b).next)
  {
    hide DecodeUtf8;
    var n := p.utf8Len;
    assert p.utf8[n := b][..n + 1] == p.utf8[..n] + [b];
    assert q.utf8[n := b][..n + 1] == q.utf8[..n] + [b];
  }

  lemma BrokenCharacterKeeps(p: ParserState, q: ParserState, b: byte)
    requires Indistinguishable(p, q) && p.state == Ground && p.utf8Len > 0 && !IsContinuation(b)
    ensures GroundStep(p, b).out == GroundStep(q, b).out
    ensures Indistinguishable(GroundStep(p, b).next, GroundStep(q, b).next)
  {
    hide DecodeUtf8;
    var p0, q0 := p.(utf8Len := 0, utf8Expected := 0), q.(utf8Len := 0, utf8Expected := 0);
    LeadByteKeeps(p0, q0, b);
    assert GroundStep(p, b) == Utf8Step(p, b) && GroundStep(q, b) == Utf8Step(q, b);
  }

  lemma GroundKeeps(p: ParserState, q: ParserState, b: byte)
    requires Indistinguishable(p, q) && p.state == Ground
    ensures GroundStep(p, b).out == GroundStep(q, b).out
    ensures Indistinguishable(GroundStep(p, b).next, GroundStep(q, b).next)
  {
    hide GroundStep;
    if p.utf8Len == 0 {
      LeadByteKeeps(p, q, b);
    } else if IsContinuation(b) {
      ContinuationKeeps(p, q, b);
    } else {
      BrokenCharacterKeeps(p, q, b);
    }
  }

  lemma EscapeKeeps(p: ParserState, q: ParserState, b: byte)
    requires Indistinguishable(p, q) && p.state == Escape
    ensures EscapeStep(p, b).out == EscapeStep(q, b).out
    ensures Indistinguishable(EscapeStep(p, b).next, EscapeStep(q, b).next)
  {
  }

  lemma EscapeIntermediateKeeps(p: ParserState, q: ParserState, b: byte)
    requires Indistinguishable(p, q) && p.state == EscapeIntermediate
    ensures EscapeIntermediateStep(p, b).out == EscapeIntermediateStep(q, b).out
    ensures Indistinguishable(EscapeIntermediateStep(p, b).next, EscapeIntermediateStep(q, b).next)
  {
  }

  lemma CsiEntryKeeps(p: ParserState, q: ParserState, b: byte)
    requires Indistinguishable(p, q) && p.state == CsiEntry
    ensures CsiEntryStep(p, b).out == CsiEntryStep(q, b).out
    ensures Indistinguishable(CsiEntryStep(p, b).next, CsiEntryStep(q, b).next)
  {
  }

  lemma CsiParamKeeps(p: ParserState, q: ParserState, b: byte)
    requires Indistinguishable(p, q) && p.state == CsiParam
    ensures CsiParamStep(p, b).out == CsiParamStep(q, b).out
    ensures Indistinguishable(CsiParamStep(p, b).next, CsiParamStep(q, b).next)
  {
  }

  lemma CsiIntermediateKeeps(p: ParserState, q: ParserState, b: byte)
    requires Indistinguishable(p, q) && p.state == CsiIntermediate
    ensures CsiIntermediateStep(p, b).out == CsiIntermediateStep(q, b).out
    ensures Indistinguishable(CsiIntermediateStep(p, b).next, CsiIntermediateStep(q, b).next)
  {
  }

  lemma CsiIgnoreKeeps(p: ParserState, q: ParserState, b: byte)
    requires Indistinguishable(p, q) && p.state == CsiIgnore
    ensures CsiIgnoreStep(p, b).out == CsiIgnoreStep(q, b).out
    ensures Indistinguishable(CsiIgnoreStep(p, b).next, CsiIgnoreStep(q, b).next)
  {
  }

  lemma DcsEntryKeeps(p: ParserState, q: ParserState, b: byte)
    requires Indistinguishable(p, q) && p.state == DcsEntry
    ensures Indistinguishable(DcsEntryStep(p, b), DcsEntryStep(q, b))
  {
  }

  lemma DcsParamKeeps(p: ParserState, q: ParserState, b: byte)
    requires Indistinguishable(p, q) && p.state == DcsParam
    ensures Indistinguishable(DcsParamStep(p, b), DcsParamStep(q, b))
  {
  }

  lemma DcsIntermediateKeeps(p: ParserState, q: ParserState, b: byte)
    requires Indistinguishable(p, q) && p.state == DcsIntermediate
    ensures Indistinguishable(DcsIntermediateStep(p, b), DcsIntermediateStep(q, b))
  {
  }

  lemma DcsPassthroughKeeps(p: ParserState, q: ParserState, b: byte)
    requires Indistinguishable(p, q) && p.state == DcsPassthrough
    ensures DcsPassthroughStep(p, b).out == DcsPassthroughStep(q, b).out
    ensures Indistinguishable(DcsPassthroughStep(p, b).next, DcsPassthroughStep(q, b).next)
  {
  }

  lemma OscStringKeeps(p: ParserState, q: ParserState, b: byte)
    requires Indistinguishable(p, q) && p.state == OscString
    ensures OscStringStep(p, b).out == OscStringStep(q, b).out
    ensures Indistinguishable(OscStringStep(p, b).next, OscStringStep(q, b).next)
  {
  }

  /** One byte keeps two indistinguishable parsers so, in each of the fourteen
      states, and they emit the same actions. */
  lemma StepKeeps(p: ParserState, q: ParserState, b: byte)
    requires Indistinguishable(p, q)
    ensures Step(p, b).out == Step(q, b).out
    ensures Indistinguishable(Step(p, b).next, Step(q, b).next)
  {
    hide GroundStep, EscapeStep, EscapeIntermediateStep, CsiEntryStep, CsiParamStep, CsiIntermediateStep;
    hide CsiIgnoreStep, DcsEntryStep, DcsParamStep, DcsIntermediateStep, DcsPassthroughStep, OscStringStep;
    if Ordinary(p, b) {
      match p.state
      case Ground => GroundKeeps(p, q, b);
      case Escape => EscapeKeeps(p, q, b);
      case EscapeIntermediate => EscapeIntermediateKeeps(p, q, b);
      case CsiEntry => CsiEntryKeeps(p, q, b);
      case CsiParam => CsiParamKeeps(p, q, b);
      case CsiIntermediate => CsiIntermediateKeeps(p, q, b);
      case CsiIgnore => CsiIgnoreKeeps(p, q, b);
      case DcsEntry => DcsEntryKeeps(p, q, b);
      case DcsParam => DcsParamKeeps(p, q, b);
      case DcsIntermediate => DcsIntermediateKeeps(p, q, b);
      case DcsPassthrough => DcsPassthroughKeeps(p, q, b);
      case OscString => OscStringKeeps(p, q, b);
      case DcsIgnore | SosPmApcString =>
    }
  }

  lemma {:induction false} RunKeeps(p: ParserState, q: ParserState, bytes: seq<byte>)
    requires Indistinguishable(p, q)
    ensures Run(p, bytes).out == Run(q, bytes).out
    ensures Indistinguishable(Run(p, bytes).next, Run(q, bytes).next)
    decreases |bytes|
  {
    hide Step;
    if bytes != [] {
      StepKeeps(p, q, bytes[0]);
      RunKeeps(Step(p, bytes[0]).next, Step(q, bytes[0]).next, bytes[1..]);
    }
  }

  lemma StepOnEscape(p: ParserState)
    requires p.Valid() && !InString(p.state)
    ensures Step(p, ESC) == Emit(Clear(p).(state := Escape), [])
  {
  }

  /** No sequence and no character is in progress. */
  predicate Clean(p: ParserState) {
    p.state == Ground && p.utf8Len == 0
  }

  /** A parser behaves like a new one on every continuation exactly when it is
      in Ground with no partial character: whatever else is left in its fields
      is never seen again. */
  lemma CleanIffLikeNew(p: ParserState)
    requires p.Valid()
    ensures Clean(p) <==> forall bytes :: Run(p, bytes).out == Run(Fresh, bytes).out
  {
    hide Run;
    if Clean(p) {
      forall bytes ensures Run(p, bytes).out == Run(Fresh, bytes).out {
        RunKeeps(p, Fresh, bytes);
      }
    } else {
      ProbeShows(p);
      ProbeIsPrinted();
      assert Run(p, [PROBE]).out != Run(Fresh, [PROBE]).out;
    }
  }

  /** A letter tells a parser that is in the middle of something from a new one. */
  const PROBE: byte := 0x41

  lemma ProbeIsPrinted()
    ensures Run(Fresh, [PROBE]).out == [Print(PROBE)]
  {
    RunOne(Fresh, PROBE);
  }

  lemma ProbeShows(p: ParserState)
    requires p.Valid() && !Clean(p)
    ensures Run(p, [PROBE]).out != [Print(PROBE)]
  {
    hide Step;
    RunOne(p, PROBE);
    ProbeStep(p);
  }

  lemma ProbeStep(p: ParserState)
    requires p.Valid() && !Clean(p)
    ensures Step(p, PROBE).out != [Print(PROBE)]
  {
    hide DecodeUtf8;
    if p.state == Ground {
      assert !IsContinuation(PROBE);
      assert Utf8Step(p, PROBE).out[0] == Print(REPLACEMENT_CHARACTER);
    }
  }

  /** CAN or SUB aborts whatever was in progress: what follows is parsed as by a
      new parser, from any state. */
  lemma AbortIsRestart(p: ParserState, abort: byte, bytes: seq<byte>)
    requires p.Valid() && (abort == CAN || abort == SUB)
    ensures Run(p, [abort] + bytes).out == [Execute(abort)] + Run(Fresh, bytes).out
  {
    RunConcat(p, [abort], bytes);
    RunOne(p, abort);
    RunKeeps(Step(p, abort).next, Fresh, bytes);
  }

  // ----- Strings that only an abort or BEL can end ---------------------------

  lemma {:induction false} SosSwallows(p: ParserState, body: seq<byte>)
    requires p.Valid() && p.state == SosPmApcString
    requires BEL !in body && CAN !in body && SUB !in body
    ensures Run(p, body) == Emit(p, [])
    decreases |body|
  {
    hide Run;
    if body == [] {
      RunNothing(p);
    } else {
      assert body[0] in body;
      RunQuiet(p, body, p);
      SosSwallows(p, body[1..]);
    }
  }

  lemma OpenSos(opener: byte) returns (inside: ParserState)
    requires opener == 0x58 || opener == 0x5E || opener == 0x5F
    ensures inside.Valid() && inside.state == SosPmApcString && inside.utf8Len == 0
    ensures Run(Fresh, [ESC, opener]) == Emit(inside, [])
  {
    hide Run, Step;
    var escape := Clear(Fresh).(state := Escape);
    inside := Clear(Fresh).(state := SosPmApcString);
    assert Step(Fresh, ESC) == Emit(escape, []) by {
      StepOnEscape(Fresh);
    }
    StepInEscape(escape, opener);
    assert [ESC, opener][1..] == [opener] && [opener][1..] == [];
    RunQuiet(Fresh, [ESC, opener], escape);
    RunQuiet(escape, [opener], inside);
    RunNothing(inside);
  }

  /** A SOS (`X`), PM (`^`) or APC (`_`) string leaves no trace, and ESC does
      not end it: only BEL (or an abort) does, so an `ESC \` inside the body is
      swallowed like any other byte. */
  lemma SosStringVanishes(opener: byte, body: seq<byte>, rest: seq<byte>)
    requires opener == 0x58 || opener == 0x5E || opener == 0x5F
    requires BEL !in body && CAN !in body && SUB !in body
    ensures Run(Fresh, [ESC, opener] + body + [BEL] + rest).out == Run(Fresh, rest).out
  {
    hide Run;
    var inside := OpenSos(opener);
    var after := inside.(state := Ground);
    SosSwallows(inside, body);
    assert [BEL][1..] == [];
    RunQuiet(inside, [BEL], after);
    RunNothing(after);
    hide Step;
    RunThen(Fresh, [ESC, opener], inside, body, Emit(inside, []));
    RunThen(Fresh, [ESC, opener] + body, inside, [BEL], Emit(after, []));
    RunThen(Fresh, [ESC, opener] + body + [BEL], after, rest, Run(after, rest));
    CleanIffLikeNew(after);
  }
}
