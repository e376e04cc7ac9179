/** What becomes of bytes that are no well-formed UTF-8. */
module DecodeErrorTheorems {
  import opened Basics
  import opened VtParser
  import opened ParserTheorems
  import opened Utf8Theorems
  import opened StringTheorems

  /** A byte that announces a character of n bytes. */
  predicate Announces(b: byte, n: nat) {
    (n == 2 && 0xC0 <= b <= 0xDF) || (n == 3 && 0xE0 <= b <= 0xEF) || (n == 4 && 0xF0 <= b <= 0xF7)
  }

  predicate Continues(b: byte) {
    0x80 <= b <= 0xBF
  }

  lemma AnnouncesIs(b: byte, n: nat)
    ensures n > 0 ==> (Announces(b, n) <==> SequenceLength(b) == n)
    ensures Continues(b) <==> IsContinuation(b)
  {
  }

  /** The bytes begin a character of n bytes. */
  predicate Begun(s: seq<byte>, n: nat) {
    s != [] && Announces(s[0], n) && forall i :: 1 <= i < |s| ==> Continues(s[i])
  }

  lemma {:induction false} HoldAll(p: ParserState, prefix: seq<byte>, more: seq<byte>, n: nat) returns (q: ParserState)
    requires Holding(p, prefix) && Begun(prefix + more, n) && |prefix + more| < n
    ensures Holding(q, prefix + more) && Run(p, more) == Emit(q, [])
    decreases |more|
  {
    hide Run, Step, SequenceLength, IsContinuation, Announces, Continues;
    if more == [] {
      q := p;
      RunNothing(p);
      assert prefix + more == prefix;
    } else {
      var s, b := prefix + more, more[0];
      assert s[|prefix|] == b && (prefix != [] ==> s[0] == prefix[0]);
      AnnouncesIs(s[0], n);
      AnnouncesIs(b, n);
      HoldMore(p, prefix, b);
      var next := Step(p, b).next;
      RunQuiet(p, more, next);
      assert (prefix + [b]) + more[1..] == s;
      q := HoldAll(next, prefix + [b], more[1..], n);
    }
  }

  lemma CleanHolds(p: ParserState)
    requires p.Valid() && Clean(p)
    ensures Holding(p, [])
  {
  }

  /** A byte that neither begins nor continues a character is shown as U+FFFD. */
  lemma StrayByte(p: ParserState, b: byte, rest: seq<byte>)
    requires p.Valid() && Clean(p) && (Continues(b) || b >= 0xF8)
    ensures Run(p, [b] + rest).out == [Print(0xFFFD)] + Run(Fresh, rest).out
  {
    hide Run, Step;
    RunOne(p, b);
    StepInGround(p, b);
    ThenRest(p, [b], rest);
  }

  /** A character that is broken off is shown as one U+FFFD, and the byte that breaks it is read as if it came first. */
  lemma BrokenCharacter(p: ParserState, s: seq<byte>, n: nat, b: byte, rest: seq<byte>)
    requires p.Valid() && Clean(p) && Begun(s, n) && |s| < n
    requires !Continues(b) && b != ESC && b != CAN && b != SUB
    ensures Run(p, s + ([b] + rest)).out == [Print(0xFFFD)] + Run(Fresh, [b] + rest).out
  {
    hide Run, Step, Begun, Continues, Holding;
    CleanHolds(p);
    assert [] + s == s;
    var q := HoldAll(p, [], s, n);
    BegunIsSome(s, n);
    BrokenRun(q, b, s, rest);
    HoldingIsValid(q, s);
    RunThen(p, s, q, [b] + rest, Run(q, [b] + rest));
  }

  lemma BegunIsSome(s: seq<byte>, n: nat)
    ensures Begun(s, n) ==> s != []
  {
  }

  lemma HoldingIsValid(q: ParserState, s: seq<byte>)
    ensures Holding(q, s) ==> q.Valid()
  {
  }

  lemma BrokenRun(q: ParserState, b: byte, s: seq<byte>, rest: seq<byte>)
    requires Holding(q, s) && s != [] && !Continues(b) && b != ESC && b != CAN && b != SUB
    ensures q.Valid() && Run(q, [b] + rest).out == [Print(0xFFFD)] + Run(Fresh, [b] + rest).out
  {
    hide Run, Step;
    var q0 := q.(utf8Len := 0, utf8Expected := 0);
    BrokenStep(q, b, s);
    Begins(q, q0, [b] + rest, [Print(0xFFFD)]);
    RunKeeps(q0, Fresh, [b] + rest);
  }

  lemma BrokenStep(q: ParserState, b: byte, s: seq<byte>)
    requires Holding(q, s) && s != [] && !Continues(b) && b != ESC && b != CAN && b != SUB
    ensures var q0 := q.(utf8Len := 0, utf8Expected := 0);
            && q0.Valid() && Clean(q0)
            && Step(q, b) == Emit(Step(q0, b).next, [Print(0xFFFD)] + Step(q0, b).out)
  {
    hide Step;
    var q0 := q.(utf8Len := 0, utf8Expected := 0);
    AnnouncesIs(b, 2);
    StepInGround(q, b);
    StepInGround(q0, b);
    assert GroundStep(q, b) == Utf8Step(q, b);
  }

  /** One step that emits more and goes on as another. */
  lemma Begins(p: ParserState, q: ParserState, bytes: seq<byte>, out: seq<Action>)
    requires p.Valid() && q.Valid() && bytes != []
    requires Step(p, bytes[0]) == Emit(Step(q, bytes[0]).next, out + Step(q, bytes[0]).out)
    ensures Run(p, bytes).out == out + Run(q, bytes).out
  {
    hide Step;
    AppendAssociates(out, Step(q, bytes[0]).out, Run(Step(q, bytes[0]).next, bytes[1..]).out);
  }

  /** Broken off by ESC, CAN or SUB, it is not shown at all. */
  lemma AbandonedCharacter(p: ParserState, s: seq<byte>, n: nat, b: byte, rest: seq<byte>)
    requires p.Valid() && Clean(p) && Begun(s, n) && |s| < n && (b == ESC || b == CAN || b == SUB)
    ensures Run(p, s + ([b] + rest)).out == Run(Fresh, [b] + rest).out
  {
    hide Run, Step, Begun;
    CleanHolds(p);
    assert [] + s == s;
    var q := HoldAll(p, [], s, n);
    RunThen(p, s, q, [b] + rest, Run(q, [b] + rest));
    if b == ESC {
      EscapeRestarts(q, rest);
    } else {
      AbortIsRestart(q, b, rest);
      AbortIsRestart(Fresh, b, rest);
    }
  }

  /** A whole sequence that encodes no scalar value, overlong, surrogate or too large, is shown as one U+FFFD. */
  lemma MalformedCharacter(p: ParserState, s: seq<byte>, n: nat, rest: seq<byte>)
    requires p.Valid() && Clean(p) && Begun(s, n) && |s| == n && forall c: Scalar :: s != EncodeUtf8(c)
    ensures Run(p, s + rest).out == [Print(0xFFFD)] + Run(Fresh, rest).out
  {
    hide Run, Step, EncodeUtf8, DecodeUtf8;
    var prefix, last := s[..n - 1], s[n - 1];
    AnnouncesIs(s[0], n);
    AnnouncesIs(last, n);
    CleanHolds(p);
    assert [] + prefix == prefix && prefix[0] == s[0] && s == prefix + [last];
    var q := HoldAll(p, [], prefix, n);
    NotDecoded(s);
    Rejected(q, prefix, last);
    RunOne(q, last);
    RunThen(p, prefix, q, [last], Run(q, [last]));
    ThenRest(p, s, rest);
  }

  lemma NotDecoded(s: seq<byte>)
    requires forall c: Scalar :: s != EncodeUtf8(c)
    ensures DecodeUtf8(s) == None
  {
    hide DecodeUtf8, EncodeUtf8;
    if DecodeUtf8(s).Some? {
      DecodeIffEncoded(s, DecodeUtf8(s).value);
    }
  }

  lemma Rejected(q: ParserState, prefix: seq<byte>, b: byte)
    requires Holding(q, prefix) && prefix != [] && IsContinuation(b) && |prefix| + 1 == SequenceLength(prefix[0])
    requires DecodeUtf8(prefix + [b]) == None
    ensures Step(q, b).out == [Print(0xFFFD)] && Clean(Step(q, b).next)
  {
    hide Step, DecodeUtf8;
    StepInGround(q, b);
    var n := |prefix|;
    assert GroundStep(q, b) == Utf8Step(q, b);
    assert q.utf8[n := b][..n + 1] == prefix + [b];
  }
}
