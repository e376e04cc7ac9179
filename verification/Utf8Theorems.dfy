/** The ground-state decoder against section 3 of RFC 3629. */
module Utf8Theorems {
  import opened Basics
  import opened VtParser
  import opened ParserTheorems

  /** The UTF-8 encoding of one scalar value. */
  function EncodeUtf8(c: Scalar): (s: seq<byte>)
    ensures 1 <= |s| <= 4
  {
    if c < 0x80 then [c]
    else if c < 0x800 then [0xC0 + c / 0x40, 0x80 + c % 0x40]
    else if c < 0x1_0000 then [0xE0 + c / 0x1000, 0x80 + c / 0x40 % 0x40, 0x80 + c % 0x40]
    else [0xF0 + c / 0x4_0000, 0x80 + c / 0x1000 % 0x40, 0x80 + c / 0x40 % 0x40, 0x80 + c % 0x40]
  }

  function EncodeAll(text: seq<Scalar>): seq<byte> {
    if text == [] then [] else EncodeUtf8(text[0]) + EncodeAll(text[1..])
  }

  /** Splitting a value into base-64 digits, most significant first. */
  lemma Base64Digits(v: int, d0: int, d1: int, d2: int, d3: int)
    requires 0 <= d1 < 0x40 && 0 <= d2 < 0x40 && 0 <= d3 < 0x40
    ensures v == d0 * 0x4_0000 + d1 * 0x1000 + d2 * 0x40 + d3 <==>
            && d0 == v / 0x4_0000 && d1 == v / 0x1000 % 0x40
            && d2 == v / 0x40 % 0x40 && d3 == v % 0x40
  {
    var a := v / 0x40;
    var b := a / 0x40;
    assert v / 0x1000 == b && v / 0x4_0000 == b / 0x40;
  }

  lemma EncodedDecodes(c: Scalar)
    requires c >= 0x80
    ensures DecodeUtf8(EncodeUtf8(c)) == Some(c)
  {
    hide DecodeUtf8, EncodeUtf8;
    if c < 0x800 {
      TwoDecode(c);
    } else if c < 0x1_0000 {
      ThreeDecode(c);
    } else {
      FourDecode(c);
    }
  }

  lemma TwoDecode(c: Scalar)
    requires 0x80 <= c < 0x800
    ensures DecodeUtf8(EncodeUtf8(c)) == Some(c)
  {
    hide DecodeUtf8;
    TwoBytes(0xC0 + c / 0x40, 0x80 + c % 0x40);
  }

  lemma ThreeDecode(c: Scalar)
    requires 0x800 <= c < 0x1_0000
    ensures DecodeUtf8(EncodeUtf8(c)) == Some(c)
  {
    hide DecodeUtf8;
    Base64Digits(c, 0, c / 0x1000, c / 0x40 % 0x40, c % 0x40);
    ThreeBytes(0xE0 + c / 0x1000, 0x80 + c / 0x40 % 0x40, 0x80 + c % 0x40);
  }

  lemma FourDecode(c: Scalar)
    requires 0x1_0000 <= c
    ensures DecodeUtf8(EncodeUtf8(c)) == Some(c)
  {
    hide DecodeUtf8;
    Base64Digits(c, c / 0x4_0000, c / 0x1000 % 0x40, c / 0x40 % 0x40, c % 0x40);
    FourBytes(0xF0 + c / 0x4_0000, 0x80 + c / 0x1000 % 0x40, 0x80 + c / 0x40 % 0x40, 0x80 + c % 0x40);
  }

  lemma ContinuationBytes(s: seq<byte>)
    ensures forall i :: 1 <= i < |s| ==> (IsContinuation(s[i]) <==> 0x80 <= s[i] < 0xC0)
  {
  }

  function IfScalar(v: nat, low: nat): Option<Scalar> {
    if v < low || 0xD800 <= v < 0xE000 || v >= 0x11_0000 then None else Some(v)
  }

  /** What the decoder makes of two, three and four bytes. */
  lemma TwoBytes(a: byte, b: byte)
    requires 0xC0 <= a <= 0xDF && 0x80 <= b < 0xC0
    ensures DecodeUtf8([a, b]) == IfScalar((a - 0xC0) * 0x40 + (b - 0x80), 0x80)
  {
    ContinuationBytes([a, b]);
  }

  lemma ThreeBytes(a: byte, b: byte, c: byte)
    requires 0xE0 <= a <= 0xEF && 0x80 <= b < 0xC0 && 0x80 <= c < 0xC0
    ensures DecodeUtf8([a, b, c]) == IfScalar((a - 0xE0) * 0x1000 + (b - 0x80) * 0x40 + (c - 0x80), 0x800)
  {
    ContinuationBytes([a, b, c]);
  }

  lemma FourBytes(a: byte, b: byte, c: byte, d: byte)
    requires 0xF0 <= a <= 0xF7 && 0x80 <= b < 0xC0 && 0x80 <= c < 0xC0 && 0x80 <= d < 0xC0
    ensures DecodeUtf8([a, b, c, d])
         == IfScalar((a - 0xF0) * 0x4_0000 + (b - 0x80) * 0x1000 + (c - 0x80) * 0x40 + (d - 0x80), 0x1_0000)
  {
    ContinuationBytes([a, b, c, d]);
  }

  /** What is decoded is two to four bytes of the right kinds. */
  lemma DecodedShape(s: seq<byte>)
    requires DecodeUtf8(s).Some?
    ensures 2 <= |s| <= 4 && |s| == SequenceLength(s[0])
    ensures forall i :: 1 <= i < |s| ==> 0x80 <= s[i] < 0xC0
  {
    ContinuationBytes(s);
  }

  lemma DecodedEncodes(s: seq<byte>)
    requires DecodeUtf8(s).Some?
    ensures DecodeUtf8(s).value >= 0x80 && s == EncodeUtf8(DecodeUtf8(s).value)
  {
    hide DecodeUtf8;
    var v := DecodeUtf8(s).value;
    DecodedShape(s);
    if |s| == 2 {
      assert s == [s[0], s[1]];
      TwoBytes(s[0], s[1]);
      Base64Digits(v, 0, 0, s[0] - 0xC0, s[1] - 0x80);
    } else if |s| == 3 {
      assert s == [s[0], s[1], s[2]];
      ThreeBytes(s[0], s[1], s[2]);
      Base64Digits(v, 0, s[0] - 0xE0, s[1] - 0x80, s[2] - 0x80);
    } else {
      assert s == [s[0], s[1], s[2], s[3]];
      FourBytes(s[0], s[1], s[2], s[3]);
      Base64Digits(v, s[0] - 0xF0, s[1] - 0x80, s[2] - 0x80, s[3] - 0x80);
    }
  }

  /** The decoder accepts exactly the encodings: no overlong form, no
      surrogate, nothing beyond U+10FFFF. */
  lemma DecodeIffEncoded(s: seq<byte>, c: Scalar)
    ensures DecodeUtf8(s) == Some(c) <==> c >= 0x80 && s == EncodeUtf8(c)
  {
    if c >= 0x80 && s == EncodeUtf8(c) {
      EncodedDecodes(c);
    }
    if DecodeUtf8(s) == Some(c) {
      DecodedEncodes(s);
    }
  }

  /** What one character of clean input makes the parser emit. */
  function ActionOf(c: Scalar): Action {
    if c < 0x20 then Execute(c) else Print(c)
  }

  /** A partial character: `prefix` has been received. */
  predicate Holding(p: ParserState, prefix: seq<byte>) {
    && p.Valid()
    && p.state == Ground
    && p.utf8Len == |prefix|
    && p.utf8[..|prefix|] == prefix
    && (prefix != [] ==> p.utf8Expected == SequenceLength(prefix[0]))
  }

  lemma HoldMore(p: ParserState, prefix: seq<byte>, b: byte)
    requires Holding(p, prefix)
    requires if prefix == [] then SequenceLength(b) > 0
             else IsContinuation(b) && |prefix| + 1 < SequenceLength(prefix[0])
    ensures Step(p, b).out == [] && Holding(Step(p, b).next, prefix + [b])
  {
    hide Step;
    StepInGround(p, b);
    var n := |prefix|;
    assert GroundStep(p, b) == Utf8Step(p, b);
    assert p.utf8[n := b][..n + 1] == p.utf8[..n] + [b];
  }

  lemma Complete(p: ParserState, prefix: seq<byte>, b: byte)
    requires Holding(p, prefix) && prefix != []
    requires IsContinuation(b) && |prefix| + 1 == SequenceLength(prefix[0])
    requires DecodeUtf8(prefix + [b]).Some?
    ensures Step(p, b).out == [Print(DecodeUtf8(prefix + [b]).value)] && Clean(Step(p, b).next)
  {
    hide Step;
    StepInGround(p, b);
    var n := |prefix|;
    assert GroundStep(p, b) == Utf8Step(p, b);
    assert p.utf8[n := b][..n + 1] == prefix + [b];
  }

  lemma EncodedShape(c: Scalar)
    requires c >= 0x80
    ensures var s := EncodeUtf8(c);
            2 <= |s| == SequenceLength(s[0]) && forall i :: 1 <= i < |s| ==> IsContinuation(s[i])
  {
    ContinuationBytes(EncodeUtf8(c));
  }

  lemma {:induction false} FeedPrefix(p: ParserState, prefix: seq<byte>, more: seq<byte>, c: Scalar)
    requires c >= 0x80 && prefix + more == EncodeUtf8(c) && more != []
    requires Holding(p, prefix)
    ensures Run(p, more).out == [Print(c)] && Clean(Run(p, more).next)
    decreases |more|
  {
    hide Step, Run, EncodeUtf8, DecodeUtf8, SequenceLength, IsContinuation;
    var s, b := prefix + more, more[0];
    EncodedDecodes(c);
    EncodedShape(c);
    assert s[|prefix|] == b && (prefix != [] ==> s[0] == prefix[0]);
    if |more| == 1 {
      assert prefix + [b] == s;
      Complete(p, prefix, b);
      assert more == [b];
      RunOne(p, b);
    } else {
      HoldMore(p, prefix, b);
      RunQuiet(p, more, Step(p, b).next);
      assert (prefix + [b]) + more[1..] == s;
      FeedPrefix(Step(p, b).next, prefix + [b], more[1..], c);
    }
  }

  /** From a clean parser, one encoded character other than ESC is one action. */
  lemma OneCharacter(p: ParserState, c: Scalar)
    requires p.Valid() && Clean(p) && c != ESC
    ensures Run(p, EncodeUtf8(c)).out == [ActionOf(c)]
    ensures Clean(Run(p, EncodeUtf8(c)).next)
  {
    hide Run;
    if c < 0x80 {
      OneAscii(p, c);
    } else {
      assert [] + EncodeUtf8(c) == EncodeUtf8(c);
      FeedPrefix(p, [], EncodeUtf8(c), c);
    }
  }

  lemma OneAscii(p: ParserState, c: byte)
    requires p.Valid() && Clean(p) && c < 0x80 && c != ESC
    ensures Run(p, [c]).out == [ActionOf(c)] && Clean(Run(p, [c]).next)
  {
    hide Run, Step, Utf8Step;
    RunOne(p, c);
    if c == CAN || c == SUB {
      StepOnAbort(p, c);
    } else {
      StepInGround(p, c);
    }
  }

  lemma StepOnAbort(p: ParserState, b: byte)
    requires p.Valid() && (b == CAN || b == SUB)
    ensures Step(p, b) == Emit(Clear(p).(state := Ground), [Execute(b)])
  {
  }

  /** Decoding inverts encoding: any text without U+001B comes out as exactly
      one Print (or Execute, below U+0020) per character, in order. */
  lemma {:induction false} DecodingInvertsEncoding(p: ParserState, text: seq<Scalar>)
    requires p.Valid() && Clean(p) && ESC !in text
    ensures Run(p, EncodeAll(text)).out == Map(ActionOf, text)
    ensures Clean(Run(p, EncodeAll(text)).next)
    decreases |text|
  {
    hide Step, Run;
    if text == [] {
      RunNothing(p);
    } else {
      OneCharacter(p, text[0]);
      RunConcat(p, EncodeUtf8(text[0]), EncodeAll(text[1..]));
      DecodingInvertsEncoding(Run(p, EncodeUtf8(text[0])).next, text[1..]);
      assert Map(ActionOf, text) == [ActionOf(text[0])] + Map(ActionOf, text[1..]);
    }
  }

  // ----- Arbitrary bytes -----------------------------------------------------

  function AsciiBytes(bytes: seq<byte>): seq<Scalar> {
    if bytes == [] then []
    else (if bytes[0] < 0x80 then [bytes[0]] else []) + AsciiBytes(bytes[1..])
  }

  predicate IsAscii(a: Action) {
    a.Execute? || (a.Print? && a.ch < 0x80)
  }

  function AsciiActions(out: seq<Action>): seq<Action> {
    if out == [] then []
    else (if IsAscii(out[0]) then [out[0]] else []) + AsciiActions(out[1..])
  }

  lemma {:induction false} AsciiActionsConcat(a: seq<Action>, b: seq<Action>)
    ensures AsciiActions(a + b) == AsciiActions(a) + AsciiActions(b)
  {
    hide IsAscii;
    if a == [] {
      assert a + b == b;
    } else {
      assert (a + b)[0] == a[0] && (a + b)[1..] == a[1..] + b;
      AsciiActionsConcat(a[1..], b);
      AppendAssociates(if IsAscii(a[0]) then [a[0]] else [], AsciiActions(a[1..]), AsciiActions(b));
    }
  }

  lemma LeadByteAscii(p: ParserState, b: byte)
    requires p.Valid() && p.state == Ground && p.utf8Len == 0 && b != CAN && b != SUB && b != ESC
    ensures GroundStep(p, b).next.state == Ground
    ensures AsciiActions(GroundStep(p, b).out) == if b < 0x80 then [ActionOf(b)] else []
  {
  }

  lemma OneByteAscii(p: ParserState, b: byte)
    requires p.Valid() && p.state == Ground && b != ESC
    ensures Step(p, b).next.state == Ground
    ensures AsciiActions(Step(p, b).out) == if b < 0x80 then [ActionOf(b)] else []
  {
    if b != CAN && b != SUB {
      hide Step;
      StepInGround(p, b);
      if p.utf8Len == 0 {
        LeadByteAscii(p, b);
      } else {
        assert GroundStep(p, b) == Utf8Step(p, b);
        if !IsContinuation(b) {
          var p0 := p.(utf8Len := 0, utf8Expected := 0);
          LeadByteAscii(p0, b);
          AsciiActionsConcat([Print(REPLACEMENT_CHARACTER)], GroundStep(p0, b).out);
        }
      }
    }
  }

  /** For arbitrary bytes without ESC, well formed or not, the ASCII actions
      are exactly the ASCII bytes received, in order: a broken multi-byte
      sequence never swallows, invents or reorders one. */
  lemma {:induction false} AsciiIsTransparent(p: ParserState, bytes: seq<byte>)
    requires p.Valid() && p.state == Ground && ESC !in bytes
    ensures AsciiActions(Run(p, bytes).out) == Map(ActionOf, AsciiBytes(bytes))
    ensures Run(p, bytes).next.state == Ground
    decreases |bytes|
  {
    hide Step, AsciiActions, AsciiBytes;
    AsciiUnfold(bytes);
    if bytes != [] {
      var b := bytes[0];
      OneByteAscii(p, b);
      AsciiIsTransparent(Step(p, b).next, bytes[1..]);
      AsciiActionsConcat(Step(p, b).out, Run(Step(p, b).next, bytes[1..]).out);
    }
  }

  lemma AsciiUnfold(bytes: seq<byte>)
    ensures AsciiActions([]) == []
    ensures bytes == [] ==> Map(ActionOf, AsciiBytes(bytes)) == []
    ensures bytes != [] ==>
              Map(ActionOf, AsciiBytes(bytes))
              == (if bytes[0] < 0x80 then [ActionOf(bytes[0])] else []) + Map(ActionOf, AsciiBytes(bytes[1..]))
  {
    hide ActionOf;
  }
}
