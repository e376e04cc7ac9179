/** What redaction guarantees about its whole output. */
module RedactTheorems {
  import opened Basics
  import opened Text
  import opened Redact

  // ----- Secrets and the marker ----------------------------------------------

  /** `s`, laid over the marker `d` characters after its start (before it when
      d is negative), agrees with it wherever the two overlap. */
  predicate AgreesAt(s: string, d: int) {
    forall k :: 0 <= k < |s| && 0 <= k + d < |REDACTED| ==> s[k] == REDACTED[k + d]
  }

  /** Some part of the secret could be read off the marker. */
  predicate Touches(s: string) {
    exists d :: -|s| < d < |REDACTED| && AgreesAt(s, d)
  }

  predicate FreeOf(text: string, s: string) {
    forall i :: 0 <= i <= |text| ==> !OccursAt(text, s, i)
  }

  ghost predicate AllFree(pieces: seq<string>, s: string) {
    forall i :: 0 <= i < |pieces| ==> FreeOf(pieces[i], s)
  }

  lemma SliceOfSlice(text: string, lo: nat, hi: nat, a: nat, b: nat)
    requires lo <= hi <= |text| && a <= b <= hi - lo
    ensures text[lo..hi][a..b] == text[lo + a..lo + b]
  {
    var l, r := text[lo..hi][a..b], text[lo + a..lo + b];
    forall i | 0 <= i < |l| ensures l[i] == r[i] {
    }
  }

  lemma PrefixCons(c: char, p: string, t: string)
    requires p <= t
    ensures [c] + p <= [c] + t
  {
  }

  lemma FreeSlice(text: string, s: string, lo: nat, hi: nat)
    requires FreeOf(text, s) && lo <= hi <= |text|
    ensures FreeOf(text[lo..hi], s)
  {
    var part := text[lo..hi];
    forall i | 0 <= i <= |part| ensures !OccursAt(part, s, i) {
      if i + |s| <= |part| {
        SliceOfSlice(text, lo, hi, i, i + |s|);
        assert !OccursAt(text, s, lo + i);
      }
    }
  }

  /** An occurrence that reaches from `head` into the marker after it agrees
      with the marker. */
  lemma OverlapAgrees(head: string, rest: string, s: string, i: nat)
    requires OccursAt(head + REDACTED + rest, s, i)
    requires i < |head| + |REDACTED| && |head| < i + |s|
    ensures AgreesAt(s, i - |head|) && -|s| < i - |head| < |REDACTED|
  {
    var text, d := head + REDACTED + rest, i - |head|;
    forall k | 0 <= k < |s| && 0 <= k + d < |REDACTED| ensures s[k] == REDACTED[k + d] {
      assert s[k] == text[i..i + |s|][k] == text[i + k];
      assert text[i + k] == REDACTED[k + d];
    }
  }

  /** An occurrence before, or after, a marker is one in that part. */
  lemma OccursInPart(head: string, rest: string, s: string, i: nat)
    requires OccursAt(head + REDACTED + rest, s, i)
    ensures i + |s| <= |head| ==> OccursAt(head, s, i)
    ensures |head| + |REDACTED| <= i ==> OccursAt(rest, s, i - |head| - |REDACTED|)
  {
    var text := head + REDACTED + rest;
    if i + |s| <= |head| {
      assert head[i..i + |s|] == text[i..i + |s|];
    }
    if |head| + |REDACTED| <= i {
      var j := i - |head| - |REDACTED|;
      assert rest[j..j + |s|] == text[i..i + |s|];
    }
  }

  lemma JoinUnfold(pieces: seq<string>)
    requires |pieces| > 1
    ensures Join(pieces, REDACTED) == pieces[0] + REDACTED + Join(pieces[1..], REDACTED)
  {
  }

  /** Pieces free of a secret that does not touch the marker, joined by
      markers, are free of it. */
  lemma {:induction false} JoinedIsFree(pieces: seq<string>, s: string)
    requires pieces != [] && AllFree(pieces, s) && s != "" && !Touches(s)
    ensures FreeOf(Join(pieces, REDACTED), s)
    decreases |pieces|
  {
    hide FreeOf, Touches, AgreesAt, OccursAt, Join;
    if |pieces| == 1 {
      JoinOne(pieces);
    } else {
      var head, rest := pieces[0], Join(pieces[1..], REDACTED);
      JoinUnfold(pieces);
      JoinedIsFree(pieces[1..], s);
      BesideMarker(head, rest, s);
    }
  }

  lemma JoinOne(pieces: seq<string>)
    requires |pieces| == 1
    ensures Join(pieces, REDACTED) == pieces[0]
  {
  }

  lemma BesideMarker(head: string, rest: string, s: string)
    requires FreeOf(head, s) && FreeOf(rest, s) && s != "" && !Touches(s)
    ensures FreeOf(head + REDACTED + rest, s)
  {
    hide AgreesAt;
    var text := head + REDACTED + rest;
    forall i | 0 <= i <= |text| ensures !OccursAt(text, s, i) {
      if OccursAt(text, s, i) {
        OccursInPart(head, rest, s, i);
        if |head| < i + |s| && i < |head| + |REDACTED| {
          OverlapAgrees(head, rest, s, i);
        }
      }
    }
  }

  // ----- Replacing -----------------------------------------------------------

  lemma {:induction false} FirstPieceIsPrefix(text: string, s: string)
    requires s != ""
    ensures SplitAt(text, s)[0] <= text
    ensures |SplitAt(text, s)| > 1 ==> SplitAt(text, s)[0] + s <= text
    ensures |SplitAt(text, s)| == 1 ==> SplitAt(text, s)[0] == text
    decreases |text|
  {
    var pieces := SplitAt(text, s);
    if |text| < |s| {
      assert pieces == [text];
    } else if s <= text {
      assert pieces[0] + s == s;
    } else {
      var rest := SplitAt(text[1..], s);
      FirstPieceIsPrefix(text[1..], s);
      assert pieces[0] == [text[0]] + rest[0] && |pieces| == |rest|;
      ConsFirst(text[0], text[1..], rest[0], s, |rest| > 1);
      assert text == [text[0]] + text[1..];
    }
  }

  lemma ConsFirst(c: char, tail: string, first: string, s: string, several: bool)
    requires first <= tail && (several ==> first + s <= tail) && (!several ==> first == tail)
    ensures [c] + first <= [c] + tail && (several ==> [c] + first + s <= [c] + tail)
  {
    if several {
      PrefixCons(c, first + s, tail);
      assert [c] + first + s == [c] + (first + s);
    }
  }

  /** Replacing one secret cannot bring another one in between markers. */
  lemma {:induction false} PiecesStayFree(text: string, s: string, other: string)
    requires s != "" && FreeOf(text, other)
    ensures AllFree(SplitAt(text, s), other)
    decreases |text|
  {
    hide FreeOf, OccursAt;
    if |text| >= |s| {
      FreeSlices(text, other);
      if s <= text {
        PiecesStayFree(text[|s|..], s, other);
      } else {
        PiecesStayFree(text[1..], s, other);
        var pieces := SplitAt(text, s);
        FirstPieceIsPrefix(text, s);
        assert pieces[0] == text[..|pieces[0]|];
      }
    }
  }

  lemma FreeSlices(text: string, s: string)
    requires FreeOf(text, s)
    ensures forall k :: 0 <= k <= |text| ==> FreeOf(text[k..], s) && FreeOf(text[..k], s)
    ensures FreeOf("", s)
  {
    hide FreeOf;
    forall k | 0 <= k <= |text| ensures FreeOf(text[k..], s) && FreeOf(text[..k], s) {
      assert text[k..] == text[k..|text|] && text[..k] == text[0..k];
      FreeSlice(text, s, k, |text|);
      FreeSlice(text, s, 0, k);
    }
    assert text[..0] == "";
  }

  /** The secret itself occurs in no piece, and not even across the end of a
      piece and the occurrence that was replaced there, except as that one. */
  ghost predicate LeftmostPieces(pieces: seq<string>, s: string) {
    && pieces != []
    && FreeOf(pieces[|pieces| - 1], s)
    && forall k, i :: 0 <= k < |pieces| - 1 && 0 <= i < |pieces[k]| ==> !OccursAt(pieces[k] + s, s, i)
  }

  lemma {:induction false} ReplacedLeftmost(text: string, s: string)
    requires s != ""
    ensures LeftmostPieces(SplitAt(text, s), s)
    decreases |text|
  {
    var pieces := SplitAt(text, s);
    if |text| < |s| {
    } else if s <= text {
      ReplacedLeftmost(text[|s|..], s);
      var rest := SplitAt(text[|s|..], s);
      forall k, i | 0 <= k < |pieces| - 1 && 0 <= i < |pieces[k]| ensures !OccursAt(pieces[k] + s, s, i) {
        assert k > 0 && pieces[k] == rest[k - 1];
      }
    } else {
      ReplacedLeftmost(text[1..], s);
      FirstPieceIsPrefix(text, s);
      PrependedLeftmost(text, s);
    }
  }

  lemma PrependedLeftmost(text: string, s: string)
    requires s != "" && |text| >= |s| && !(s <= text)
    requires LeftmostPieces(SplitAt(text[1..], s), s)
    requires var p := SplitAt(text, s); if |p| > 1 then p[0] + s <= text else p[0] == text
    ensures LeftmostPieces(SplitAt(text, s), s)
  {
    var pieces, rest := SplitAt(text, s), SplitAt(text[1..], s);
    assert pieces == [[text[0]] + rest[0]] + rest[1..];
    hide SplitAt, FreeOf, OccursAt;
    if |pieces| == 1 {
      NotAtFront(text, s, text);
      PrependFree(text[0], rest[0], s);
    } else {
      assert pieces[|pieces| - 1] == rest[|rest| - 1];
      NotAtFront(text, s, pieces[0] + s);
      FirstStaysLeftmost(text[0], rest, s);
      forall k, i | 0 <= k < |pieces| - 1 && 0 <= i < |pieces[k]| ensures !OccursAt(pieces[k] + s, s, i) {
        if k > 0 {
          assert pieces[k] == rest[k];
        }
      }
    }
  }

  lemma FirstStaysLeftmost(c: char, rest: seq<string>, s: string)
    requires LeftmostPieces(rest, s) && |rest| > 1
    requires !OccursAt([c] + rest[0] + s, s, 0)
    ensures forall i :: 0 <= i < |rest[0]| + 1 ==> !OccursAt([c] + rest[0] + s, s, i)
  {
    hide OccursAt;
    forall i | 0 <= i < |rest[0]| + 1 ensures !OccursAt([c] + rest[0] + s, s, i) {
      if i > 0 {
        assert !OccursAt(rest[0] + s, s, i - 1);
        assert [c] + rest[0] + s == [c] + (rest[0] + s);
        ShiftOccurrence(c, rest[0] + s, s, i);
      }
    }
  }

  lemma NotAtFront(text: string, s: string, prefix: string)
    requires !(s <= text) && prefix <= text
    ensures !OccursAt(prefix, s, 0)
  {
    if |s| <= |prefix| {
      assert prefix[0..|s|] == text[..|s|];
    }
  }

  lemma ShiftOccurrence(c: char, text: string, s: string, i: nat)
    requires i > 0
    ensures OccursAt([c] + text, s, i) == OccursAt(text, s, i - 1)
  {
    if i + |s| <= |text| + 1 {
      assert ([c] + text)[i..i + |s|] == text[i - 1..i - 1 + |s|];
    }
  }

  lemma PrependFree(c: char, text: string, s: string)
    requires FreeOf(text, s) && !OccursAt([c] + text, s, 0)
    ensures FreeOf([c] + text, s)
  {
    forall i | 0 <= i <= |[c] + text| ensures !OccursAt([c] + text, s, i) {
      if i > 0 {
        ShiftOccurrence(c, text, s, i);
      }
    }
  }

  lemma LeftmostAreFree(pieces: seq<string>, s: string)
    requires LeftmostPieces(pieces, s) && s != ""
    ensures AllFree(pieces, s)
  {
    forall k | 0 <= k < |pieces| ensures FreeOf(pieces[k], s) {
      if k < |pieces| - 1 {
        forall i | 0 <= i <= |pieces[k]| ensures !OccursAt(pieces[k], s, i) {
          if i + |s| <= |pieces[k]| {
            assert !OccursAt(pieces[k] + s, s, i);
            assert (pieces[k] + s)[i..i + |s|] == pieces[k][i..i + |s|];
          }
        }
      }
    }
  }

  /** A replaced secret is gone, and no other that was gone comes back. */
  lemma ReplaceClears(text: string, s: string)
    requires s != "" && !Touches(s)
    ensures FreeOf(Replace(text, s), s)
  {
    hide FreeOf, Touches, SplitAt;
    ReplacedLeftmost(text, s);
    LeftmostAreFree(SplitAt(text, s), s);
    JoinedIsFree(SplitAt(text, s), s);
  }

  lemma ReplaceKeepsClear(text: string, s: string, other: string)
    requires s != "" && other != "" && !Touches(other) && FreeOf(text, other)
    ensures FreeOf(Replace(text, s), other)
  {
    hide FreeOf, Touches, SplitAt;
    PiecesStayFree(text, s, other);
    JoinedIsFree(SplitAt(text, s), other);
  }

  ghost predicate NoneTouches(secrets: seq<string>) {
    forall i :: 0 <= i < |secrets| ==> secrets[i] != "" && !Touches(secrets[i])
  }

  lemma {:induction false} ReplaceAllKeepsClear(secrets: seq<string>, text: string, s: string)
    requires NoneTouches(secrets) && s != "" && !Touches(s) && FreeOf(text, s)
    ensures FreeOf(ReplaceAll(secrets, text), s)
    decreases |secrets|
  {
    hide FreeOf, Touches, Replace;
    if secrets != [] {
      ReplaceKeepsClear(text, secrets[0], s);
      ReplaceAllKeepsClear(secrets[1..], Replace(text, secrets[0]), s);
    }
  }

  lemma {:induction false} ReplaceAllClears(secrets: seq<string>, text: string, k: nat)
    requires NoneTouches(secrets) && k < |secrets|
    ensures FreeOf(ReplaceAll(secrets, text), secrets[k])
    decreases |secrets|
  {
    hide FreeOf, Touches, Replace;
    if k == 0 {
      ReplaceClears(text, secrets[0]);
      ReplaceAllKeepsClear(secrets[1..], Replace(text, secrets[0]), secrets[0]);
    } else {
      ReplaceAllClears(secrets[1..], Replace(text, secrets[0]), k - 1);
    }
  }

  // ----- Scrubbing -----------------------------------------------------------

  /** Scrubbing, too, only puts markers between pieces of the text. */
  lemma {:induction false} ScrubPieces(before: string, rest: string, s: string) returns (pieces: seq<string>)
    requires FreeOf(rest, s)
    ensures pieces != [] && AllFree(pieces, s) && pieces[0] <= rest
    ensures Join(pieces, REDACTED) == ScrubFrom(before, rest)
    decreases |rest|
  {
    hide FreeOf, OccursAt, Shown, TrailingKey, ScrubFrom, Join, SeparatorLength;
    FreeSlices(rest, s);
    var n := SeparatorLength(rest);
    if rest == "" {
      ScrubNothing(before);
      pieces := [""];
      JoinOne(pieces);
    } else if n == 0 {
      var more := ScrubPieces(before + [rest[0]], rest[1..], s);
      OneUnfolds(before, rest);
      pieces := Prepended(rest, 1, more, s);
      assert rest[..1] == [rest[0]];
    } else {
      var v := n + ValueLength(n == 2, rest[n..]);
      var key, value := TrailingKey(before), rest[n..v];
      var more := ScrubPieces(before + rest[..v], rest[v..], s);
      ShownCases(key, value);
      PairUnfolds(before, rest, n, v);
      if Shown(key, value) == value {
        pieces := Prepended(rest, v, more, s);
        assert rest[..v] == rest[..n] + value;
      } else {
        pieces := [rest[..n]] + more;
        assert pieces[1..] == more;
        JoinUnfold(pieces);
      }
    }
  }

  lemma ShownCases(key: string, value: string)
    ensures Shown(key, value) == value || Shown(key, value) == REDACTED
  {
  }

  lemma Prepended(text: string, n: nat, more: seq<string>, s: string) returns (pieces: seq<string>)
    requires n <= |text| && more != [] && AllFree(more, s) && more[0] <= text[n..] && FreeOf(text, s)
    ensures pieces != [] && AllFree(pieces, s) && pieces[0] <= text
    ensures Join(pieces, REDACTED) == text[..n] + Join(more, REDACTED)
  {
    hide FreeOf, OccursAt;
    var first := text[..n] + more[0];
    pieces := [first] + more[1..];
    assert first == text[..n + |more[0]|];
    FreeSlice(text, s, 0, n + |more[0]|);
    assert pieces[1..] == more[1..];
    if |more| > 1 {
      assert first + REDACTED + Join(more[1..], REDACTED) == text[..n] + (more[0] + REDACTED + Join(more[1..], REDACTED));
    }
  }

  lemma ScrubKeepsClear(text: string, s: string)
    requires s != "" && !Touches(s) && FreeOf(text, s)
    ensures FreeOf(Scrub(text), s)
  {
    hide FreeOf, Touches, ScrubFrom;
    var pieces := ScrubPieces("", text, s);
    JoinedIsFree(pieces, s);
  }

  /** No registered secret occurs anywhere in the output, for any text and any
      set of secrets none of which can be read off the marker: later
      replacements and the scrubbing of pairs bring no earlier secret back. */
  lemma NoSecretSurvives(secrets: seq<string>, text: string)
    requires Registered(secrets) && NoneTouches(secrets)
    ensures forall k :: 0 <= k < |secrets| ==> FreeOf(RedactWith(secrets, text), secrets[k])
  {
    hide FreeOf, Touches, ReplaceAll, Scrub;
    forall k | 0 <= k < |secrets| ensures FreeOf(RedactWith(secrets, text), secrets[k]) {
      ReplaceAllClears(secrets, text, k);
      ScrubKeepsClear(ReplaceAll(secrets, text), secrets[k]);
    }
  }

  /** A secret without angle brackets that is no part of the word between them
      cannot be read off the marker. */
  lemma PlainSecretsDoNotTouch(s: string)
    requires s != "" && '<' !in s && '>' !in s
    requires forall i :: 0 <= i <= |"redacted"| ==> !OccursAt("redacted", s, i)
    ensures !Touches(s)
  {
    var last := |REDACTED| - 1;
    forall d | -|s| < d < |REDACTED| ensures !AgreesAt(s, d) {
      if d <= 0 {
        assert s[-d] in s && REDACTED[-d + d] == '<';
      } else if d + |s| > last {
        assert s[last - d] in s && REDACTED[last - d + d] == '>';
      } else {
        assert "redacted" == REDACTED[1..last];
        assert !OccursAt("redacted", s, d - 1);
        assert "redacted"[d - 1..d - 1 + |s|] != s;
      }
    }
  }

  // ----- Exactly which secrets a replacement removes -------------------------

  /** The secret agrees with the marker at some offset, and, where its first
      characters come before the marker, a text made of them and the secret has
      the secret nowhere earlier, so that it is this one that gets replaced. */
  predicate Reappears(s: string) {
    exists d :: -|s| < d < |REDACTED| && AgreesAt(s, d)
                && (d < 0 ==> LeadsIn(s, -d))
  }

  /** `s` does not occur in its own first n characters followed by itself, before the end of them. */
  predicate LeadsIn(s: string, n: nat)
    requires n <= |s|
  {
    forall i :: 0 <= i < n ==> !OccursAt(s[..n] + s, s, i)
  }

  /** When a secret is still in the output of its own replacement, it reappears. */
  lemma {:induction false} LeftBehindReappears(pieces: seq<string>, s: string, i: nat)
    requires s != "" && LeftmostPieces(pieces, s) && OccursAt(Join(pieces, REDACTED), s, i)
    ensures Reappears(s)
    decreases |pieces|
  {
    hide OccursAt, AgreesAt, LeadsIn, Join;
    LeftmostAreFree(pieces, s);
    if |pieces| == 1 {
      JoinOne(pieces);
      NotFree(pieces[0], s, i);
    } else {
      var head, rest := pieces[0], Join(pieces[1..], REDACTED);
      JoinUnfold(pieces);
      OccursInPart(head, rest, s, i);
      if i + |s| <= |head| {
        NotFree(head, s, i);
      } else if |head| + |REDACTED| <= i {
        LeftBehindReappears(pieces[1..], s, i - |head| - |REDACTED|);
      } else {
        OverlapAgrees(head, rest, s, i);
        if i < |head| {
          LeadInOfPiece(pieces, rest, s, i);
        }
      }
    }
  }

  lemma NotFree(text: string, s: string, i: nat)
    requires OccursAt(text, s, i)
    ensures !FreeOf(text, s)
  {
  }

  lemma LeadInOfPiece(pieces: seq<string>, rest: string, s: string, i: nat)
    requires |pieces| > 1 && LeftmostPieces(pieces, s)
    requires i < |pieces[0]| < i + |s| && OccursAt(pieces[0] + REDACTED + rest, s, i)
    ensures LeadsIn(s, |pieces[0]| - i)
  {
    var head := pieces[0];
    var n := |head| - i;
    assert s[..n] == head[i..] by {
      var whole := head + REDACTED + rest;
      assert forall k :: 0 <= k < n ==> s[k] == whole[i..i + |s|][k] == whole[i + k] == head[i + k];
    }
    forall j | 0 <= j < n ensures !OccursAt(s[..n] + s, s, j) {
      assert !OccursAt(head + s, s, i + j);
      if j + |s| <= n + |s| {
        var lead := s[..n] + s;
        assert lead == (head + s)[i..];
        SliceOfSlice(head + s, i, |head + s|, j, j + |s|);
        assert (head + s)[i..] == (head + s)[i..|head + s|];
      }
    }
  }

  lemma {:induction false} SplitFirst(lead: string, s: string, tail: string)
    requires s != "" && forall i :: 0 <= i < |lead| ==> !OccursAt(lead + s, s, i)
    ensures SplitAt(lead + s + tail, s) == [lead] + SplitAt(tail, s)
    decreases |lead|
  {
    var text := lead + s + tail;
    if lead == "" {
      assert text == s + tail && text[|s|..] == tail;
    } else {
      assert !OccursAt(lead + s, s, 0);
      assert text[..|s|] == (lead + s)[0..|s|] != s;
      var shorter := lead[1..];
      assert lead + s == [lead[0]] + (shorter + s);
      forall i | 0 <= i < |shorter| ensures !OccursAt(shorter + s, s, i) {
        assert !OccursAt(lead + s, s, i + 1);
        ShiftOccurrence(lead[0], shorter + s, s, i + 1);
      }
      SplitFirst(shorter, s, tail);
      assert text[1..] == shorter + s + tail;
      assert [lead[0]] + shorter == lead;
    }
  }

  /** A reappearing secret has a text in which it survives its replacement. */
  lemma Survivor(s: string) returns (text: string)
    requires s != "" && Reappears(s)
    ensures !FreeOf(Replace(text, s), s)
  {
    var d :| -|s| < d < |REDACTED| && AgreesAt(s, d) && (d < 0 ==> LeadsIn(s, -d));
    var n := if d < 0 then -d else 0;
    var lead, end := s[..n], |REDACTED| - d;
    var tail := if |s| > end then s[end..] else "";
    text := lead + s + tail;
    if d >= 0 {
      assert lead == "";
    }
    SplitFirst(lead, s, tail);
    assert SplitAt(tail, s) == [tail];
    TwoPieces(lead, tail);
    assert Replace(text, s) == lead + REDACTED + tail;
    SpansMarker(s, d, lead, tail);
    NotFree(lead + REDACTED + tail, s, if d < 0 then 0 else d);
  }

  lemma TwoPieces(a: string, b: string)
    ensures Join([a] + [b], REDACTED) == a + REDACTED + b
  {
    assert ([a] + [b])[1..] == [b] && Join([b], REDACTED) == b;
  }

  lemma SpansMarker(s: string, d: int, lead: string, tail: string)
    requires -|s| < d < |REDACTED| && AgreesAt(s, d)
    requires lead == if d < 0 then s[..-d] else ""
    requires tail == if |s| > |REDACTED| - d then s[|REDACTED| - d..] else ""
    ensures OccursAt(lead + REDACTED + tail, s, if d < 0 then 0 else d)
  {
    var out, at := lead + REDACTED + tail, if d < 0 then 0 else d;
    if d < 0 {
      LeadsIntoMarker(s, d, lead, tail);
    } else {
      StartsInMarker(s, d, tail);
      assert lead + REDACTED + tail == REDACTED + tail;
    }
    assert out[at..at + |s|] == s;
  }

  lemma LeadsIntoMarker(s: string, d: int, lead: string, tail: string)
    requires -|s| < d < 0 && AgreesAt(s, d) && lead == s[..-d]
    requires tail == if |s| > |REDACTED| - d then s[|REDACTED| - d..] else ""
    ensures s <= lead + REDACTED + tail
  {
    forall k | 0 <= k < |s| ensures (lead + REDACTED + tail)[k] == s[k] {
    }
  }

  lemma StartsInMarker(s: string, d: nat, tail: string)
    requires d < |REDACTED| && AgreesAt(s, d)
    requires tail == if |s| > |REDACTED| - d then s[|REDACTED| - d..] else ""
    ensures s <= (REDACTED + tail)[d..]
  {
    forall k | 0 <= k < |s| ensures (REDACTED + tail)[d..][k] == s[k] {
    }
  }

  lemma {:induction false} PiecesRestore(text: string, s: string)
    requires s != ""
    ensures Join(SplitAt(text, s), s) == text
    decreases |text|
  {
    hide Join;
    if |text| < |s| {
      JoinSingle(text, s);
    } else if s <= text {
      PiecesRestore(text[|s|..], s);
      JoinFront("", SplitAt(text[|s|..], s), s);
      assert "" + s + text[|s|..] == text;
    } else {
      PiecesRestore(text[1..], s);
      var rest := SplitAt(text[1..], s);
      JoinGrows(text[0], rest, s);
      assert [text[0]] + text[1..] == text;
    }
  }

  lemma JoinSingle(text: string, s: string)
    ensures Join([text], s) == text
  {
  }

  lemma JoinFront(first: string, rest: seq<string>, s: string)
    requires rest != []
    ensures Join([first] + rest, s) == first + s + Join(rest, s)
  {
    assert ([first] + rest)[1..] == rest;
  }

  lemma JoinGrows(c: char, rest: seq<string>, s: string)
    requires rest != []
    ensures Join([[c] + rest[0]] + rest[1..], s) == [c] + Join(rest, s)
  {
    var all := [[c] + rest[0]] + rest[1..];
    assert all[1..] == rest[1..];
    if |rest| > 1 {
      assert [c] + rest[0] + s + Join(rest[1..], s) == [c] + (rest[0] + s + Join(rest[1..], s));
    }
  }

  /** Replacing keeps the whole text but the secret: the pieces that joined by the secret are the text, and in which it
      is found nowhere but where they are joined, are joined by the marker. */
  lemma ReplacementMeaning(text: string, s: string) returns (pieces: seq<string>)
    requires s != ""
    ensures Join(pieces, s) == text && Join(pieces, "<redacted>") == RedactSecretIn(text, s)
    ensures LeftmostPieces(pieces, s)
  {
    hide LeftmostPieces, SplitAt, Join;
    pieces := SplitAt(text, s);
    PiecesRestore(text, s);
    ReplacedLeftmost(text, s);
  }

  /** Replacing every occurrence of a secret removes it from every text exactly
      when it does not reappear. */
  lemma ReplacementRemovesIff(s: string)
    requires s != ""
    ensures (forall text :: FreeOf(RedactSecretIn(text, s), s)) <==> !Reappears(s)
  {
    hide FreeOf, Reappears, SplitAt;
    if Reappears(s) {
      var text := Survivor(s);
      assert !FreeOf(RedactSecretIn(text, s), s);
    } else {
      forall text ensures FreeOf(RedactSecretIn(text, s), s) {
        ReplacedLeftmost(text, s);
        if !FreeOf(Replace(text, s), s) {
          var i := Occurrence(Replace(text, s), s);
          LeftBehindReappears(SplitAt(text, s), s, i);
        }
      }
    }
  }

  lemma Occurrence(text: string, s: string) returns (i: nat)
    requires !FreeOf(text, s)
    ensures OccursAt(text, s, i)
  {
    i :| 0 <= i <= |text| && OccursAt(text, s, i);
  }

  /** A word of the marker does reappear: the secret "acte" is a text whose
      redaction contains it. */
  lemma ActeReappears()
    ensures !FreeOf(RedactSecretIn("acte", "acte"), "acte")
  {
    var s := "acte";
    assert s == s + "" && s[4..] == "";
    SplitFirst("", s, "");
    assert "" + s + "" == s;
    assert SplitAt("", s) == [""];
    var pieces := [""] + [""];
    assert pieces[1..] == [""];
    assert Join(pieces, REDACTED) == "" + REDACTED + "" == REDACTED;
    assert OccursAt(REDACTED, s, 4);
  }

  // ----- Scrubbing twice -----------------------------------------------------

  /** What is read after a scrubbed value is what was read after the value. */
  lemma {:induction false} TrailingKeyOfAppend(a: string, b: string, x: string)
    requires TrailingKey(a) == TrailingKey(b)
    ensures TrailingKey(a + x) == TrailingKey(b + x)
    decreases |x|
  {
    hide IsKeyChar;
    if x == "" {
      assert a + x == a && b + x == b;
    } else {
      var init, c := x[..|x| - 1], x[|x| - 1];
      assert (a + x)[..|a + x| - 1] == a + init && (b + x)[..|b + x| - 1] == b + init;
      TrailingKeyOfAppend(a, b, init);
    }
  }

  /** Only the key that ends what was scanned before matters, and not even that
      when the rest is empty or starts where a value has ended. */
  predicate SameContext(a: string, b: string, rest: string) {
    || TrailingKey(a) == TrailingKey(b)
    || rest == ""
    || (!IsKeyChar(rest[0]) && SeparatorLength(rest) == 0)
  }

  lemma {:induction false} ScrubDependsOnKey(a: string, b: string, rest: string)
    requires SameContext(a, b, rest)
    ensures ScrubFrom(a, rest) == ScrubFrom(b, rest)
    decreases |rest|
  {
    hide Shown, TrailingKey, ScrubFrom, SameContext, SeparatorLength;
    var n := SeparatorLength(rest);
    if rest == "" {
      ScrubNothing(a);
      ScrubNothing(b);
    } else if n == 0 {
      NextContext(a, b, rest);
      ScrubDependsOnKey(a + [rest[0]], b + [rest[0]], rest[1..]);
      OneUnfolds(a, rest);
      OneUnfolds(b, rest);
    } else {
      var v := n + ValueLength(n == 2, rest[n..]);
      PairContext(a, b, rest, rest[..v], rest[v..]);
      ScrubDependsOnKey(a + rest[..v], b + rest[..v], rest[v..]);
      PairUnfolds(a, rest, n, v);
      PairUnfolds(b, rest, n, v);
    }
  }

  lemma ScrubNothing(before: string)
    ensures ScrubFrom(before, "") == ""
  {
  }

  lemma OneUnfolds(before: string, rest: string)
    requires rest != "" && SeparatorLength(rest) == 0
    ensures ScrubFrom(before, rest) == [rest[0]] + ScrubFrom(before + [rest[0]], rest[1..])
  {
  }

  lemma NextContext(a: string, b: string, rest: string)
    requires rest != "" && SameContext(a, b, rest) && SeparatorLength(rest) == 0
    ensures SameContext(a + [rest[0]], b + [rest[0]], rest[1..])
  {
    if TrailingKey(a) == TrailingKey(b) {
      TrailingKeyOfAppend(a, b, [rest[0]]);
    } else {
      assert (a + [rest[0]])[|a|] == rest[0] == (b + [rest[0]])[|b|];
    }
  }

  lemma PairContext(a: string, b: string, rest: string, pair: string, tail: string)
    requires SameContext(a, b, rest) && SeparatorLength(rest) > 0
    ensures TrailingKey(a) == TrailingKey(b)
    ensures SameContext(a + pair, b + pair, tail)
  {
    TrailingKeyOfAppend(a, b, pair);
  }

  /** The scrubbed rest starts as the rest does. */
  lemma {:induction false} ScrubKeepsStart(before: string, rest: string)
    ensures ScrubFrom(before, rest) == "" <==> rest == ""
    ensures rest != "" ==> ScrubFrom(before, rest)[0] == rest[0]
    ensures SeparatorLength(rest) == 0 && |rest| > 1 ==>
              |ScrubFrom(before, rest)| > 1 && ScrubFrom(before, rest)[1] == rest[1]
    ensures SeparatorLength(rest) > 0 ==> SeparatorLength(rest) <= |ScrubFrom(before, rest)|
                                          && ScrubFrom(before, rest)[..SeparatorLength(rest)] == rest[..SeparatorLength(rest)]
    decreases |rest|
  {
    hide Shown, TrailingKey;
    if rest != "" && SeparatorLength(rest) == 0 && |rest| > 1 {
      ScrubKeepsStart(before + [rest[0]], rest[1..]);
    }
  }

  lemma SeparatorKept(before: string, rest: string)
    ensures SeparatorLength(ScrubFrom(before, rest)) == SeparatorLength(rest)
  {
    hide ScrubFrom;
    ScrubKeepsStart(before, rest);
    var n, out := SeparatorLength(rest), ScrubFrom(before, rest);
    if n > 0 {
      assert out[..n][0] == out[0] && rest[..n][0] == rest[0];
      if n == 2 {
        assert out[..n][1] == out[1] && rest[..n][1] == rest[1];
      }
    } else if |rest| == 1 {
      ScrubOne(before, rest);
    }
  }

  lemma ScrubOne(before: string, rest: string)
    requires |rest| == 1
    ensures SeparatorLength(rest) == 0 ==> ScrubFrom(before, rest) == rest
  {
    assert rest[1..] == "" && [rest[0]] == rest;
  }

  lemma {:induction false} ValueOf(header: bool, value: string, rest: string)
    requires forall i :: 0 <= i < |value| ==> !EndsValue(header, value[i])
    requires rest == "" || EndsValue(header, rest[0])
    ensures ValueLength(header, value + rest) == |value|
    decreases |value|
  {
    hide EndsValue;
    if value != "" {
      assert (value + rest)[1..] == value[1..] + rest;
      ValueOf(header, value[1..], rest);
    }
  }

  lemma MarkerIsAValue(header: bool)
    ensures forall i :: 0 <= i < |REDACTED| ==> !EndsValue(header, REDACTED[i])
  {
  }

  lemma ShownTwice(header: bool, key: string, value: string)
    requires forall i :: 0 <= i < |value| ==> !EndsValue(header, value[i])
    ensures Shown(key, Shown(key, value)) == Shown(key, value)
    ensures forall i :: 0 <= i < |Shown(key, value)| ==> !EndsValue(header, Shown(key, value)[i])
  {
    MarkerIsAValue(header);
  }

  /** Scrubbing what has been scrubbed changes nothing. */
  lemma {:induction false} ScrubTwice(before: string, rest: string)
    ensures ScrubFrom(before, ScrubFrom(before, rest)) == ScrubFrom(before, rest)
    decreases |rest|
  {
    hide TrailingKey, Shown, EndsValue;
    var n, out := SeparatorLength(rest), ScrubFrom(before, rest);
    SeparatorKept(before, rest);
    if rest != "" {
      if n == 0 {
        var more := ScrubFrom(before + [rest[0]], rest[1..]);
        ScrubTwice(before + [rest[0]], rest[1..]);
        assert out[1..] == more;
      } else {
        var v := n + ValueLength(n == 2, rest[n..]);
        ScrubTwice(before + rest[..v], rest[v..]);
        PairTwice(before, rest, n, v);
      }
    }
  }

  lemma PairTwice(before: string, rest: string, n: nat, v: nat)
    requires n == SeparatorLength(rest) > 0 && n <= v <= |rest| && v == n + ValueLength(n == 2, rest[n..])
    requires var more := ScrubFrom(before + rest[..v], rest[v..]);
             ScrubFrom(before + rest[..v], more) == more
    ensures ScrubFrom(before, ScrubFrom(before, rest)) == ScrubFrom(before, rest)
  {
    hide ScrubFrom, TrailingKey, Shown, EndsValue;
    var key, value, tail := TrailingKey(before), rest[n..v], rest[v..];
    var shown, more := Shown(key, value), ScrubFrom(before + rest[..v], rest[v..]);
    var out := rest[..n] + shown + more;
    PairUnfolds(before, rest, n, v);
    SeparatorKept(before, rest);
    assert out[..n] == rest[..n] && out[n..] == shown + more;
    ValueIsSlice(n == 2, rest, n, v);
    ShownTwice(n == 2, key, value);
    ScrubKeepsStart(before + rest[..v], tail);
    SeparatorKept(before + rest[..v], tail);
    ValueOf(n == 2, shown, more);
    var w := n + |shown|;
    assert out[n..w] == shown && out[w..] == more;
    PairUnfolds(before, out, n, w);
    if tail != "" {
      DelimiterIsPlain(n == 2, tail);
    }
    ScrubDependsOnKey(before + out[..w], before + rest[..v], more);
  }

  lemma ValueIsSlice(header: bool, rest: string, n: nat, v: nat)
    requires n <= v <= |rest| && v == n + ValueLength(header, rest[n..])
    ensures forall i :: 0 <= i < |rest[n..v]| ==> !EndsValue(header, rest[n..v][i])
    ensures rest[v..] != "" ==> EndsValue(header, rest[v..][0])
  {
    assert forall i :: 0 <= i < v - n ==> rest[n..v][i] == rest[n..][i];
    assert v < |rest| ==> rest[v..][0] == rest[n..][v - n];
  }

  lemma DelimiterIsPlain(header: bool, rest: string)
    requires rest != "" && EndsValue(header, rest[0])
    ensures !IsKeyChar(rest[0]) && SeparatorLength(rest) == 0
  {
  }

  /** So redaction is idempotent: no secret is left to replace, and no pair to
      scrub. */
  lemma RedactTwice(secrets: seq<string>, text: string)
    requires Registered(secrets) && NoneTouches(secrets)
    ensures RedactWith(secrets, RedactWith(secrets, text)) == RedactWith(secrets, text)
  {
    hide FreeOf, Touches, ReplaceAll, ScrubFrom;
    var once := RedactWith(secrets, text);
    NoSecretSurvives(secrets, text);
    NothingLeftToReplace(secrets, once);
    ScrubTwice("", ReplaceAll(secrets, text));
  }

  lemma {:induction false} NothingLeftToReplace(secrets: seq<string>, text: string)
    requires forall k :: 0 <= k < |secrets| ==> secrets[k] != "" && FreeOf(text, secrets[k])
    ensures ReplaceAll(secrets, text) == text
    decreases |secrets|
  {
    if secrets != [] {
      NothingToReplace(text, secrets[0]);
      NothingLeftToReplace(secrets[1..], text);
    }
  }
}
