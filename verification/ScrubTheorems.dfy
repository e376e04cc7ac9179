/** Which sensitive pairs scrubbing shows as the marker, and which it misses. */
module ScrubTheorems {
  import opened Basics
  import opened Text
  import opened Redact
  import opened RedactTheorems

  // ----- Pairs by their position ---------------------------------------------

  /** The length of the separator and the value at the front. */
  function PairLength(rest: string): (v: nat)
    ensures SeparatorLength(rest) <= v <= |rest|
  {
    var n := SeparatorLength(rest);
    n + ValueLength(n == 2, rest[n..])
  }

  function FrontValue(rest: string): string {
    rest[SeparatorLength(rest)..PairLength(rest)]
  }

  /** At the front stands the separator of a sensitive key, before a value that is neither empty nor the marker. */
  predicate Bare(before: string, rest: string) {
    SeparatorLength(rest) > 0 && IsSensitive(TrailingKey(before)) && FrontValue(rest) != "" && FrontValue(rest) != REDACTED
  }

  predicate BareAt(text: string, j: nat)
    requires j <= |text|
  {
    Bare(text[..j], text[j..])
  }

  /** What the redactor promises of its output: wherever a separator follows a sensitive key, the value after it
      is empty or the marker. */
  ghost predicate AllShown(text: string) {
    forall j :: 0 <= j <= |text| ==> !BareAt(text, j)
  }

  /** Position j lies inside the separator or value of the pair whose separator is at k. */
  predicate Swallows(text: string, k: nat, j: nat)
    requires k <= |text|
  {
    SeparatorLength(text[k..]) > 0 && k < j < k + PairLength(text[k..])
  }

  /** The scan stops at position i: no pair at which it stopped before has swallowed it. */
  predicate Reached(text: string, i: nat)
    requires i <= |text|
    decreases i
  {
    forall k :: 0 <= k < i ==> !(Reached(text, k) && Swallows(text, k, i))
  }

  /** A sensitive pair at j lies inside the value of an earlier scanned pair at k that is not sensitive. */
  predicate Hides(text: string, k: nat, j: nat)
    requires k <= |text| && j <= |text|
  {
    Reached(text, k) && Swallows(text, k, j) && !IsSensitive(TrailingKey(text[..k])) && BareAt(text, j)
  }

  ghost predicate NoneHidden(text: string, from: nat) {
    forall k, j :: from <= k < j <= |text| ==> !Hides(text, k, j)
  }

  ghost predicate NoneBare(text: string, from: nat) {
    forall k :: from <= k <= |text| && Reached(text, k) ==> !BareAt(text, k)
  }

  // ----- The scan stops where it is said to ----------------------------------

  lemma NextIsReached(text: string, i: nat)
    requires i < |text| && Reached(text, i) && SeparatorLength(text[i..]) == 0
    ensures Reached(text, i + 1)
  {
    forall k | 0 <= k < i + 1 ensures !(Reached(text, k) && Swallows(text, k, i + 1)) {
      if k < i && Reached(text, k) {
        assert !Swallows(text, k, i);
      }
    }
  }

  lemma EndIsReached(text: string, i: nat)
    requires i <= |text| && Reached(text, i) && SeparatorLength(text[i..]) > 0
    ensures Reached(text, i + PairLength(text[i..]))
    ensures forall k :: i < k < i + PairLength(text[i..]) ==> !Reached(text, k)
  {
    hide SeparatorLength, PairLength;
    var end := i + PairLength(text[i..]);
    forall k | i < k < end ensures !Reached(text, k) {
      assert Swallows(text, i, k);
    }
    forall k | 0 <= k < end ensures !(Reached(text, k) && Swallows(text, k, end)) {
      if k < i && Reached(text, k) {
        assert !Swallows(text, k, i);
      }
    }
  }

  // ----- The same along the scan ---------------------------------------------

  /** The pairs that the scan meets, and what their values hide. */
  ghost predicate HidesNothing(before: string, rest: string)
    decreases |rest|
  {
    if rest == "" then true
    else if SeparatorLength(rest) == 0 then HidesNothing(before + [rest[0]], rest[1..])
    else
      && (IsSensitive(TrailingKey(before)) || ClearInside(before, rest, PairLength(rest)))
      && HidesNothing(before + rest[..PairLength(rest)], rest[PairLength(rest)..])
  }

  ghost predicate ClearInside(before: string, rest: string, v: nat)
    requires v <= |rest|
  {
    forall j :: 0 < j < v ==> !Bare(before + rest[..j], rest[j..])
  }

  ghost predicate MeetsNothing(before: string, rest: string)
    decreases |rest|
  {
    if rest == "" then true
    else if SeparatorLength(rest) == 0 then MeetsNothing(before + [rest[0]], rest[1..])
    else !Bare(before, rest) && MeetsNothing(before + rest[..PairLength(rest)], rest[PairLength(rest)..])
  }

  lemma CutAt(text: string, i: nat, v: nat)
    requires i + v <= |text|
    ensures text[..i] + text[i..][..v] == text[..i + v] && text[i..][v..] == text[i + v..]
  {
  }

  lemma ClearByPosition(text: string, i: nat, v: nat)
    requires i + v <= |text|
    ensures ClearInside(text[..i], text[i..], v) <==> forall j :: i < j < i + v ==> !BareAt(text, j)
  {
    hide Bare;
    forall j | 0 < j < v ensures Bare(text[..i] + text[i..][..j], text[i..][j..]) == BareAt(text, i + j) {
      CutAt(text, i, j);
    }
    if forall j :: i < j < i + v ==> !BareAt(text, j) {
      forall j | 0 < j < v ensures !Bare(text[..i] + text[i..][..j], text[i..][j..]) {
        assert !BareAt(text, i + j);
      }
    }
    if ClearInside(text[..i], text[i..], v) {
      forall j | i < j < i + v ensures !BareAt(text, j) {
        assert !Bare(text[..i] + text[i..][..j - i], text[i..][j - i..]);
        CutAt(text, i, j - i);
      }
    }
  }

  lemma {:induction false} HidesByPosition(text: string, i: nat)
    requires i <= |text| && Reached(text, i)
    ensures HidesNothing(text[..i], text[i..]) <==> NoneHidden(text, i)
    decreases |text| - i
  {
    hide Bare, BareAt, IsSensitive, TrailingKey, SeparatorLength, PairLength, Reached, ClearInside, NoneHidden;
    var before, rest := text[..i], text[i..];
    if rest == "" {
      HidesAtEnd(text);
    } else if SeparatorLength(rest) == 0 {
      NextIsReached(text, i);
      HidesByPosition(text, i + 1);
      CutAt(text, i, 1);
      assert rest[..1] == [rest[0]];
      HidesOne(text, i);
    } else {
      var v := PairLength(rest);
      PairIsSome(rest);
      EndIsReached(text, i);
      HidesByPosition(text, i + v);
      CutAt(text, i, v);
      ClearByPosition(text, i, v);
      HidesPair(text, i);
    }
  }

  lemma HidesAtEnd(text: string)
    ensures NoneHidden(text, |text|)
  {
  }

  lemma PairIsSome(rest: string)
    requires SeparatorLength(rest) > 0
    ensures PairLength(rest) > 0
  {
  }

  lemma HidesOne(text: string, i: nat)
    requires i < |text| && SeparatorLength(text[i..]) == 0
    ensures NoneHidden(text, i) <==> NoneHidden(text, i + 1)
  {
    hide BareAt, IsSensitive, TrailingKey, Reached, SeparatorLength, PairLength;
    forall j | i < j <= |text| ensures !Hides(text, i, j) {
    }
  }

  lemma HidesPair(text: string, i: nat)
    requires i <= |text| && Reached(text, i) && SeparatorLength(text[i..]) > 0 && PairLength(text[i..]) > 0
    requires forall k :: i < k < i + PairLength(text[i..]) ==> !Reached(text, k)
    ensures NoneHidden(text, i)
       <==> (IsSensitive(TrailingKey(text[..i])) || forall j :: i < j < i + PairLength(text[i..]) ==> !BareAt(text, j))
            && NoneHidden(text, i + PairLength(text[i..]))
  {
    hide BareAt, IsSensitive, TrailingKey, Reached, SeparatorLength, PairLength;
    var end := i + PairLength(text[i..]);
    forall j | i < j <= |text|
      ensures Hides(text, i, j) <==> j < end && !IsSensitive(TrailingKey(text[..i])) && BareAt(text, j)
    {
    }
    if NoneHidden(text, i) {
      forall j | i < j < end ensures IsSensitive(TrailingKey(text[..i])) || !BareAt(text, j) {
        assert !Hides(text, i, j);
      }
    }
  }

  lemma {:induction false} MeetsByPosition(text: string, i: nat)
    requires i <= |text| && Reached(text, i)
    ensures MeetsNothing(text[..i], text[i..]) <==> NoneBare(text, i)
    decreases |text| - i
  {
    hide Bare, SeparatorLength, PairLength, Reached;
    var before, rest := text[..i], text[i..];
    NoSeparatorNotBare(before, rest);
    if rest == "" {
      NothingIsBare(before);
    } else if SeparatorLength(rest) == 0 {
      NextIsReached(text, i);
      MeetsByPosition(text, i + 1);
      CutAt(text, i, 1);
      assert rest[..1] == [rest[0]];
    } else {
      var v := PairLength(rest);
      PairIsSome(rest);
      EndIsReached(text, i);
      MeetsByPosition(text, i + v);
      CutAt(text, i, v);
    }
  }

  lemma NoSeparatorNotBare(before: string, rest: string)
    ensures SeparatorLength(rest) == 0 ==> !Bare(before, rest)
  {
  }

  lemma NothingIsBare(before: string)
    ensures !Bare(before, "")
  {
  }

  // ----- When scrubbing changes nothing --------------------------------------

  /** Scrubbing leaves a text alone exactly when no separator at which the scan stops has a sensitive key before it
      and a value after it that is neither empty nor the marker. */
  lemma ScrubIsIdentityIff(text: string)
    ensures Scrub(text) == text <==> NoneBare(text, 0)
  {
    hide ScrubFrom, Bare, MeetsNothing, NoneBare;
    assert text[..0] == "" && text[0..] == text;
    MeetsByPosition(text, 0);
    UnchangedIff("", text);
  }

  lemma {:induction false} UnchangedIff(before: string, rest: string)
    ensures ScrubFrom(before, rest) == rest <==> MeetsNothing(before, rest)
    decreases |rest|
  {
    hide ScrubFrom, TrailingKey, Shown, EndsValue, Bare, PairLength, SeparatorLength;
    if rest == "" {
      ScrubNothing(before);
    } else if SeparatorLength(rest) == 0 {
      var more := ScrubFrom(before + [rest[0]], rest[1..]);
      UnchangedIff(before + [rest[0]], rest[1..]);
      OneUnfolds(before, rest);
      assert rest == [rest[0]] + rest[1..] && ([rest[0]] + more)[1..] == more;
    } else {
      PairIsSome(rest);
      UnchangedIff(before + rest[..PairLength(rest)], rest[PairLength(rest)..]);
      PairUnchanged(before, rest);
    }
  }

  lemma PairUnchanged(before: string, rest: string)
    requires SeparatorLength(rest) > 0
    ensures var v := PairLength(rest);
            ScrubFrom(before, rest) == rest
            <==> !Bare(before, rest) && ScrubFrom(before + rest[..v], rest[v..]) == rest[v..]
  {
    hide ScrubFrom, TrailingKey, EndsValue, IsSensitive;
    PairIdentity(before, rest, SeparatorLength(rest), PairLength(rest));
  }

  lemma PairIdentity(before: string, rest: string, n: nat, v: nat)
    requires n == SeparatorLength(rest) > 0 && n <= v <= |rest| && v == n + ValueLength(n == 2, rest[n..])
    ensures ScrubFrom(before, rest) == rest
       <==> Shown(TrailingKey(before), rest[n..v]) == rest[n..v]
            && ScrubFrom(before + rest[..v], rest[v..]) == rest[v..]
  {
    hide ScrubFrom, TrailingKey, Shown, EndsValue;
    var value, tail := rest[n..v], rest[v..];
    var shown, more := Shown(TrailingKey(before), value), ScrubFrom(before + rest[..v], tail);
    PairUnfolds(before, rest, n, v);
    ThreeSlices(rest, n, v);
    ValueIsSlice(n == 2, rest, n, v);
    ShownTwice(n == 2, TrailingKey(before), value);
    ScrubKeepsStart(before + rest[..v], tail);
    CancelFront(rest[..n], shown, more, value, tail);
    if shown + more == value + tail {
      SameSplit(n == 2, shown, more, value, tail);
    }
  }

  lemma ThreeSlices(s: string, n: nat, v: nat)
    requires n <= v <= |s|
    ensures s == s[..n] + s[n..v] + s[v..]
  {
  }

  lemma CancelFront(p: string, a: string, x: string, b: string, y: string)
    ensures p + a + x == p + b + y <==> a + x == b + y
  {
    assert (p + a + x)[|p|..] == a + x && (p + b + y)[|p|..] == b + y;
    assert p + a + x == p + (a + x) && p + b + y == p + (b + y);
  }

  /** A value followed by a delimiter can be split off in one way only. */
  lemma SameSplit(header: bool, a: string, x: string, b: string, y: string)
    requires a + x == b + y
    requires forall i :: 0 <= i < |a| ==> !EndsValue(header, a[i])
    requires forall i :: 0 <= i < |b| ==> !EndsValue(header, b[i])
    requires x != "" ==> EndsValue(header, x[0])
    requires y != "" ==> EndsValue(header, y[0])
    ensures a == b && x == y
  {
    ValueOf(header, a, x);
    ValueOf(header, b, y);
    assert (a + x)[..|a|] == a && (b + y)[..|b|] == b;
    assert (a + x)[|a|..] == x && (b + y)[|b|..] == y;
  }

  // ----- What the output shows -----------------------------------------------

  ghost predicate ShownFrom(context: string, s: string) {
    forall j :: 0 <= j <= |s| ==> !Bare(context + s[..j], s[j..])
  }

  /** The same for the separators in x, when y follows it. */
  ghost predicate FrontShown(context: string, x: string, y: string) {
    forall j :: 0 <= j < |x| ==> !Bare(context + x[..j], x[j..] + y)
  }

  lemma SplitShown(context: string, x: string, y: string)
    ensures ShownFrom(context, x + y) <==> FrontShown(context, x, y) && ShownFrom(context + x, y)
  {
    hide Bare;
    var s := x + y;
    forall j | 0 <= j < |x| ensures context + s[..j] == context + x[..j] && s[j..] == x[j..] + y {
      assert s[..j] == x[..j];
    }
    forall j | 0 <= j <= |y| ensures context + s[..|x| + j] == context + x + y[..j] && s[|x| + j..] == y[j..] {
      assert s[..|x| + j] == x + y[..j];
    }
    if FrontShown(context, x, y) && ShownFrom(context + x, y) {
      forall j | 0 <= j <= |s| ensures !Bare(context + s[..j], s[j..]) {
        if j >= |x| {
          var i := j - |x|;
          assert !Bare(context + x + y[..i], y[i..]);
        }
      }
    }
    if ShownFrom(context, s) {
      forall i | 0 <= i <= |y| ensures !Bare(context + x + y[..i], y[i..]) {
        assert !Bare(context + s[..|x| + i], s[|x| + i..]);
      }
    }
  }

  /** A text that a scrubbed tail follows has the same pairs at its front, shown or not, as when the tail follows
      unscrubbed. */
  lemma {:induction false} ValueWithin(header: bool, a: string, tail: string)
    requires tail == "" || EndsValue(header, tail[0])
    ensures ValueLength(header, a + tail) == ValueLength(header, a)
    decreases |a|
  {
    hide EndsValue;
    if a == "" {
      assert a + tail == tail;
    } else {
      assert (a + tail)[1..] == a[1..] + tail;
      ValueWithin(header, a[1..], tail);
    }
  }

  predicate NoSeparatorChars(x: string) {
    forall i :: 0 <= i < |x| ==> x[i] != '=' && x[i] != ':'
  }

  /** Characters that are no separators pass through the scan, forwards and backwards. */
  lemma {:induction false} PlainPrefixKept(before: string, x: string, u: string)
    requires NoSeparatorChars(x)
    ensures ScrubFrom(before, x + u) == x + ScrubFrom(before + x, u)
    decreases |x|
  {
    hide ScrubFrom;
    if x == "" {
      assert x + u == u && before + x == before;
    } else {
      var text := x + u;
      assert text[1..] == x[1..] + u && text[0] == x[0];
      OneUnfolds(before, text);
      PlainPrefixKept(before + [x[0]], x[1..], u);
      assert before + [x[0]] + x[1..] == before + x;
    }
  }

  lemma {:induction false} PlainPrefixCame(before: string, rest: string, x: string)
    requires NoSeparatorChars(x) && x <= ScrubFrom(before, rest)
    ensures x <= rest
    decreases |x|
  {
    hide ScrubFrom;
    ScrubKeepsStart(before, rest);
    if x != "" {
      assert rest[0] == x[0];
      OneUnfolds(before, rest);
      var more := ScrubFrom(before + [rest[0]], rest[1..]);
      assert x[1..] <= more;
      PlainPrefixCame(before + [rest[0]], rest[1..], x[1..]);
    }
  }

  function LineOf(rest: string): string {
    rest[..ValueLength(true, rest)]
  }

  lemma MarkerIsPlain()
    ensures NoSeparatorChars(REDACTED)
    ensures forall h, i :: 0 <= i < |REDACTED| ==> !EndsValue(h, REDACTED[i])
  {
  }

  /** Scrubbing neither empties nor fills a line, and neither makes it the marker nor unmakes it. */
  lemma LineShown(before: string, rest: string)
    ensures LineOf(ScrubFrom(before, rest)) == "" <==> LineOf(rest) == ""
    ensures LineOf(ScrubFrom(before, rest)) == REDACTED <==> LineOf(rest) == REDACTED
  {
    hide ScrubFrom;
    var out := ScrubFrom(before, rest);
    ScrubKeepsStart(before, rest);
    MarkerIsPlain();
    if LineOf(rest) == REDACTED {
      var u := rest[|REDACTED|..];
      assert rest == REDACTED + u;
      PlainPrefixKept(before, REDACTED, u);
      ScrubKeepsStart(before + REDACTED, u);
      MarkerLine(ScrubFrom(before + REDACTED, u));
    }
    if LineOf(out) == REDACTED {
      assert REDACTED <= out;
      PlainPrefixCame(before, rest, REDACTED);
      var u := rest[|REDACTED|..];
      assert rest == REDACTED + u;
      PlainPrefixKept(before, REDACTED, u);
      ScrubKeepsStart(before + REDACTED, u);
      assert out[|REDACTED|..] == ScrubFrom(before + REDACTED, u);
      MarkerLine(u);
    }
  }

  lemma MarkerLine(u: string)
    requires u == "" || EndsValue(true, u[0])
    ensures LineOf(REDACTED + u) == REDACTED
  {
    MarkerIsPlain();
    ValueOf(true, REDACTED, u);
    assert (REDACTED + u)[..|REDACTED|] == REDACTED;
  }

  /** What follows a value: nothing, or a character that ends it; scrubbed or not. */
  ghost predicate Follows(header: bool, tail: string, more: string) {
    && (tail == "" <==> more == "")
    && (tail != "" ==> EndsValue(header, tail[0]) && more[0] == tail[0])
    && (tail != "" && tail[0] == ' ' ==>
          && (LineOf(more[1..]) == "" <==> LineOf(tail[1..]) == "")
          && (LineOf(more[1..]) == REDACTED <==> LineOf(tail[1..]) == REDACTED))
  }

  lemma ScrubbedFollows(header: bool, before: string, tail: string)
    requires tail == "" || EndsValue(header, tail[0])
    ensures Follows(header, tail, ScrubFrom(before, tail))
  {
    hide ScrubFrom, LineOf;
    ScrubKeepsStart(before, tail);
    if tail != "" {
      DelimiterIsPlain(header, tail);
      OneUnfolds(before, tail);
      LineShown(before + [tail[0]], tail[1..]);
      var more := ScrubFrom(before + [tail[0]], tail[1..]);
      assert ([tail[0]] + more)[1..] == more;
    }
  }

  /** y stands inside a value, or is the blank of a header's separator and the value. */
  ghost predicate Inside(header: bool, y: string) {
    y != "" && forall i :: 0 <= i < |y| ==> !EndsValue(header, y[i])
  }

  lemma FrontSame(header: bool, y: string, tail: string, more: string)
    requires Inside(header, y) && Follows(header, tail, more)
    ensures SeparatorLength(y + tail) == SeparatorLength(y + more)
    ensures SeparatorLength(y + tail) > 0 ==>
              && (FrontValue(y + tail) == "" <==> FrontValue(y + more) == "")
              && (FrontValue(y + tail) == REDACTED <==> FrontValue(y + more) == REDACTED)
  {
    hide FrontValue, LineOf, ValueLength;
    SameFront(y, tail, more);
    var m := SeparatorLength(y + tail);
    if 0 < m <= |y| {
      FrontInside(header, y, tail);
      FrontInside(header, y, more);
    } else if m > 0 {
      assert y[0] == ':' && tail != "" && (y + tail)[1] == tail[0];
      FrontOverEnd(y, tail);
      FrontOverEnd(y, more);
    }
  }

  lemma SameFront(y: string, tail: string, more: string)
    requires y != "" && (tail == "" <==> more == "") && (tail != "" ==> more[0] == tail[0])
    ensures SeparatorLength(y + tail) == SeparatorLength(y + more)
  {
    assert (y + tail)[0] == y[0] == (y + more)[0];
    if |y| > 1 {
      assert (y + tail)[1] == y[1] == (y + more)[1];
    } else if tail != "" {
      assert (y + tail)[1] == tail[0] == (y + more)[1];
    }
  }

  lemma FrontInside(header: bool, y: string, tail: string)
    requires Inside(header, y) && (tail != "" ==> EndsValue(header, tail[0]))
    requires 0 < SeparatorLength(y + tail) <= |y|
    ensures var m := SeparatorLength(y + tail); FrontValue(y + tail) == y[m..][..ValueLength(m == 2, y[m..])]
  {
    hide ValueLength;
    var a := y + tail;
    var m := SeparatorLength(a);
    var inner := y[m..];
    assert a[m..] == inner + tail;
    if m == 2 {
      assert a[1] == y[1] == ' ' && header;
    }
    EndsEvery(header, m == 2, tail);
    ValueWithin(m == 2, inner, tail);
    var l := ValueLength(m == 2, inner);
    assert a[m..m + l] == inner[..l];
  }

  /** What ends a header's value ends any, and only a header's value holds a header. */
  lemma EndsEvery(header: bool, inner: bool, tail: string)
    requires (tail != "" ==> EndsValue(header, tail[0])) && (inner ==> header)
    ensures tail != "" ==> EndsValue(inner, tail[0])
  {
  }

  lemma FrontOverEnd(y: string, tail: string)
    requires y == ":" && tail != "" && tail[0] == ' '
    ensures SeparatorLength(y + tail) == 2 && FrontValue(y + tail) == LineOf(tail[1..])
  {
    var a := y + tail;
    assert a[0] == ':' && a[1] == ' ' && a[2..] == tail[1..];
    var l := ValueLength(true, tail[1..]);
    assert a[2..2 + l] == tail[1..][..l];
  }

  lemma BareSame(header: bool, context: string, before: string, front: string, y: string, tail: string, more: string)
    requires TrailingKey(context) == TrailingKey(before) && Inside(header, y) && Follows(header, tail, more)
    ensures Bare(context + front, y + more) == Bare(before + front, y + tail)
  {
    hide IsSensitive, TrailingKey, Follows, Inside, FrontValue, SeparatorLength;
    TrailingKeyOfAppend(context, before, front);
    FrontSame(header, y, tail, more);
  }

  lemma InsidePair(rest: string, j: nat)
    requires SeparatorLength(rest) > 0 && 0 < j < PairLength(rest)
    ensures Inside(SeparatorLength(rest) == 2, rest[..PairLength(rest)][j..])
  {
    var n, v := SeparatorLength(rest), PairLength(rest);
    var y := rest[..v][j..];
    ValueIsSlice(n == 2, rest, n, v);
    forall i | 0 <= i < |y| ensures !EndsValue(n == 2, y[i]) {
      assert y[i] == rest[j + i];
      if j + i >= n {
        assert rest[j + i] == rest[n..v][j + i - n];
      }
    }
  }

  /** The front of a scrubbed pair shows everything exactly when the pair is sensitive or hides nothing. */
  lemma PairShown(context: string, before: string, rest: string, more: string)
    requires SeparatorLength(rest) > 0 && TrailingKey(context) == TrailingKey(before)
    requires Follows(SeparatorLength(rest) == 2, rest[PairLength(rest)..], more)
    ensures var n, v := SeparatorLength(rest), PairLength(rest);
            var shown := Shown(TrailingKey(before), rest[n..v]);
            FrontShown(context, rest[..n] + shown, more)
            <==> IsSensitive(TrailingKey(before)) || ClearInside(before, rest, v)
  {
    hide IsSensitive, TrailingKey, Bare, ValueLength, Follows, Inside;
    var n, v := SeparatorLength(rest), PairLength(rest);
    var key, value := TrailingKey(before), rest[n..v];
    PairFrontShown(context, before, rest, more);
    if IsSensitive(key) && value != "" {
      MarkerShown(context, rest, n, more);
    } else {
      assert rest[..n] + value == rest[..v];
      forall j | 0 < j < v
        ensures Bare(context + rest[..v][..j], rest[..v][j..] + more) == Bare(before + rest[..j], rest[j..])
      {
        assert rest[..v][..j] == rest[..j] && rest[j..] == rest[..v][j..] + rest[v..];
        InsidePair(rest, j);
        BareSame(n == 2, context, before, rest[..j], rest[..v][j..], rest[v..], more);
      }
      if IsSensitive(key) {
        SeparatorIsClear(before, rest);
      }
      KeepsClear(context, before, rest, more, v);
    }
  }

  lemma KeepsClear(context: string, before: string, rest: string, more: string, v: nat)
    requires 0 < v <= |rest| && !Bare(context, rest[..v] + more)
    requires forall j :: 0 < j < v ==>
               Bare(context + rest[..v][..j], rest[..v][j..] + more) == Bare(before + rest[..j], rest[j..])
    ensures FrontShown(context, rest[..v], more) <==> ClearInside(before, rest, v)
  {
    hide Bare;
    var x := rest[..v];
    assert context + x[..0] == context && x[0..] == x;
    if FrontShown(context, x, more) {
      forall j | 0 < j < v ensures !Bare(before + rest[..j], rest[j..]) {
        assert !Bare(context + x[..j], x[j..] + more);
      }
    }
  }

  /** The pair itself is shown. */
  lemma PairFrontShown(context: string, before: string, rest: string, more: string)
    requires SeparatorLength(rest) > 0 && TrailingKey(context) == TrailingKey(before)
    requires Follows(SeparatorLength(rest) == 2, rest[PairLength(rest)..], more)
    ensures var n, v := SeparatorLength(rest), PairLength(rest);
            !Bare(context, rest[..n] + Shown(TrailingKey(before), rest[n..v]) + more)
  {
    hide IsSensitive, TrailingKey;
    var n, v := SeparatorLength(rest), PairLength(rest);
    var shown := Shown(TrailingKey(before), rest[n..v]);
    var out := rest[..n] + shown + more;
    ValueIsSlice(n == 2, rest, n, v);
    ShownTwice(n == 2, TrailingKey(before), rest[n..v]);
    ValueOf(n == 2, shown, more);
    SameSeparator(rest, shown + more);
    assert out == rest[..n] + (shown + more) && out[n..] == shown + more;
    assert out[n..n + |shown|] == shown;
  }

  lemma SameSeparator(rest: string, tail: string)
    requires SeparatorLength(rest) > 0
    ensures SeparatorLength(rest[..SeparatorLength(rest)] + tail) == SeparatorLength(rest)
  {
    var n := SeparatorLength(rest);
    var out := rest[..n] + tail;
    assert out[0] == rest[0] && (n == 2 ==> out[1] == rest[1]);
  }

  /** Between a separator and the end of the marker nothing looks like a pair but the pair. */
  lemma MarkerShown(context: string, rest: string, n: nat, more: string)
    requires n == SeparatorLength(rest) > 0 && !Bare(context, rest[..n] + REDACTED + more)
    ensures FrontShown(context, rest[..n] + REDACTED, more)
  {
    hide IsSensitive, TrailingKey;
    var x := rest[..n] + REDACTED;
    MarkerIsPlain();
    forall j | 0 <= j < |x| ensures !Bare(context + x[..j], x[j..] + more) {
      if j == 0 {
        assert context + x[..0] == context && x[0..] == x;
      } else {
        assert x[j] == if j < n then rest[j] else REDACTED[j - n];
        assert (x[j..] + more)[0] == x[j];
      }
    }
  }

  lemma SeparatorIsClear(before: string, rest: string)
    requires SeparatorLength(rest) > 0
    ensures ClearInside(before, rest, SeparatorLength(rest))
  {
  }

  /** From any point of the scan, the output shows every sensitive pair exactly when no value still to come hides one. */
  lemma {:induction false} ShowsIff(context: string, before: string, rest: string)
    requires SameContext(context, before, rest)
    ensures ShownFrom(context, ScrubFrom(before, rest)) <==> HidesNothing(before, rest)
    decreases |rest|
  {
    hide ScrubFrom, Bare, TrailingKey, IsSensitive, SeparatorLength, PairLength, ShownFrom, FrontShown, ClearInside;
    hide SameContext, Follows, Shown;
    if rest == "" {
      ScrubNothing(before);
      NothingShown(context);
    } else if SeparatorLength(rest) == 0 {
      var c, more := rest[0], ScrubFrom(before + [rest[0]], rest[1..]);
      OneUnfolds(before, rest);
      NextContext(context, before, rest);
      ShowsIff(context + [c], before + [c], rest[1..]);
      SplitShown(context, [c], more);
      SeparatorKept(before, rest);
      OneShown(context, c, more);
    } else {
      var n, v := SeparatorLength(rest), PairLength(rest);
      PairIsSome(rest);
      PairEnds(rest);
      var shown, more := Shown(TrailingKey(before), rest[n..v]), ScrubFrom(before + rest[..v], rest[v..]);
      PairLengthIs(rest);
      PairUnfolds(before, rest, n, v);
      PairContext(context, before, rest, rest[..n] + shown, rest[v..]);
      AfterPair(context, before, rest, shown);
      ShowsIff(context + (rest[..n] + shown), before + rest[..v], rest[v..]);
      ScrubbedFollows(n == 2, before + rest[..v], rest[v..]);
      PairShown(context, before, rest, more);
      SplitShown(context, rest[..n] + shown, more);
    }
  }

  lemma PairLengthIs(rest: string)
    ensures var n := SeparatorLength(rest); PairLength(rest) == n + ValueLength(n == 2, rest[n..])
  {
  }

  lemma NothingShown(context: string)
    ensures ShownFrom(context, "")
  {
    assert context + ""[..0] == context && ""[0..] == "";
  }

  lemma OneShown(context: string, c: char, more: string)
    requires SeparatorLength([c] + more) == 0
    ensures FrontShown(context, [c], more)
  {
    assert [c][0..] == [c] && [c][..0] == "";
  }

  lemma PairEnds(rest: string)
    requires SeparatorLength(rest) > 0
    ensures var v := PairLength(rest); rest[v..] == "" || EndsValue(SeparatorLength(rest) == 2, rest[v..][0])
  {
    ValueIsSlice(SeparatorLength(rest) == 2, rest, SeparatorLength(rest), PairLength(rest));
  }

  lemma AfterPair(context: string, before: string, rest: string, shown: string)
    requires SeparatorLength(rest) > 0
    ensures var n, v := SeparatorLength(rest), PairLength(rest);
            SameContext(context + (rest[..n] + shown), before + rest[..v], rest[v..])
  {
    hide TrailingKey;
    PairEnds(rest);
    var v := PairLength(rest);
    if rest[v..] != "" {
      DelimiterIsPlain(SeparatorLength(rest) == 2, rest[v..]);
    }
  }

  lemma ByPositionShown(text: string)
    ensures AllShown(text) <==> ShownFrom("", text)
  {
    hide Bare;
    forall j | 0 <= j <= |text| ensures "" + text[..j] == text[..j] {
    }
    if AllShown(text) {
      forall j | 0 <= j <= |text| ensures !Bare("" + text[..j], text[j..]) {
        assert !BareAt(text, j);
      }
    }
    if ShownFrom("", text) {
      forall j | 0 <= j <= |text| ensures !BareAt(text, j) {
        assert !Bare("" + text[..j], text[j..]);
      }
    }
  }

  /** After scrubbing, the value after every sensitive key is empty or the marker, exactly when no sensitive pair lies
      inside the value of an earlier scanned pair that is not sensitive. */
  lemma ScrubShowsAllIff(text: string)
    ensures AllShown(Scrub(text)) <==> NoneHidden(text, 0)
  {
    hide ScrubFrom, AllShown, ShownFrom, NoneHidden, HidesNothing, TrailingKey;
    ByPositionShown(Scrub(text));
    ShowsIff("", "", text);
    assert text[..0] == "" && text[0..] == text;
    HidesByPosition(text, 0);
  }

  /** So redaction shows every sensitive value exactly when that is so once the secrets are replaced. */
  lemma RedactShowsAllIff(secrets: seq<string>, text: string)
    requires Registered(secrets)
    ensures AllShown(RedactWith(secrets, text)) <==> NoneHidden(ReplaceAll(secrets, text), 0)
  {
    hide Scrub, AllShown, NoneHidden, ReplaceAll;
    ScrubShowsAllIff(ReplaceAll(secrets, text));
  }

  // ----- Values that leak ----------------------------------------------------

  lemma {:induction false} WordIsKey(before: string, word: string)
    requires forall i :: 0 <= i < |word| ==> IsKeyChar(word[i])
    requires before == "" || !IsKeyChar(before[|before| - 1])
    ensures TrailingKey(before + word) == word
    decreases |word|
  {
    hide IsKeyChar;
    if word == "" {
      assert before + word == before;
    } else {
      assert (before + word)[..|before + word| - 1] == before + word[..|word| - 1];
      WordIsKey(before, word[..|word| - 1]);
    }
  }

  /** A key that is not sensitive keeps its whole value as it is, whatever pairs the value contains. */
  lemma ValueKept(key: string, header: bool, value: string)
    requires (forall i :: 0 <= i < |key| ==> IsKeyChar(key[i])) && !IsSensitive(key)
    requires forall i :: 0 <= i < |value| ==> !EndsValue(header, value[i])
    ensures var text := key + (if header then ": " else "=") + value; Scrub(text) == text
  {
    hide ScrubFrom, TrailingKey, IsSensitive, EndsValue;
    var sep := if header then ": " else "=";
    var rest := sep + value;
    assert key + sep + value == key + rest;
    PlainPrefixKept("", key, rest);
    assert "" + key == key;
    WordIsKey("", key);
    var n, v := |sep|, |rest|;
    assert rest[0] == sep[0] && (header ==> rest[1] == sep[1]);
    assert SeparatorLength(rest) == n && rest[n..] == value && rest[n..v] == value && rest[..n] == sep;
    assert value + "" == value;
    ValueOf(header, value, "");
    PairUnfolds(key, rest, n, v);
    assert rest[v..] == "";
    ScrubNothing(key + rest[..v]);
    assert sep + value + "" == rest;
  }

  /** A sensitive pair in the value of a key that is not sensitive, behind a character that is no key character. */
  lemma NestedPairLeaks(key: string, header: bool, between: string, word: string, value: string)
    requires (forall i :: 0 <= i < |key| ==> IsKeyChar(key[i])) && !IsSensitive(key)
    requires (forall i :: 0 <= i < |word| ==> IsKeyChar(word[i])) && IsSensitive(word)
    requires between == "" || !IsKeyChar(between[|between| - 1])
    requires value != "" && value != REDACTED && forall i :: 0 <= i < |value| ==> !EndsValue(false, value[i])
    requires forall i :: 0 <= i < |between + word + "=" + value| ==> !EndsValue(header, (between + word + "=" + value)[i])
    ensures var text := key + (if header then ": " else "=") + (between + word + "=" + value);
            Scrub(text) == text && !AllShown(text)
  {
    hide Scrub, IsSensitive, TrailingKey, EndsValue, AllShown;
    ValueKept(key, header, between + word + "=" + value);
    var sep := if header then ": " else "=";
    var front := key + sep + between;
    assert front[|front| - 1] == if between == "" then sep[|sep| - 1] else between[|between| - 1];
    assert key + sep + (between + word + "=" + value) == front + word + "=" + value;
    PairIsBare(front, word, value);
  }

  lemma PairIsBare(before: string, word: string, value: string)
    requires before == "" || !IsKeyChar(before[|before| - 1])
    requires (forall i :: 0 <= i < |word| ==> IsKeyChar(word[i])) && IsSensitive(word)
    requires value != "" && value != REDACTED && forall i :: 0 <= i < |value| ==> !EndsValue(false, value[i])
    ensures !AllShown(before + word + "=" + value)
  {
    hide IsSensitive, TrailingKey, EndsValue;
    var text, j := before + word + "=" + value, |before + word|;
    var rest := "=" + value;
    WordIsKey(before, word);
    assert text == before + word + rest && text[..j] == before + word && text[j..] == rest && rest[1..] == value;
    assert value + "" == value;
    ValueOf(false, value, "");
    assert BareAt(text, j);
  }

  const KEY_ENDINGS: string := "destnyhlp"

  lemma KeysEndSo(i: nat)
    requires i < |SENSITIVE_KEYS|
    ensures SENSITIVE_KEYS[i] != "" && SENSITIVE_KEYS[i][|SENSITIVE_KEYS[i]| - 1] in KEY_ENDINGS
  {
    var k := SENSITIVE_KEYS[i];
    assert KEY_ENDINGS[0] == 'd' && KEY_ENDINGS[1] == 'e' && KEY_ENDINGS[2] == 's' && KEY_ENDINGS[3] == 't';
    assert KEY_ENDINGS[4] == 'n' && KEY_ENDINGS[5] == 'y' && KEY_ENDINGS[6] == 'h' && KEY_ENDINGS[7] == 'l';
    assert KEY_ENDINGS[8] == 'p';
  }

  lemma OtherEndingsAreFree(key: string)
    requires key != "" && AsciiLower(key[|key| - 1]) !in KEY_ENDINGS && key[|key| - 1] !in KEY_ENDINGS
    ensures !IsSensitive(key)
  {
    forall i | 0 <= i < |SENSITIVE_KEYS|
      ensures !EqualIgnoringCase(key, SENSITIVE_KEYS[i]) && !EndsWith(key, SENSITIVE_KEYS[i])
    {
      KeysEndSo(i);
      EndingDiffers(key, SENSITIVE_KEYS[i]);
    }
  }

  lemma EndingDiffers(key: string, candidate: string)
    requires key != "" && candidate != ""
    requires AsciiLower(key[|key| - 1]) !in KEY_ENDINGS && key[|key| - 1] !in KEY_ENDINGS
    requires candidate[|candidate| - 1] in KEY_ENDINGS
    ensures !EqualIgnoringCase(key, candidate) && !EndsWith(key, candidate)
  {
    EndingsAreLower(candidate[|candidate| - 1]);
    SameEnding(key, candidate);
  }

  lemma SameEnding(key: string, suffix: string)
    requires suffix != ""
    ensures EndsWith(key, suffix) ==> key != "" && key[|key| - 1] == suffix[|suffix| - 1]
  {
  }

  lemma EndingsAreLower(c: char)
    requires c in KEY_ENDINGS
    ensures AsciiLower(c) == c
  {
  }

  /** A password in a query string is written out as it is. */
  lemma NestedPasswordLeaks()
    ensures var text := "user" + "=" + ("a&" + "password" + "=" + "hunter2"); Scrub(text) == text && !AllShown(text)
    ensures var text := "user" + ": " + ("" + "password" + "=" + "hunter2"); Scrub(text) == text && !AllShown(text)
  {
    hide Scrub, IsSensitive, AllShown;
    OtherEndingsAreFree("user");
    PasswordIsSensitive();
    NestedPairLeaks("user", false, "a&", "password", "hunter2");
    NestedPairLeaks("user", true, "", "password", "hunter2");
  }

  lemma PasswordIsSensitive()
    ensures IsSensitive("password")
  {
    assert SENSITIVE_KEYS[0] == "password";
    assert EndsWith(SENSITIVE_KEYS[0], SENSITIVE_KEYS[0]);
  }
}
