/** When flushing the log writer keeps a secret out of the sink, and when it lets one through. */
module FlushTheorems {
  import opened Basics
  import opened Text
  import opened Redact
  import opened RedactTheorems
  import opened ScrubTheorems
  import opened LogWriter

  // ----- Parts of scrubbed text ----------------------------------------------

  /** The text ends inside a marker. */
  predicate CutsMarker(text: string) {
    exists m :: 0 < m < |REDACTED| && EndsWith(text, REDACTED[..m])
  }

  lemma TailCutsMarker(text: string, i: nat)
    requires i <= |text| && CutsMarker(text[i..])
    ensures CutsMarker(text)
  {
    var m :| 0 < m < |REDACTED| && EndsWith(text[i..], REDACTED[..m]);
    assert text[i..][|text[i..]| - m..] == text[|text| - m..];
  }

  lemma PartOfMarkerCuts(p: string)
    requires p != "" && p < REDACTED
    ensures CutsMarker(p)
  {
    assert p == REDACTED[..|p|] && EndsWith(p, REDACTED[..|p|]);
  }

  /** A part of the output, from its start to a place outside any marker, is left alone by scrubbing. */
  lemma {:induction false} PrefixIsScrubbed(before: string, rest: string, p: string)
    requires p <= ScrubFrom(before, rest) && !CutsMarker(p)
    ensures ScrubFrom(before, p) == p
    decreases |rest|
  {
    hide ScrubFrom, TrailingKey, SeparatorLength, PairLength, Shown, CutsMarker;
    if p == "" || rest == "" {
      ScrubNothing(before);
    } else if SeparatorLength(rest) == 0 {
      OneUnfolds(before, rest);
      OnePrefix(before, rest, p);
    } else {
      PairPrefix(before, rest, p);
    }
  }

  lemma OnePrefix(before: string, rest: string, p: string)
    requires rest != "" && SeparatorLength(rest) == 0 && p != "" && p <= ScrubFrom(before, rest) && !CutsMarker(p)
    ensures ScrubFrom(before, p) == p
    decreases |rest|, 0
  {
    hide ScrubFrom, TrailingKey, CutsMarker;
    var c, more := rest[0], ScrubFrom(before + [rest[0]], rest[1..]);
    OneUnfolds(before, rest);
    assert p[0] == c && p[1..] <= more && p == [c] + p[1..];
    ScrubKeepsStart(before, rest);
    ScrubKeepsStart(before + [c], rest[1..]);
    assert |p| > 1 ==> |rest| > 1 && p[1] == rest[1];
    assert SeparatorLength(p) == 0;
    if CutsMarker(p[1..]) {
      TailCutsMarker(p, 1);
    }
    PrefixIsScrubbed(before + [c], rest[1..], p[1..]);
    OneUnfolds(before, p);
  }

  lemma PairPrefix(before: string, rest: string, p: string)
    requires SeparatorLength(rest) > 0 && p != "" && p <= ScrubFrom(before, rest) && !CutsMarker(p)
    ensures ScrubFrom(before, p) == p
    decreases |rest|, 0
  {
    hide ScrubFrom, TrailingKey, CutsMarker, ValueLength, IsSensitive;
    var n, v := SeparatorLength(rest), PairLength(rest);
    var key, value := TrailingKey(before), rest[n..v];
    var shown, more := Shown(key, value), ScrubFrom(before + rest[..v], rest[v..]);
    PairUnfolds(before, rest, n, v);
    var out := rest[..n] + shown + more;
    ValueIsSlice(n == 2, rest, n, v);
    ShownTwice(n == 2, key, value);
    if |p| < n {
      assert p == rest[..1] && |p| == 1 && p[0] == ':';
      ScrubOne(before, p);
    } else if |p| < n + |shown| {
      var inner := p[n..];
      assert p == rest[..n] + inner && inner == shown[..|inner|];
      CutValue(before, rest, inner, shown);
    } else {
      var q := p[n + |shown|..];
      assert p == rest[..n] + shown + q && q <= more;
      if CutsMarker(q) {
        TailCutsMarker(p, n + |shown|);
      }
      PrefixIsScrubbed(before + rest[..v], rest[v..], q);
      WholeValue(before, rest, shown, more, q);
    }
  }

  /** The text ends inside a value. */
  lemma CutValue(before: string, rest: string, inner: string, shown: string)
    requires SeparatorLength(rest) > 0
    requires shown == Shown(TrailingKey(before), rest[SeparatorLength(rest)..PairLength(rest)])
    requires |inner| < |shown| && inner <= shown
    requires !CutsMarker(rest[..SeparatorLength(rest)] + inner)
    ensures var p := rest[..SeparatorLength(rest)] + inner; ScrubFrom(before, p) == p
  {
    hide ScrubFrom, TrailingKey, CutsMarker, ValueLength, IsSensitive;
    var n, v := SeparatorLength(rest), PairLength(rest);
    var p := rest[..n] + inner;
    ValueIsSlice(n == 2, rest, n, v);
    ShownTwice(n == 2, TrailingKey(before), rest[n..v]);
    SameSeparator(rest, inner);
    assert p[n..] == inner && inner + "" == inner && p[..n] == rest[..n] && p[n..|p|] == inner;
    ValueOf(n == 2, inner, "");
    PairUnfolds(before, p, n, |p|);
    assert p[|p|..] == "";
    ScrubNothing(before + p[..|p|]);
    if shown == REDACTED && inner != "" {
      PartOfMarkerCuts(inner);
      assert p[n..] == inner;
      TailCutsMarker(p, n);
    }
  }

  /** The text goes on behind a value, or ends with it. */
  lemma WholeValue(before: string, rest: string, shown: string, more: string, q: string)
    requires SeparatorLength(rest) > 0
    requires shown == Shown(TrailingKey(before), rest[SeparatorLength(rest)..PairLength(rest)])
    requires more == ScrubFrom(before + rest[..PairLength(rest)], rest[PairLength(rest)..]) && q <= more
    requires ScrubFrom(before + rest[..PairLength(rest)], q) == q
    ensures var p := rest[..SeparatorLength(rest)] + shown + q; ScrubFrom(before, p) == p
  {
    hide ScrubFrom, TrailingKey, ValueLength, IsSensitive, Shown;
    var n, v := SeparatorLength(rest), PairLength(rest);
    var p, key := rest[..n] + shown + q, TrailingKey(before);
    ValueIsSlice(n == 2, rest, n, v);
    ShownTwice(n == 2, key, rest[n..v]);
    ScrubKeepsStart(before + rest[..v], rest[v..]);
    SameSeparator(rest, shown + q);
    assert p == rest[..n] + (shown + q) && p[n..] == shown + q;
    ValueOf(n == 2, shown, q);
    var w := n + |shown|;
    assert p[n..w] == shown && p[w..] == q && p[..n] == rest[..n];
    PairUnfolds(before, p, n, w);
    if q != "" {
      DelimiterIsPlain(n == 2, q);
    }
    ScrubDependsOnKey(before + p[..w], before + rest[..v], q);
  }

  /** What scrubbing leaves alone stays at the front when more text follows. */
  lemma {:induction false} FixedStaysFront(before: string, p: string, more: string)
    requires ScrubFrom(before, p) == p
    ensures p <= ScrubFrom(before, p + more)
    decreases |p|
  {
    hide ScrubFrom, TrailingKey, SeparatorLength, PairLength, Bare;
    if p == "" {
    } else if SeparatorLength(p) == 0 {
      OneFixed(before, p, more);
    } else {
      PairFixed(before, p, more);
    }
  }

  lemma OneFixed(before: string, p: string, more: string)
    requires p != "" && SeparatorLength(p) == 0 && ScrubFrom(before, p) == p
    ensures p <= ScrubFrom(before, p + more)
    decreases |p|, 0
  {
    hide ScrubFrom, TrailingKey;
    var c, tail := p[0], p[1..];
    OneUnfolds(before, p);
    assert p == [c] + tail && ([c] + ScrubFrom(before + [c], tail))[1..] == ScrubFrom(before + [c], tail);
    FixedStaysFront(before + [c], tail, more);
    var whole := p + more;
    assert whole[1..] == tail + more;
    if SeparatorLength(whole) == 0 {
      OneUnfolds(before, whole);
    } else {
      ColonAlone(p, more);
      ScrubKeepsStart(before, whole);
    }
  }

  lemma ColonAlone(p: string, more: string)
    requires p != "" && SeparatorLength(p) == 0 && SeparatorLength(p + more) > 0
    ensures |p| == 1
  {
    if |p| > 1 {
      LongFront(p, more);
    }
  }

  lemma LongFront(p: string, more: string)
    requires |p| > 1
    ensures SeparatorLength(p + more) == SeparatorLength(p)
  {
    assert (p + more)[0] == p[0] && (p + more)[1] == p[1];
  }

  lemma PairFixed(before: string, p: string, more: string)
    requires SeparatorLength(p) > 0 && ScrubFrom(before, p) == p
    ensures p <= ScrubFrom(before, p + more)
    decreases |p|, 0
  {
    hide ScrubFrom, TrailingKey, ValueLength, IsSensitive, FrontValue, SeparatorLength, PairLength;
    PairUnchanged(before, p);
    var v := PairLength(p);
    if v < |p| {
      PairIsSome(p);
      FixedStaysFront(before + p[..v], p[v..], more);
      WholePairFixed(before, p, more);
    } else {
      LastPairFixed(before, p, more);
    }
  }

  lemma StillSeparator(p: string, more: string)
    requires SeparatorLength(p) > 0
    ensures var n := SeparatorLength(p);
            SeparatorLength(p + more) == n && (p + more)[..n] == p[..n] && (p + more)[n..] == p[n..] + more
  {
    SameSeparator(p, p[SeparatorLength(p)..] + more);
    assert p + more == p[..SeparatorLength(p)] + (p[SeparatorLength(p)..] + more);
  }

  /** The value ends before the text does. */
  lemma WholePairFixed(before: string, p: string, more: string)
    requires SeparatorLength(p) > 0 && !Bare(before, p) && PairLength(p) < |p|
    requires p[PairLength(p)..] <= ScrubFrom(before + p[..PairLength(p)], p[PairLength(p)..] + more)
    ensures p <= ScrubFrom(before, p + more)
  {
    hide ScrubFrom, TrailingKey, ValueLength, IsSensitive, Shown;
    var n, v, whole := SeparatorLength(p), PairLength(p), p + more;
    StillSeparator(p, more);
    ValueIsSlice(n == 2, p, n, v);
    assert p[n..] + more == p[n..v] + (p[v..] + more);
    assert (p[v..] + more)[0] == p[v..][0];
    ValueOf(n == 2, p[n..v], p[v..] + more);
    PairUnfolds(before, whole, n, v);
    assert whole[n..v] == p[n..v] && whole[v..] == p[v..] + more && whole[..v] == p[..v];
    BareIsNotShown(before, p);
    ThreeSlices(p, n, v);
    assert p[..n] + p[n..v] + p[v..] <= p[..n] + p[n..v] + ScrubFrom(before + p[..v], p[v..] + more);
  }

  lemma BareIsNotShown(before: string, p: string)
    requires SeparatorLength(p) > 0 && !Bare(before, p)
    ensures Shown(TrailingKey(before), p[SeparatorLength(p)..PairLength(p)]) == p[SeparatorLength(p)..PairLength(p)]
  {
    hide TrailingKey, IsSensitive;
  }

  /** The value ends with the text, and may now go on. */
  lemma LastPairFixed(before: string, p: string, more: string)
    requires SeparatorLength(p) > 0 && !Bare(before, p) && PairLength(p) == |p|
    ensures p <= ScrubFrom(before, p + more)
  {
    hide ScrubFrom, TrailingKey, ValueLength, IsSensitive, Shown;
    var n, whole := SeparatorLength(p), p + more;
    var w := PairLength(whole);
    StillSeparator(p, more);
    PairUnfolds(before, whole, n, w);
    ValueIsSlice(n == 2, p, n, |p|);
    assert p[n..|p|] == p[n..];
    ValueGoesOn(n == 2, p[n..], more);
    assert whole[n..w] == (p[n..] + more)[..w - n];
    var key := TrailingKey(before);
    ShownGrows(key, p[n..], whole[n..w]);
    FrontOnto(p, n, Shown(key, whole[n..w]), ScrubFrom(before + whole[..w], whole[w..]));
  }

  lemma ShownGrows(key: string, value: string, longer: string)
    requires value <= longer && !(IsSensitive(key) && value != "" && value != REDACTED)
    ensures value <= Shown(key, longer)
  {
    hide IsSensitive;
  }

  lemma FrontOnto(p: string, n: nat, shown: string, rest: string)
    requires n <= |p| && p[n..] <= shown
    ensures p <= p[..n] + shown + rest
  {
    assert p == p[..n] + p[n..];
  }

  lemma {:induction false} ValueGoesOn(header: bool, value: string, more: string)
    requires forall i :: 0 <= i < |value| ==> !EndsValue(header, value[i])
    ensures ValueLength(header, value + more) >= |value|
    decreases |value|
  {
    hide EndsValue;
    if value != "" {
      assert (value + more)[1..] == value[1..] + more;
      ValueGoesOn(header, value[1..], more);
    }
  }

  // ----- What a sink may end in ----------------------------------------------

  /** The sink ends in the first k characters of the secret, and scrubbing would let the others follow. */
  predicate LeadsAt(s: string, sink: string, k: nat)
    requires k <= |s|
  {
    EndsWith(sink, s[..k]) && Scrub(s[k..]) == s[k..]
  }

  predicate Leads(s: string, sink: string) {
    exists k :: 0 < k < |s| && LeadsAt(s, sink, k)
  }

  /** For a secret without separators, that is the sink ending in any proper prefix of it. */
  lemma PlainLeads(s: string, sink: string)
    requires '=' !in s && ':' !in s
    ensures Leads(s, sink) <==> exists k :: 0 < k < |s| && EndsWith(sink, s[..k])
  {
    forall k | 0 < k < |s| ensures LeadsAt(s, sink, k) <==> EndsWith(sink, s[..k]) {
      forall c | c in s[k..] ensures c in s {
      }
      NothingToScrub("", s[k..]);
    }
    if k :| 0 < k < |s| && EndsWith(sink, s[..k]) {
      assert LeadsAt(s, sink, k);
    }
  }

  lemma LineEndsLeadNowhere(s: string, sink: string)
    requires '\n' !in s && (sink == "" || sink[|sink| - 1] == '\n')
    ensures !Leads(s, sink)
  {
    hide Scrub;
    forall k | 0 < k < |s| ensures !EndsWith(sink, s[..k]) {
      assert s[k - 1] in s && s[..k][k - 1] == s[k - 1];
      SameEnding(sink, s[..k]);
    }
  }

  /** No part that ends a secret cuts a marker, unless the secret can overlap one. */
  lemma CutPartTouches(s: string, k: nat)
    requires k < |s|
    ensures CutsMarker(s[k..]) ==> Touches(s)
  {
    if CutsMarker(s[k..]) {
      var m :| 0 < m < |REDACTED| && EndsWith(s[k..], REDACTED[..m]);
      var d := m - |s|;
      assert s[k..][|s| - k - m..] == s[|s| - m..];
      forall i | 0 <= i < |s| && 0 <= i + d < |REDACTED| ensures s[i] == REDACTED[i + d] {
        assert s[i] == s[|s| - m..][i + d] == REDACTED[..m][i + d];
      }
      assert AgreesAt(s, d);
    }
  }

  /** What is written next starts with a scrubbed text that a line feed or nothing follows. */
  ghost predicate StartsScrubbed(output: string, raw: string) {
    Scrub(raw) <= output && (|output| > |Scrub(raw)| ==> output[|Scrub(raw)|] == '\n')
  }

  /** Appending to a sink that leads nowhere brings no secret about. */
  lemma AppendKeepsFree(sink: string, output: string, raw: string, s: string)
    requires s != "" && '\n' !in s && !Touches(s) && !Leads(s, sink)
    requires FreeOf(sink, s) && FreeOf(output, s) && StartsScrubbed(output, raw)
    ensures FreeOf(sink + output, s)
  {
    hide Scrub, Touches, Leads;
    var text := sink + output;
    forall i | 0 <= i <= |text| ensures !OccursAt(text, s, i) {
      OccursOnOneSide(sink, output, s, i);
      SpanLeads(sink, output, raw, s, i);
    }
  }

  lemma OccursOnOneSide(a: string, b: string, s: string, i: nat)
    ensures i + |s| <= |a| ==> OccursAt(a + b, s, i) == OccursAt(a, s, i)
    ensures |a| <= i ==> OccursAt(a + b, s, i) == OccursAt(b, s, i - |a|)
  {
    if i + |s| <= |a| {
      assert (a + b)[i..i + |s|] == a[i..i + |s|];
    } else if |a| <= i && i + |s| <= |a| + |b| {
      assert (a + b)[i..i + |s|] == b[i - |a|..i - |a| + |s|];
    }
  }

  lemma SpanLeads(sink: string, output: string, raw: string, s: string, i: nat)
    requires '\n' !in s && !Touches(s) && StartsScrubbed(output, raw)
    ensures i < |sink| < i + |s| && OccursAt(sink + output, s, i) ==> Leads(s, sink)
  {
    hide Scrub, Touches, StartsScrubbed, Leads;
    if i < |sink| < i + |s| && OccursAt(sink + output, s, i) {
      TwoParts(sink, output, s, i);
      PartLeads(sink, output, raw, s, |sink| - i);
    }
  }

  lemma TwoParts(sink: string, output: string, s: string, i: nat)
    requires i < |sink| < i + |s| && OccursAt(sink + output, s, i)
    ensures EndsWith(sink, s[..|sink| - i]) && s[|sink| - i..] <= output
  {
    var text, k := sink + output, |sink| - i;
    assert forall j :: 0 <= j < k ==> s[j] == text[i..i + |s|][j] == text[i + j] == sink[i + j];
    assert s[..k] == sink[i..];
    assert forall j :: 0 <= j < |s| - k ==> s[k + j] == text[i..i + |s|][k + j] == text[|sink| + j] == output[j];
  }

  lemma PartLeads(sink: string, output: string, raw: string, s: string, k: nat)
    requires 0 < k < |s| && '\n' !in s && !Touches(s) && StartsScrubbed(output, raw)
    requires EndsWith(sink, s[..k]) && s[k..] <= output
    ensures Leads(s, sink)
  {
    hide Scrub, Touches;
    forall c | c in s[k..] ensures c in s {
    }
    StaysInFront(s[k..], output, Scrub(raw));
    CutPartTouches(s, k);
    PartPasses(raw, s[k..]);
    assert LeadsAt(s, sink, k);
  }

  lemma StaysInFront(p: string, output: string, front: string)
    requires p <= output && front <= output
    requires |output| > |front| ==> output[|front|] == '\n'
    ensures '\n' !in p ==> p <= front
  {
    if |p| > |front| {
      PrefixChar(p, output, |front|);
    }
  }

  lemma PrefixChar(p: string, output: string, i: nat)
    requires p <= output && i < |p|
    ensures output[i] in p
  {
    assert p[i] == output[i];
  }

  lemma PartPasses(raw: string, p: string)
    requires p <= Scrub(raw) && !CutsMarker(p)
    ensures Scrub(p) == p
  {
    hide ScrubFrom, CutsMarker;
    PrefixIsScrubbed("", raw, p);
  }

  // ----- What the writer appends ---------------------------------------------

  lemma LinesStartScrubbed(secrets: seq<string>, lines: seq<string>) returns (raw: string)
    requires Registered(secrets)
    ensures StartsScrubbed(SinkOf(secrets, lines), raw)
  {
    hide ScrubFrom, ReplaceAll, TrimEol;
    ScrubNothing("");
    if lines == [] || TrimEol(lines[0]) == "" {
      raw := "";
    } else {
      raw := ReplaceAll(secrets, TrimEol(lines[0]));
      assert SinkOf(secrets, lines) == Scrub(raw) + ("\n" + SinkOf(secrets, lines[1..]));
    }
  }

  lemma ResidueIsScrubbed(secrets: seq<string>, pending: string) returns (raw: string)
    requires Registered(secrets)
    ensures Residue(secrets, pending) == Scrub(raw) && StartsScrubbed(Residue(secrets, pending), raw)
  {
    hide ScrubFrom, ReplaceAll, TrimEol;
    ScrubNothing("");
    raw := if pending == "" then "" else ReplaceAll(secrets, TrimEol(pending));
  }

  lemma ResidueIsFree(secrets: seq<string>, pending: string, k: nat)
    requires Registered(secrets) && NoneTouches(secrets) && k < |secrets|
    ensures FreeOf(Residue(secrets, pending), secrets[k])
  {
    hide FreeOf, NoneTouches, RedactWith, TrimEol;
    EmptyIsFree(secrets[k]);
    NoSecretSurvives(secrets, TrimEol(pending));
  }

  lemma LinesEndInLineFeed(secrets: seq<string>, lines: seq<string>)
    requires Registered(secrets)
    ensures lines == [] ==> SinkOf(secrets, lines) == ""
    ensures lines != [] ==> SinkOf(secrets, lines) != "" && SinkOf(secrets, lines)[|SinkOf(secrets, lines)| - 1] == '\n'
    decreases |lines|
  {
    hide RedactWith, TrimEol, Registered;
    if lines != [] {
      LinesEndInLineFeed(secrets, lines[1..]);
    }
  }

  /** The sink holds no occurrence of the secret and ends in nothing that could become one. */
  ghost predicate Safe(s: string, sink: string) {
    FreeOf(sink, s) && !Leads(s, sink)
  }

  ghost predicate Plain(secrets: seq<string>) {
    Registered(secrets) && NoneTouches(secrets) && forall k :: 0 <= k < |secrets| ==> '\n' !in secrets[k]
  }

  lemma WriteKeepsSafe(secrets: seq<string>, k: nat, st: Stream, chunk: string)
    requires Plain(secrets) && k < |secrets| && Safe(secrets[k], st.sink)
    ensures Safe(secrets[k], Wrote(secrets, st, chunk).sink)
  {
    hide FreeOf, Leads, SinkOf, Complete, Tail, Touches, StartsScrubbed, Registered;
    var s, lines := secrets[k], Complete(st.pending + chunk);
    var out := SinkOf(secrets, lines);
    SinkHoldsNoSecret(secrets, lines, k);
    var raw := LinesStartScrubbed(secrets, lines);
    AppendKeepsFree(st.sink, out, raw, s);
    LinesEndInLineFeed(secrets, lines);
    if lines == [] {
      assert st.sink + "" == st.sink;
    } else {
      LineEndsLeadNowhere(s, st.sink + out);
    }
  }

  lemma FlushKeepsFree(secrets: seq<string>, k: nat, st: Stream)
    requires Plain(secrets) && k < |secrets| && Safe(secrets[k], st.sink)
    ensures FreeOf(Flushed(secrets, st).sink, secrets[k])
  {
    hide FreeOf, Leads, Touches, StartsScrubbed, Residue, Registered;
    ResidueIsFree(secrets, st.pending, k);
    var raw := ResidueIsScrubbed(secrets, st.pending);
    AppendKeepsFree(st.sink, Residue(secrets, st.pending), raw, secrets[k]);
  }

  // ----- Runs of writes and flushes ------------------------------------------

  datatype Call = Write(chunk: string) | Flush

  function Do(secrets: seq<string>, st: Stream, call: Call): Stream
    requires Registered(secrets)
  {
    match call
    case Write(chunk) => Wrote(secrets, st, chunk)
    case Flush => Flushed(secrets, st)
  }

  function DoAll(secrets: seq<string>, st: Stream, calls: seq<Call>): Stream
    requires Registered(secrets)
    decreases |calls|
  {
    if calls == [] then st else DoAll(secrets, Do(secrets, st, calls[0]), calls[1..])
  }

  /** No flush of the run leaves the sink ending in the start of the secret. */
  predicate FlushesLeadNowhere(secrets: seq<string>, s: string, st: Stream, calls: seq<Call>)
    requires Registered(secrets)
    decreases |calls|
  {
    if calls == [] then true
    else
      var next := Do(secrets, st, calls[0]);
      (calls[0].Flush? ==> !Leads(s, next.sink)) && FlushesLeadNowhere(secrets, s, next, calls[1..])
  }

  /** Every flush of the run finds nothing pending: it comes at the end of a line. */
  predicate FlushesAtLineEnds(secrets: seq<string>, st: Stream, calls: seq<Call>)
    requires Registered(secrets)
    decreases |calls|
  {
    calls == [] || ((calls[0].Flush? ==> st.pending == "") && FlushesAtLineEnds(secrets, Do(secrets, st, calls[0]), calls[1..]))
  }

  lemma {:induction false} RunKeepsSafe(secrets: seq<string>, k: nat, st: Stream, calls: seq<Call>)
    requires Plain(secrets) && k < |secrets| && Safe(secrets[k], st.sink)
    requires FlushesLeadNowhere(secrets, secrets[k], st, calls)
    ensures Safe(secrets[k], DoAll(secrets, st, calls).sink)
    decreases |calls|
  {
    hide FreeOf, Leads, Wrote, Flushed, Registered, NoneTouches;
    if calls != [] {
      DoKeepsSafe(secrets, k, st, calls[0]);
      RunKeepsSafe(secrets, k, Do(secrets, st, calls[0]), calls[1..]);
    }
  }

  lemma DoKeepsSafe(secrets: seq<string>, k: nat, st: Stream, call: Call)
    requires Plain(secrets) && k < |secrets| && Safe(secrets[k], st.sink)
    requires call.Flush? ==> !Leads(secrets[k], Do(secrets, st, call).sink)
    ensures Safe(secrets[k], Do(secrets, st, call).sink)
  {
    hide FreeOf, Leads, Wrote, Flushed, Registered, NoneTouches;
    match call
    case Write(chunk) => WriteKeepsSafe(secrets, k, st, chunk);
    case Flush => FlushKeepsFree(secrets, k, st);
  }

  lemma NothingIsSafe(s: string)
    requires s != ""
    ensures Safe(s, "")
  {
    EmptyIsFree(s);
  }

  /** The whole sink, flushes included, holds no registered secret, for any set of secrets that fit on a line and
      cannot overlap the marker, whenever no flush leaves the start of one at the end of the sink. */
  lemma SinkStaysFree(secrets: seq<string>, calls: seq<Call>, k: nat)
    requires Plain(secrets) && k < |secrets|
    requires FlushesLeadNowhere(secrets, secrets[k], Stream("", ""), calls)
    ensures FreeOf(DoAll(secrets, Stream("", ""), calls).sink, secrets[k])
  {
    hide FreeOf, Leads, DoAll, FlushesLeadNowhere, Registered;
    NothingIsSafe(secrets[k]);
    RunKeepsSafe(secrets, k, Stream("", ""), calls);
  }

  lemma {:induction false} LineEndFlushesLeadNowhere(secrets: seq<string>, k: nat, st: Stream, calls: seq<Call>)
    requires Plain(secrets) && k < |secrets| && Safe(secrets[k], st.sink) && FlushesAtLineEnds(secrets, st, calls)
    ensures FlushesLeadNowhere(secrets, secrets[k], st, calls)
    decreases |calls|
  {
    hide FreeOf, Leads, Wrote, RedactWith, Registered, NoneTouches;
    if calls != [] {
      if calls[0].Flush? {
        assert st.sink + "" == st.sink;
      }
      DoKeepsSafe(secrets, k, st, calls[0]);
      LineEndFlushesLeadNowhere(secrets, k, Do(secrets, st, calls[0]), calls[1..]);
    }
  }

  /** In particular when every flush comes at the end of a line. */
  lemma LineEndFlushesKeepFree(secrets: seq<string>, calls: seq<Call>, k: nat)
    requires Plain(secrets) && k < |secrets| && FlushesAtLineEnds(secrets, Stream("", ""), calls)
    ensures FreeOf(DoAll(secrets, Stream("", ""), calls).sink, secrets[k])
  {
    hide FreeOf, Leads, DoAll, FlushesLeadNowhere, FlushesAtLineEnds, Registered;
    NothingIsSafe(secrets[k]);
    LineEndFlushesLeadNowhere(secrets, k, Stream("", ""), calls);
    SinkStaysFree(secrets, calls, k);
  }

  // ----- Exactly which flushes are harmless ----------------------------------

  /** A text that completes the secret, once the sink leads into it. */
  lemma Completion(s: string, sink: string) returns (text: string)
    requires Registered([s]) && '\n' !in s && Leads(s, sink)
    ensures !FreeOf(sink + SinkOf([s], Complete(text)), s)
  {
    hide Scrub, SinkOf, Complete, Registered;
    var k :| 0 < k < |s| && LeadsAt(s, sink, k);
    var x := if s[|s| - 1] == 'x' then 'y' else 'x';
    var line := s[k..] + [x];
    text := line + "\n";
    forall c | c in s[k..] ensures c in s {
    }
    assert '\n' !in line;
    LineGoesOut(s, line);
    FrontPasses(s[k..], [x]);
    CompletedSecret(s, sink, k, SinkOf([s], Complete(text)));
  }

  lemma FrontPasses(p: string, more: string)
    requires Scrub(p) == p
    ensures p <= Scrub(p + more)
  {
    hide ScrubFrom;
    FixedStaysFront("", p, more);
  }

  /** A line that is not the secret, and too short to hold more than it, is only scrubbed. */
  lemma LineGoesOut(s: string, line: string)
    requires Registered([s]) && '\n' !in line && line != "" && line[|line| - 1] != '\r'
    requires |line| <= |s| && line[|line| - 1] != s[|s| - 1]
    ensures SinkOf([s], Complete(line + "\n")) == Scrub(line) + "\n"
  {
    hide Scrub, Complete;
    assert line[|line| - 1] in line;
    forall i | 0 <= i <= |line| ensures !OccursAt(line, s, i) {
      OccursInShort(line, s, i);
    }
    NothingToReplace(line, s);
    assert [s][1..] == [] && ReplaceAll([], line) == line;
    assert ReplaceAll([s], line) == line;
    assert TrimEol(line) == line;
    OneLine(line);
    assert [line][1..] == [];
    assert SinkOf([s], [line]) == Scrub(line) + "\n" + "";
  }

  lemma OccursInShort(line: string, s: string, i: nat)
    requires |line| <= |s|
    ensures OccursAt(line, s, i) ==> line == s
  {
    assert line[0..|line|] == line;
  }

  lemma CompletedSecret(s: string, sink: string, k: nat, output: string)
    requires 0 < k < |s| && EndsWith(sink, s[..k]) && s[k..] <= output
    ensures !FreeOf(sink + output, s)
  {
    var text, i := sink + output, |sink| - k;
    assert text[i..i + |s|] == sink[i..] + output[..|s| - k];
    assert sink[i..] == s[..k] && output[..|s| - k] == s[k..];
    assert s[..k] + s[k..] == s;
    assert OccursAt(text, s, i);
  }

  /** With nothing pending, a sink keeps the secret out whatever text follows exactly when it leads nowhere. */
  lemma HarmlessIff(s: string, sink: string)
    requires Plain([s]) && FreeOf(sink, s)
    ensures (forall text :: FreeOf(Wrote([s], Stream(sink, ""), text).sink, s)) <==> !Leads(s, sink)
  {
    hide FreeOf, Leads, SinkOf, Complete, Tail, Touches, Registered;
    assert [s][0] == s;
    if Leads(s, sink) {
      var text := Completion(s, sink);
      assert "" + text == text;
      assert !FreeOf(Wrote([s], Stream(sink, ""), text).sink, s);
    } else {
      forall text ensures FreeOf(Wrote([s], Stream(sink, ""), text).sink, s) {
        WriteKeepsSafe([s], 0, Stream(sink, ""), text);
      }
    }
  }

  /** A flush is harmless, whatever is written afterwards, exactly when the redacted tail it sends out does not end
      in a part of the secret that leads into it.  The sink before it ends a line. */
  lemma FlushIsHarmlessIff(s: string, st: Stream)
    requires Plain([s]) && FreeOf(st.sink, s) && (st.sink == "" || st.sink[|st.sink| - 1] == '\n')
    ensures (forall text :: FreeOf(Wrote([s], Flushed([s], st), text).sink, s)) <==> !Leads(s, Residue([s], st.pending))
  {
    hide FreeOf, Leads, Residue, Wrote, Touches, Registered;
    assert [s][0] == s;
    LineEndsLeadNowhere(s, st.sink);
    FlushKeepsFree([s], 0, st);
    HarmlessIff(s, Flushed([s], st).sink);
    LeadIsInResidue(s, st.sink, Residue([s], st.pending));
  }

  lemma LeadIsInResidue(s: string, sink: string, residue: string)
    requires '\n' !in s && (sink == "" || sink[|sink| - 1] == '\n')
    ensures Leads(s, sink + residue) <==> Leads(s, residue)
  {
    hide Scrub;
    forall k | 0 < k < |s| ensures EndsWith(sink + residue, s[..k]) <==> EndsWith(residue, s[..k]) {
      var all := sink + residue;
      if k <= |residue| {
        assert all[|all| - k..] == residue[|residue| - k..];
      } else if k <= |all| {
        var j := k - |residue| - 1;
        assert all[|all| - k..][j] == sink[|sink| - 1] == '\n';
        assert s[..k][j] in s;
      }
    }
    forall k | 0 < k < |s| ensures LeadsAt(s, sink + residue, k) <==> LeadsAt(s, residue, k) {
    }
  }

  /** At every point of the run, whatever text follows, the sink holds no occurrence of the secret. */
  ghost predicate NeverLeaks(s: string, st: Stream, calls: seq<Call>)
    requires Registered([s])
    decreases |calls|
  {
    && (forall text :: FreeOf(Wrote([s], st, text).sink, s))
    && (calls == [] || NeverLeaks(s, Do([s], st, calls[0]), calls[1..]))
  }

  /** Over every run of writes and flushes from an empty writer, a secret never leaks, whatever follows, if and only
      if no flush leaves the sink ending in a part of it that leads into it. */
  lemma NeverLeaksIff(s: string, calls: seq<Call>)
    requires Plain([s])
    ensures NeverLeaks(s, Stream("", ""), calls) <==> FlushesLeadNowhere([s], s, Stream("", ""), calls)
  {
    hide NeverLeaks, FlushesLeadNowhere, FreeOf, Leads, Registered;
    assert [s][0] == s;
    NothingIsSafe(s);
    RunNeverLeaksIff(s, Stream("", ""), calls);
  }

  lemma {:induction false} RunNeverLeaksIff(s: string, st: Stream, calls: seq<Call>)
    requires Plain([s]) && Safe(s, st.sink)
    ensures NeverLeaks(s, st, calls) <==> FlushesLeadNowhere([s], s, st, calls)
    decreases |calls|
  {
    hide FreeOf, Leads, Wrote, Residue, Registered, Touches;
    assert [s][0] == s;
    forall text ensures FreeOf(Wrote([s], st, text).sink, s) {
      WriteKeepsSafe([s], 0, st, text);
    }
    if calls != [] {
      var next := Do([s], st, calls[0]);
      if calls[0].Flush? && Leads(s, next.sink) {
        FlushKeepsFree([s], 0, st);
        HarmlessIff(s, next.sink);
        assert next == Stream(next.sink, "");
        assert !NeverLeaks(s, next, calls[1..]);
      } else {
        DoKeepsSafe([s], 0, st, calls[0]);
        RunNeverLeaksIff(s, next, calls[1..]);
      }
    }
  }

  // ----- Secrets of several lines --------------------------------------------

  /** Lines too short to hold the secret, of characters that start no pair, go out as they are. */
  lemma {:induction false} ShortLinesPass(s: string, text: string)
    requires Registered([s]) && |text| <= |s| && (text == "" || text[|text| - 1] == '\n')
    requires '=' !in text && ':' !in text && '\r' !in text
    ensures SinkOf([s], Complete(text)) == text && Tail(text) == ""
    decreases |text|
  {
    hide SinkOf, Complete, Tail, RedactWith, TrimEol, Registered;
    if text == "" {
      NothingComplete();
      LinesEndInLineFeed([s], []);
    } else {
      var i := FirstLineFeed(text);
      var line, rest := text[..i], text[i + 1..];
      assert text == line + "\n" + rest;
      FirstLineGoesOut(s, line, rest);
      ShortLinesPass(s, rest);
    }
  }

  lemma FirstLineFeed(text: string) returns (i: nat)
    requires '\n' in text
    ensures i < |text| && text[i] == '\n' && '\n' !in text[..i]
  {
    i := IndexOf(text, '\n');
    assert text[..|text|] == text;
  }

  lemma FirstLineGoesOut(s: string, line: string, rest: string)
    requires Registered([s]) && '\n' !in line && |line| < |s|
    requires '=' !in line && ':' !in line && '\r' !in line
    ensures SinkOf([s], Complete(line + "\n" + rest)) == line + "\n" + SinkOf([s], Complete(rest))
    ensures Tail(line + "\n" + rest) == Tail(rest)
  {
    hide Complete, Tail, RedactWith, Registered;
    OneLine(line);
    SplitAppend(line + "\n", rest);
    assert ([line] + Complete(rest))[1..] == Complete(rest);
    if line != "" {
      NothingToTrim(line);
      Untouched(s, line);
    }
  }

  /** A secret of several lines is never seen whole: it goes out as it is. */
  lemma SeveralLinesLeak(s: string)
    requires Registered([s]) && '\n' in s && '=' !in s && ':' !in s && '\r' !in s
    ensures SinkOf([s], Complete(s + "\n")) == s + "\n"
  {
    hide SinkOf, Complete, Tail, RedactWith, TrimEol, Registered;
    var i := FirstLineFeed(s);
    var line, rest := s[..i], s[i + 1..] + "\n";
    assert s + "\n" == line + "\n" + rest;
    forall c | c in line ensures c in s {
    }
    forall c | c in s[i + 1..] ensures c in s {
    }
    FirstLineGoesOut(s, line, rest);
    ShortLinesPass(s, rest);
  }

  /** The writer, without flushes, keeps a secret of ordinary characters out of the sink for every text exactly when
      the secret has no line feed in it. */
  lemma OneLineSecretsIff(s: string)
    requires Registered([s]) && !Touches(s) && '=' !in s && ':' !in s && '\r' !in s
    ensures (forall text :: FreeOf(SinkOf([s], Complete(text)), s)) <==> '\n' !in s
  {
    hide SinkOf, Complete, Tail, RedactWith, Touches;
    assert [s][0] == s;
    if '\n' in s {
      SeveralLinesLeak(s);
      assert OccursAt(s + "\n", s, 0) by {
        assert (s + "\n")[0..|s|] == s;
      }
      assert !FreeOf(SinkOf([s], Complete(s + "\n")), s);
    } else {
      forall text ensures FreeOf(SinkOf([s], Complete(text)), s) {
        SinkHoldsNoSecret([s], Complete(text), 0);
      }
    }
  }
}
