/** Which hosts and ports the patterns of a known_hosts line cover, form by form. */
module HostPatternTheorems {
  import opened Basics
  import opened Text
  import Glob
  import opened KnownHosts
  import opened KnownHostsTheorems

  /** The pattern covers the lower-cased host as a wildcard pattern does. */
  predicate Covers(lib: Library, pattern: string, host: string) {
    Glob.Glob(lib.fold, pattern, 0, lib.lower(host), 0)
  }

  /** A line with one pattern. */
  predicate Single(e: Entry, pattern: string) {
    e.patterns == [pattern]
  }

  lemma SingleApplies(lib: Library, e: Entry, pattern: string, host: string, port: u16)
    requires Single(e, pattern)
    ensures Applies(lib, e, host, port) <==> !StartsWith(pattern, "!") && PatternMatches(lib, pattern, host, port)
  {
    hide PatternMatches;
    if Applies(lib, e, host, port) {
      var i :| 0 <= i < |e.patterns| && Positive(lib, e.patterns[i], host, port);
      assert i == 0;
    } else {
      assert e.patterns[0] == pattern;
    }
  }

  lemma MatchesIsCovers(lib: Library, pattern: string, host: string)
    requires lib.fold('*') == '*' && '*' !in lib.lower(host)
    ensures Glob.Matches(lib.fold, pattern, lib.lower(host)) == Covers(lib, pattern, host)
  {
    hide Glob.Matches, Glob.Glob;
    Glob.MatcherIsExactIff(lib.fold, lib.lower(host));
  }

  /** A pattern that is read as a host and perhaps a port. */
  lemma SplitApplies(lib: Library, e: Entry, pattern: string, h: string, p: Option<u16>, host: string, port: u16)
    requires lib.fold('*') == '*' && '*' !in lib.lower(host)
    requires Single(e, pattern) && !StartsWith(pattern, "!") && !StartsWith(pattern, "|1|")
    requires SplitHostPort(pattern) == (h, p)
    ensures Applies(lib, e, host, port) <==> (p == None || p == Some(port)) && Covers(lib, h, host)
  {
    hide SplitHostPort, Applies, Covers, Glob.Matches;
    SingleApplies(lib, e, pattern, host, port);
    MatchesIsCovers(lib, h, host);
  }

  // ----- With a port ---------------------------------------------------------

  /** `[h]:p` covers what h covers, on port p alone. */
  lemma BracketedPattern(lib: Library, e: Entry, h: string, p: u16, host: string, port: u16)
    requires lib.fold('*') == '*' && '*' !in lib.lower(host) && ']' !in h
    requires Single(e, "[" + h + "]:" + Decimal(p))
    ensures Applies(lib, e, host, port) <==> p == port && Covers(lib, h, host)
  {
    hide Applies, SplitHostPort, Covers, Decimal;
    var pattern := "[" + h + "]:" + Decimal(p);
    SplitBracketed(h, p);
    assert pattern[0] == '[';
    SplitApplies(lib, e, pattern, h, Some(p), host, port);
  }

  lemma SplitAtColon(h: string, tail: string)
    requires ':' !in h && ':' !in tail && !StartsWith(h, "[")
    ensures SplitHostPort(h + ":" + tail) == (h, ParseU16(tail))
  {
    hide ParseU16;
    var pattern := h + ":" + tail;
    assert pattern == h + [':'] + tail;
    IndexOfCons(h, tail, ':');
    assert pattern[..|h|] == h && pattern[|h| + 1..] == tail;
    if h == "" {
      assert pattern[0] == ':';
    } else {
      assert pattern[0] == h[0] && h[..1] == [h[0]];
    }
  }

  /** `h:p` with its one colon does the same. */
  lemma ColonPattern(lib: Library, e: Entry, h: string, p: u16, host: string, port: u16)
    requires lib.fold('*') == '*' && '*' !in lib.lower(host)
    requires ':' !in h && !StartsWith(h, "[") && !StartsWith(h, "!") && !StartsWith(h, "|1|")
    requires Single(e, h + ":" + Decimal(p))
    ensures Applies(lib, e, host, port) <==> p == port && Covers(lib, h, host)
  {
    hide Applies, SplitHostPort, Covers, Decimal, ParseU16;
    NoColon(Decimal(p));
    SplitAtColon(h, Decimal(p));
    ParseDecimal(p);
    StartKept(h, ":" + Decimal(p));
    assert h + (":" + Decimal(p)) == h + ":" + Decimal(p);
    SplitApplies(lib, e, h + ":" + Decimal(p), h, Some(p), host, port);
  }

  lemma NoColon(digits: string)
    requires forall i :: 0 <= i < |digits| ==> '0' <= digits[i] <= '9'
    ensures ':' !in digits
  {
  }

  /** A tail that begins with a colon makes no negation and no hash of a host. */
  lemma StartKept(h: string, tail: string)
    requires tail != "" && tail[0] == ':' && !StartsWith(h, "!") && !StartsWith(h, "|1|")
    ensures !StartsWith(h + tail, "!") && !StartsWith(h + tail, "|1|")
  {
    StartsAt(h, "!");
    StartsAt(h, "|1|");
    StartsAt(h + tail, "!");
    StartsAt(h + tail, "|1|");
    assert (h + tail)[|h|] == ':';
  }

  lemma StartsAt(s: string, prefix: string)
    ensures StartsWith(s, prefix) <==> |prefix| <= |s| && forall i :: 0 <= i < |prefix| ==> s[i] == prefix[i]
  {
  }

  // ----- Without one ---------------------------------------------------------

  /** Without a bracket in front, and with no colon or more than one, the whole pattern is the host, on every port. */
  lemma PlainPattern(lib: Library, e: Entry, h: string, host: string, port: u16)
    requires lib.fold('*') == '*' && '*' !in lib.lower(host)
    requires !StartsWith(h, "[") && !StartsWith(h, "!") && !StartsWith(h, "|1|")
    requires ':' !in h || exists i, j :: 0 <= i < j < |h| && h[i] == ':' && h[j] == ':'
    requires Single(e, h)
    ensures Applies(lib, e, host, port) <==> Covers(lib, h, host)
  {
    hide Applies, SplitHostPort, Covers;
    SplitWhole(h);
    SplitApplies(lib, e, h, h, None, host, port);
  }

  lemma SplitWhole(h: string)
    requires !StartsWith(h, "[")
    requires ':' !in h || exists i, j :: 0 <= i < j < |h| && h[i] == ':' && h[j] == ':'
    ensures SplitHostPort(h) == (h, None)
  {
    hide ParseU16;
    var n := IndexOf(h, ':');
    if n < |h| {
      assert h[n] in h;
      var i, j :| 0 <= i < j < |h| && h[i] == ':' && h[j] == ':';
      FirstIsFirst(h, ':', i);
      assert h[n + 1..][j - n - 1] == ':';
    }
  }

  lemma {:induction false} FirstIsFirst(s: string, c: char, i: nat)
    requires i < |s| && s[i] == c
    ensures IndexOf(s, c) <= i
  {
    if s[0] != c {
      FirstIsFirst(s[1..], c, i - 1);
    }
  }

  lemma {:induction false} NoneIsLength(s: string, c: char)
    requires c !in s
    ensures IndexOf(s, c) == |s|
  {
    if s != "" {
      assert s[0] in s && forall x :: x in s[1..] ==> x in s;
      NoneIsLength(s[1..], c);
    }
  }

  /** Brackets without a port, or with what is no port number behind them, name the host in them on every port. */
  lemma BracketedHost(lib: Library, e: Entry, h: string, tail: string, host: string, port: u16)
    requires lib.fold('*') == '*' && '*' !in lib.lower(host) && ']' !in h
    requires tail == "" || tail[0] != ':' || ParseU16(tail[1..]) == None
    requires Single(e, "[" + h + "]" + tail)
    ensures Applies(lib, e, host, port) <==> Covers(lib, h, host)
  {
    hide Applies, SplitHostPort, Covers, ParseU16;
    var pattern := "[" + h + "]" + tail;
    assert pattern[0] == '[';
    SplitBrackets(h, tail);
    SplitApplies(lib, e, pattern, h, None, host, port);
  }

  lemma SplitBrackets(h: string, tail: string)
    requires ']' !in h && (tail == "" || tail[0] != ':' || ParseU16(tail[1..]) == None)
    ensures SplitHostPort("[" + h + "]" + tail) == (h, None)
  {
    hide ParseU16;
    var pattern := "[" + h + "]" + tail;
    var rest := h + [']'] + tail;
    assert pattern[..1] == "[" && pattern[1..] == rest;
    IndexOfCons(h, tail, ']');
    assert rest[..|h|] == h && rest[|h| + 1..] == tail;
    if StartsWith(tail, ":") {
      assert tail[0] == ':';
    }
  }

  /** A bracket that is not closed is dropped. */
  lemma UnclosedBracket(lib: Library, e: Entry, h: string, host: string, port: u16)
    requires lib.fold('*') == '*' && '*' !in lib.lower(host) && ']' !in h
    requires Single(e, "[" + h)
    ensures Applies(lib, e, host, port) <==> Covers(lib, h, host)
  {
    hide Applies, SplitHostPort, Covers;
    var pattern := "[" + h;
    assert pattern[0] == '[';
    SplitUnclosed(h);
    SplitApplies(lib, e, pattern, h, None, host, port);
  }

  lemma SplitUnclosed(h: string)
    requires ']' !in h
    ensures SplitHostPort("[" + h) == (h, None)
  {
    NoneIsLength(h, ']');
    assert ("[" + h)[..1] == "[" && ("[" + h)[1..] == h;
  }

  /** One colon with what is no port number behind it: the host before it, on every port. */
  lemma ColonWithoutPort(lib: Library, e: Entry, h: string, tail: string, host: string, port: u16)
    requires lib.fold('*') == '*' && '*' !in lib.lower(host)
    requires ':' !in h && !StartsWith(h, "[") && !StartsWith(h, "!") && !StartsWith(h, "|1|")
    requires ':' !in tail && ParseU16(tail) == None
    requires Single(e, h + ":" + tail)
    ensures Applies(lib, e, host, port) <==> Covers(lib, h, host)
  {
    hide Applies, SplitHostPort, Covers, ParseU16;
    SplitAtColon(h, tail);
    StartKept(h, ":" + tail);
    assert h + (":" + tail) == h + ":" + tail;
    SplitApplies(lib, e, h + ":" + tail, h, None, host, port);
  }

  /** What is no port number: nothing, a sign alone, anything with another character in it, and what exceeds 65535. */
  lemma NoPort(s: string)
    requires s == "" || s == "+" || exists i :: 0 <= i < |s| && !('0' <= s[i] <= '9') && (i == 0 ==> s[i] != '+')
    ensures ParseU16(s) == None
  {
    if i :| 0 <= i < |s| && !('0' <= s[i] <= '9') && (i == 0 ==> s[i] != '+') {
      if s[0] == '+' {
        assert s[1..][i - 1] == s[i];
        NoValue(s[1..], i - 1);
      } else {
        NoValue(s, i);
      }
    }
  }

  lemma {:induction false} NoValue(s: string, i: nat)
    requires i < |s| && !('0' <= s[i] <= '9')
    ensures DigitsValue(s) == None
  {
    if i < |s| - 1 {
      NoValue(s[..|s| - 1], i);
    }
  }

  lemma TooLargeIsNoPort(n: nat)
    requires n > 65535
    ensures ParseU16(Decimal(n)) == None
  {
    DecimalValue(n);
    assert '0' <= Decimal(n)[0];
  }

  // ----- Hashed --------------------------------------------------------------

  /** A hashed pattern covers the host whose recorded name its second field authenticates under its first. */
  lemma HashedPattern(lib: Library, e: Entry, a: string, b: string, host: string, port: u16)
    requires '|' !in a && Single(e, "|1|" + a + "|" + b)
    ensures var name := if port == 22 then lib.lower(host) else "[" + lib.lower(host) + "]:" + Decimal(port);
            Applies(lib, e, host, port) <==>
              lib.decode(a).Some? && lib.decode(b).Some?
              && lib.macVerifies(lib.decode(a).value, name, lib.decode(b).value)
  {
    hide Applies, HashedMatches;
    var pattern, body := "|1|" + a + "|" + b, a + ['|'] + b;
    assert pattern == "|1|" + body;
    assert pattern[..3] == "|1|" && pattern[3..] == body && pattern[0] == '|';
    SingleApplies(lib, e, pattern, host, port);
    assert HASHED == "|1|" && |HASHED| == 3;
    HashedBody(lib, a, b, host, port);
  }

  lemma HashedBody(lib: Library, a: string, b: string, host: string, port: u16)
    requires '|' !in a
    ensures HashedMatches(lib, a + ['|'] + b, host, port) <==>
              lib.decode(a).Some? && lib.decode(b).Some?
              && lib.macVerifies(lib.decode(a).value, HostName(lib, host, port), lib.decode(b).value)
  {
    hide HostName;
    var body := a + ['|'] + b;
    IndexOfCons(a, b, '|');
    assert body[..|a|] == a && body[|a| + 1..] == b;
  }

  /** Without a second field it covers nothing. */
  lemma HalfHashed(lib: Library, e: Entry, a: string, host: string, port: u16)
    requires '|' !in a && Single(e, "|1|" + a)
    ensures !Applies(lib, e, host, port)
  {
    hide Applies;
    var pattern := "|1|" + a;
    assert pattern[..3] == "|1|" && pattern[3..] == a;
    SingleApplies(lib, e, pattern, host, port);
    NoneIsLength(a, '|');
  }

  // ----- Several patterns ----------------------------------------------------

  function Alone(e: Entry, pattern: string): Entry {
    e.(patterns := [pattern])
  }

  /** A negated pattern that covers the host takes the whole line away from it, wherever it stands in the line. */
  lemma NegatedPattern(lib: Library, e: Entry, i: nat, pattern: string, host: string, port: u16)
    requires i < |e.patterns| && e.patterns[i] == "!" + pattern
    requires Applies(lib, Alone(e, pattern), host, port)
    ensures !Applies(lib, e, host, port)
  {
    hide PatternMatches;
    SingleApplies(lib, Alone(e, pattern), pattern, host, port);
    NegationIsRead(pattern);
    assert Excludes(lib, e.patterns[i], host, port);
  }

  lemma NegationIsRead(pattern: string)
    ensures StartsWith("!" + pattern, "!") && ("!" + pattern)[1..] == pattern
  {
  }

  /** A line covers what one of its patterns covers alone and no negated one takes away. */
  lemma SeveralPatterns(lib: Library, e: Entry, host: string, port: u16)
    requires forall i :: 0 <= i < |e.patterns| ==> !StartsWith(e.patterns[i], "!!")
    ensures Applies(lib, e, host, port) <==>
              && (exists i :: 0 <= i < |e.patterns| && Applies(lib, Alone(e, e.patterns[i]), host, port))
              && (forall i :: 0 <= i < |e.patterns| && StartsWith(e.patterns[i], "!") ==>
                    !Applies(lib, Alone(e, e.patterns[i][1..]), host, port))
  {
    hide PatternMatches, Applies;
    forall i | 0 <= i < |e.patterns|
      ensures Applies(lib, Alone(e, e.patterns[i]), host, port) <==> Positive(lib, e.patterns[i], host, port)
    {
      SingleApplies(lib, Alone(e, e.patterns[i]), e.patterns[i], host, port);
    }
    forall i | 0 <= i < |e.patterns| && StartsWith(e.patterns[i], "!")
      ensures Applies(lib, Alone(e, e.patterns[i][1..]), host, port) <==> Excludes(lib, e.patterns[i], host, port)
    {
      SingleApplies(lib, Alone(e, e.patterns[i][1..]), e.patterns[i][1..], host, port);
      OneNegation(e.patterns[i]);
    }
    AppliesParts(lib, e, host, port);
  }

  lemma OneNegation(pattern: string)
    requires StartsWith(pattern, "!") && !StartsWith(pattern, "!!")
    ensures !StartsWith(pattern[1..], "!")
  {
    StartsAt(pattern, "!");
    StartsAt(pattern, "!!");
    StartsAt(pattern[1..], "!");
  }

  lemma AppliesParts(lib: Library, e: Entry, host: string, port: u16)
    ensures Applies(lib, e, host, port) <==>
              && (exists i :: 0 <= i < |e.patterns| && Positive(lib, e.patterns[i], host, port))
              && (forall i :: 0 <= i < |e.patterns| && StartsWith(e.patterns[i], "!") ==>
                    !Excludes(lib, e.patterns[i], host, port))
  {
    hide PatternMatches;
  }
}
