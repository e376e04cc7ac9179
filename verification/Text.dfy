/** The string primitives of the standard library that the components rely on. */
module Text {
  import opened Basics

  /** `text.split(sep)`: at least one field, separators dropped. */
  function SplitOn(text: string, sep: char): (fields: seq<string>)
    ensures |fields| >= 1
    ensures forall i :: 0 <= i < |fields| ==> sep !in fields[i]
  {
    if text == "" then [""]
    else
      var rest := SplitOn(text[1..], sep);
      if text[0] == sep then [""] + rest
      else [[text[0]] + rest[0]] + rest[1..]
  }

  /** `fields.join(sep)` */
  function Join(fields: seq<string>, sep: string): string {
    if fields == [] then ""
    else if |fields| == 1 then fields[0]
    else fields[0] + sep + Join(fields[1..], sep)
  }

  /** Joining undoes splitting. */
  lemma {:induction false} JoinSplit(text: string, sep: char)
    ensures Join(SplitOn(text, sep), [sep]) == text
  {
    if text != "" {
      JoinSplit(text[1..], sep);
      var rest := SplitOn(text[1..], sep);
      if text[0] == sep {
        assert ([""] + rest)[1..] == rest;
        assert "" + [sep] + text[1..] == text;
      } else {
        var all := [[text[0]] + rest[0]] + rest[1..];
        assert all[1..] == rest[1..];
        assert [text[0]] + text[1..] == text;
        if |rest| > 1 {
          assert all[0] + [sep] + Join(rest[1..], [sep]) == [text[0]] + (rest[0] + [sep] + Join(rest[1..], [sep]));
        }
      }
    }
  }

  // ----- Searching -----------------------------------------------------------

  /** The position of the first `c`, or the length when there is none. */
  function IndexOf(s: string, c: char): (i: nat)
    ensures i <= |s| && c !in s[..i] && (i < |s| ==> s[i] == c)
  {
    if s == "" || s[0] == c then 0
    else
      var i := IndexOf(s[1..], c);
      assert s[..i + 1] == [s[0]] + s[1..][..i];
      i + 1
  }

  lemma {:induction false} IndexOfCons(head: string, tail: string, c: char)
    requires c !in head
    ensures IndexOf(head + [c] + tail, c) == |head|
  {
    if head != "" {
      assert head[0] in head && forall x :: x in head[1..] ==> x in head;
      assert (head + [c] + tail)[1..] == head[1..] + [c] + tail;
      IndexOfCons(head[1..], tail, c);
    }
  }

  predicate StartsWith(s: string, prefix: string) {
    prefix <= s
  }

  // ----- White space ---------------------------------------------------------

  /** The Unicode White_Space property. */
  predicate IsSpace(c: char) {
    var n := c as int;
    || 0x09 <= n <= 0x0D || n == 0x20 || n == 0x85 || n == 0xA0 || n == 0x1680
    || 0x2000 <= n <= 0x200A || n == 0x2028 || n == 0x2029 || n == 0x202F || n == 0x205F || n == 0x3000
  }

  /** A non-empty run without white space. */
  predicate IsToken(s: string) {
    s != "" && forall i :: 0 <= i < |s| ==> !IsSpace(s[i])
  }

  predicate AllTokens(ts: seq<string>) {
    forall i :: 0 <= i < |ts| ==> IsToken(ts[i])
  }

  /** `split_whitespace` */
  function Tokens(s: string): (ts: seq<string>)
    ensures s != "" && !IsSpace(s[0]) ==> ts != [] && ts[0] != "" && ts[0][0] == s[0]
    ensures AllTokens(ts)
  {
    if s == "" then []
    else
      var rest := Tokens(s[1..]);
      if IsSpace(s[0]) then rest
      else if |s| == 1 || IsSpace(s[1]) then [[s[0]]] + rest
      else [[s[0]] + rest[0]] + rest[1..]
  }

  function TrimStart(s: string): string {
    if s != "" && IsSpace(s[0]) then TrimStart(s[1..]) else s
  }

  function TrimEnd(s: string): string {
    if s != "" && IsSpace(s[|s| - 1]) then TrimEnd(s[..|s| - 1]) else s
  }

  function Trim(s: string): string {
    TrimEnd(TrimStart(s))
  }

  lemma {:induction false} TokensTrimStart(s: string)
    ensures Tokens(TrimStart(s)) == Tokens(s)
    ensures TrimStart(s) == "" || !IsSpace(TrimStart(s)[0])
  {
    if s != "" && IsSpace(s[0]) {
      TokensTrimStart(s[1..]);
    }
  }

  lemma {:induction false} TokensDropLastSpace(s: string)
    requires s != "" && IsSpace(s[|s| - 1])
    ensures Tokens(s[..|s| - 1]) == Tokens(s)
  {
    if |s| > 1 {
      var head, tail := s[..|s| - 1], s[1..];
      assert tail[..|tail| - 1] == head[1..];
      TokensDropLastSpace(tail);
    }
  }

  lemma {:induction false} TokensTrimEnd(s: string)
    ensures Tokens(TrimEnd(s)) == Tokens(s)
    ensures TrimEnd(s) != "" ==> s != "" && TrimEnd(s)[0] == s[0]
    decreases |s|
  {
    if s != "" && IsSpace(s[|s| - 1]) {
      TokensDropLastSpace(s);
      TokensTrimEnd(s[..|s| - 1]);
    }
  }

  /** Trimming changes no token, and leaves the first one at the front. */
  lemma TokensTrim(s: string)
    ensures Tokens(Trim(s)) == Tokens(s)
    ensures Trim(s) == "" <==> Tokens(s) == []
    ensures Trim(s) != "" ==> Trim(s)[0] == Tokens(s)[0][0]
  {
    TokensTrimStart(s);
    TokensTrimEnd(TrimStart(s));
  }

  /** A token and a space in front of a text are one more token. */
  lemma {:induction false} TokensCons(t: string, rest: string)
    requires IsToken(t)
    ensures Tokens(t + " " + rest) == [t] + Tokens(rest)
    ensures Tokens(t) == [t]
  {
    var s := t + " " + rest;
    if |t| == 1 {
      assert s[1..] == " " + rest && (" " + rest)[1..] == rest;
      assert t == [t[0]] && t[1..] == "";
    } else {
      assert s[1..] == t[1..] + " " + rest;
      TokensCons(t[1..], rest);
      assert t == [t[0]] + t[1..];
    }
  }

  /** Tokenizing undoes joining with single spaces. */
  lemma {:induction false} TokensJoin(ts: seq<string>)
    requires AllTokens(ts)
    ensures Tokens(Join(ts, " ")) == ts
  {
    if |ts| == 1 {
      TokensCons(ts[0], "");
    } else if |ts| > 1 {
      TokensJoin(ts[1..]);
      TokensCons(ts[0], Join(ts[1..], " "));
    }
  }

  lemma {:induction false} JoinConcat(a: seq<string>, b: seq<string>, sep: string)
    requires a != [] && b != []
    ensures Join(a + b, sep) == Join(a, sep) + sep + Join(b, sep)
  {
    if |a| == 1 {
      assert (a + b)[1..] == b;
    } else {
      assert (a + b)[1..] == a[1..] + b;
      JoinConcat(a[1..], b, sep);
      assert a[0] + sep + (Join(a[1..], sep) + sep + Join(b, sep)) == a[0] + sep + Join(a[1..], sep) + sep + Join(b, sep);
    }
  }

  /** Joined tokens hold no white space but the spaces between them. */
  lemma {:induction false} JoinHasOnlySpaces(ts: seq<string>)
    requires AllTokens(ts)
    ensures forall i :: 0 <= i < |Join(ts, " ")| ==> IsSpace(Join(ts, " ")[i]) ==> Join(ts, " ")[i] == ' '
  {
    if |ts| > 1 {
      JoinHasOnlySpaces(ts[1..]);
    }
  }

  // ----- Lines ---------------------------------------------------------------

  /** `lines`: split at each line feed, an ending carriage return going with it;
      what follows the last line feed is a line unless it is empty. */
  function Lines(text: string): seq<string>
    decreases |text|
  {
    if text == "" then []
    else
      var i := IndexOf(text, '\n');
      if i == |text| then [text] else [StripCr(text[..i])] + Lines(text[i + 1..])
  }

  function StripCr(line: string): string {
    if line != "" && line[|line| - 1] == '\r' then line[..|line| - 1] else line
  }

  function Unlines(lines: seq<string>): string {
    if lines == [] then "" else lines[0] + "\n" + Unlines(lines[1..])
  }

  /** No carriage return or line feed that would be taken for an ending. */
  predicate IsLine(line: string) {
    '\n' !in line && '\r' !in line
  }

  lemma {:induction false} LinesUnlines(lines: seq<string>)
    requires forall i :: 0 <= i < |lines| ==> IsLine(lines[i])
    ensures Lines(Unlines(lines)) == lines
  {
    if lines != [] {
      LinesUnlines(lines[1..]);
      var text, line := Unlines(lines), lines[0];
      var i := IndexOf(text, '\n');
      assert text == line + ['\n'] + Unlines(lines[1..]);
      IndexOfCons(line, Unlines(lines[1..]), '\n');
      assert text[..i] == line && text[i + 1..] == Unlines(lines[1..]);
      if line != "" {
        assert line[|line| - 1] in line;
      }
    }
  }

  // ----- Splitting undoes joining --------------------------------------------

  lemma {:induction false} SplitCons(field: string, rest: string, sep: char)
    requires sep !in field
    ensures SplitOn(field + [sep] + rest, sep) == [field] + SplitOn(rest, sep)
    ensures SplitOn(field, sep) == [field]
  {
    var text := field + [sep] + rest;
    if field == "" {
      assert text[1..] == rest;
    } else {
      assert field[0] in field;
      assert forall c :: c in field[1..] ==> c in field;
      assert text[1..] == field[1..] + [sep] + rest;
      SplitCons(field[1..], rest, sep);
      assert [field[0]] + field[1..] == field;
    }
  }

  /** For fields free of the separator, splitting undoes joining. */
  lemma {:induction false} SplitJoin(fields: seq<string>, sep: char)
    requires fields != [] && forall i :: 0 <= i < |fields| ==> sep !in fields[i]
    ensures SplitOn(Join(fields, [sep]), sep) == fields
  {
    hide SplitOn;
    SplitCons(fields[0], "", sep);
    if |fields| > 1 {
      SplitJoin(fields[1..], sep);
      SplitCons(fields[0], Join(fields[1..], [sep]), sep);
    }
  }

  // ----- Decimal numerals ----------------------------------------------------

  function Digit(d: nat): char
    requires d < 10
  {
    '0' + d as char
  }

  function Decimal(n: nat): (s: string)
    ensures s != ""
    ensures forall i :: 0 <= i < |s| ==> '0' <= s[i] <= '9'
  {
    if n < 10 then [Digit(n)] else Decimal(n / 10) + [Digit(n % 10)]
  }

  /** The value of a numeral, when it is one. */
  function DigitsValue(s: string): Option<nat> {
    if s == "" then Some(0)
    else
      var c, high := s[|s| - 1], DigitsValue(s[..|s| - 1]);
      if high.Some? && '0' <= c <= '9' then Some(high.value * 10 + (c as int - '0' as int)) else None
  }

  /** `str::parse::<u16>`: an optional `+`, then at least one digit. */
  function ParseU16(s: string): Option<u16> {
    var digits := if s != "" && s[0] == '+' then s[1..] else s;
    var v := DigitsValue(digits);
    if digits != "" && v.Some? && v.value <= U16_MAX then Some(v.value) else None
  }

  lemma {:induction false} DecimalValue(n: nat)
    ensures DigitsValue(Decimal(n)) == Some(n)
  {
    if n >= 10 {
      DecimalValue(n / 10);
      var s := Decimal(n);
      assert s[..|s| - 1] == Decimal(n / 10);
    }
  }

  lemma ParseDecimal(n: u16)
    ensures ParseU16(Decimal(n)) == Some(n)
  {
    DecimalValue(n);
    assert '0' <= Decimal(n)[0];
  }
}
