/** The timestamp printer: crates/rdt-types/src/timeutil.rs, format_rfc3339. */
module Rfc3339 {
  import opened Basics
  import opened Civil
  import opened Text

  const DAY: nat := 86_400_000

  /** A number printed with leading zeros up to a width, and the character after it. */
  datatype Field = Field(value: nat, width: nat, separator: char)

  function Padded(n: nat, width: nat): (s: string)
    ensures |s| >= width && s != ""
    ensures forall i :: 0 <= i < |s| ==> '0' <= s[i] <= '9'
  {
    Zeros(SaturatingSub(width, |Decimal(n)|)) + Decimal(n)
  }

  function Zeros(n: nat): (s: string)
    ensures |s| == n && forall i :: 0 <= i < n ==> s[i] == '0'
  {
    Repeat(n, '0')
  }

  function Render(fields: seq<Field>): string
    decreases |fields|
  {
    if fields == [] then ""
    else Padded(fields[0].value, fields[0].width) + ([fields[0].separator] + Render(fields[1..]))
  }

  function Fields(millis: nat): (f: seq<Field>)
    ensures |f| == 7
  {
    EveryStampIsAfterEpoch(millis);
    var date := CivilFromDays(millis / DAY);
    var rest := millis % DAY;
    [ Field(date.year, 4, '-'), Field(date.month, 2, '-'), Field(date.day, 2, 'T'),
      Field(rest / 3_600_000, 2, ':'), Field(rest % 3_600_000 / 60_000, 2, ':'),
      Field(rest % 60_000 / 1000, 2, '.'), Field(rest % 1000, 3, 'Z') ]
  }

  function FormatRfc3339(millis: nat): string {
    Render(Fields(millis))
  }

  lemma EveryStampIsAfterEpoch(millis: nat)
    ensures var date := CivilFromDays(millis / DAY); date.year >= 1970 && date.month > 0 && date.day > 0
  {
    hide CivilFromDays;
    Epoch();
    EveryDayIsADate(millis / DAY);
    DatesKeepOrder(0, millis / DAY);
    DatesKeepOrder(millis / DAY, 0);
  }

  // ----- Reading a stamp back ------------------------------------------------

  predicate IsDigit(c: char) {
    '0' <= c <= '9'
  }

  /** How many digits a text starts with. */
  function DigitRun(s: string): (n: nat)
    ensures n <= |s|
  {
    if s == "" || !IsDigit(s[0]) then 0 else 1 + DigitRun(s[1..])
  }

  /** The numbers of a text in which every number is followed by one separator. */
  function Numbers(s: string): seq<nat>
    decreases |s|
  {
    if s == "" then []
    else
      var n := DigitRun(s);
      var v := DigitsValue(s[..n]);
      [if v.Some? then v.value else 0] + (if n < |s| then Numbers(s[n + 1..]) else [])
  }

  /** The instant a stamp denotes. */
  function ReadRfc3339(s: string): int {
    var v := Numbers(s);
    if |v| != 7 then -1
    else DaysSinceCivil(Date(v[0], v[1], v[2])) * DAY + v[3] * 3_600_000 + v[4] * 60_000 + v[5] * 1000 + v[6]
  }

  lemma {:induction false} PaddedValue(n: nat, width: nat)
    ensures DigitsValue(Padded(n, width)) == Some(n)
  {
    DecimalValue(n);
    LeadingZeros(SaturatingSub(width, |Decimal(n)|), Decimal(n));
  }

  lemma {:induction false} LeadingZeros(n: nat, s: string)
    ensures DigitsValue(Zeros(n) + s) == DigitsValue(s)
    decreases n + |s|
  {
    if s != "" {
      assert (Zeros(n) + s)[..n + |s| - 1] == Zeros(n) + s[..|s| - 1];
      LeadingZeros(n, s[..|s| - 1]);
    } else if n > 0 {
      assert Zeros(n) + s == Zeros(n - 1) + "0";
      assert (Zeros(n - 1) + "0")[..n - 1] == Zeros(n - 1) + "";
      LeadingZeros(n - 1, "");
    }
  }

  lemma {:induction false} RunEnds(digits: string, c: char, rest: string)
    requires (forall i :: 0 <= i < |digits| ==> IsDigit(digits[i])) && !IsDigit(c)
    ensures DigitRun(digits + ([c] + rest)) == |digits|
  {
    var s := digits + ([c] + rest);
    if digits == "" {
      assert s[0] == c;
    } else {
      assert s[0] == digits[0] && s[1..] == digits[1..] + ([c] + rest);
      RunEnds(digits[1..], c, rest);
    }
  }

  lemma {:induction false} ReadRendered(fields: seq<Field>)
    requires forall k :: 0 <= k < |fields| ==> !IsDigit(fields[k].separator)
    ensures |Numbers(Render(fields))| == |fields|
    ensures forall k :: 0 <= k < |fields| ==> Numbers(Render(fields))[k] == fields[k].value
    decreases |fields|
  {
    hide Padded, DigitsValue, DigitRun;
    if fields != [] {
      var f, s := fields[0], Render(fields);
      var digits, rest := Padded(f.value, f.width), Render(fields[1..]);
      RunEnds(digits, f.separator, rest);
      assert s[..|digits|] == digits && s[|digits| + 1..] == rest;
      PaddedValue(f.value, f.width);
      ReadRendered(fields[1..]);
      assert Numbers(s) == [f.value] + Numbers(rest);
    }
  }

  /** The printed stamp denotes the instant it was printed from. */
  lemma StampsReadBack(millis: nat)
    ensures ReadRfc3339(FormatRfc3339(millis)) == millis
  {
    hide CivilFromDays, DaysSinceCivil, Numbers, Render;
    var fields := Fields(millis);
    ReadRendered(fields);
    DaysOfCivil(millis / DAY);
    TimeOfDay(millis % DAY);
  }

  lemma TimeOfDay(rest: nat)
    ensures rest / 3_600_000 * 3_600_000 + rest % 3_600_000 / 60_000 * 60_000 + rest % 60_000 / 1000 * 1000 + rest % 1000
         == rest
  {
    assert rest % 3_600_000 % 60_000 == rest % 60_000;
    assert rest % 60_000 % 1000 == rest % 1000;
  }

  /** No two instants print alike. */
  lemma FormatIsInjective(a: nat, b: nat)
    requires FormatRfc3339(a) == FormatRfc3339(b)
    ensures a == b
  {
    StampsReadBack(a);
    StampsReadBack(b);
  }

  // ----- Order of the strings ------------------------------------------------

  /** Rust's order on strings, here all ASCII: the first difference decides. */
  predicate Less(a: string, b: string) {
    if b == "" then false
    else if a == "" then true
    else a[0] < b[0] || (a[0] == b[0] && Less(a[1..], b[1..]))
  }

  lemma {:induction false} LessExtends(a: string, b: string, x: string, y: string)
    requires |a| == |b| && Less(a, b)
    ensures Less(a + x, b + y)
  {
    assert (a + x)[0] == a[0] && (b + y)[0] == b[0];
    assert (a + x)[1..] == a[1..] + x && (b + y)[1..] == b[1..] + y;
    if a[0] == b[0] {
      LessExtends(a[1..], b[1..], x, y);
    }
  }

  lemma {:induction false} LessBehind(p: string, a: string, b: string)
    requires Less(a, b)
    ensures Less(p + a, p + b)
  {
    if p == "" {
      assert p + a == a && p + b == b;
    } else {
      assert (p + a)[1..] == p[1..] + a && (p + b)[1..] == p[1..] + b;
      LessBehind(p[1..], a, b);
    }
  }

  lemma {:induction false} LessIsOneWay(a: string, b: string)
    requires Less(a, b)
    ensures !Less(b, a)
  {
    if a != "" && a[0] == b[0] {
      LessIsOneWay(a[1..], b[1..]);
    }
  }

  /** Numerals of one length are ordered as their values are. */
  lemma {:induction false} NumeralsInOrder(a: string, b: string)
    requires |a| == |b| && DigitsValue(a).Some? && DigitsValue(b).Some?
    ensures DigitsValue(a).value < DigitsValue(b).value ==> Less(a, b)
    ensures DigitsValue(a) == DigitsValue(b) ==> a == b
  {
    if a != "" {
      var n := |a| - 1;
      NumeralsInOrder(a[..n], b[..n]);
      assert a == a[..n] + [a[n]] && b == b[..n] + [b[n]];
      if Less(a[..n], b[..n]) {
        LessExtends(a[..n], b[..n], [a[n]], [b[n]]);
      } else if a[..n] == b[..n] && a[n] < b[n] {
        LessBehind(a[..n], [a[n]], [b[n]]);
      }
    }
  }

  /** Two lists of fields that print with the same widths and separators. */
  ghost predicate SameShape(a: seq<Field>, b: seq<Field>) {
    && |a| == |b|
    && forall k :: 0 <= k < |a| ==>
         && a[k].separator == b[k].separator
         && |Padded(a[k].value, a[k].width)| == |Padded(b[k].value, b[k].width)|
  }

  /** They agree before field k, and k is smaller in the first. */
  ghost predicate LessAt(a: seq<Field>, b: seq<Field>, k: nat) {
    && k < |a| == |b|
    && a[k].value < b[k].value
    && forall j :: 0 <= j < k ==> a[j].value == b[j].value
  }

  lemma {:induction false} RenderKeepsOrder(a: seq<Field>, b: seq<Field>, k: nat)
    requires SameShape(a, b) && LessAt(a, b, k)
    ensures Less(Render(a), Render(b))
    decreases k
  {
    hide Padded, Less, DigitsValue;
    var p, q := Padded(a[0].value, a[0].width), Padded(b[0].value, b[0].width);
    var x, y := [a[0].separator] + Render(a[1..]), [b[0].separator] + Render(b[1..]);
    PaddedValue(a[0].value, a[0].width);
    PaddedValue(b[0].value, b[0].width);
    NumeralsInOrder(p, q);
    if k == 0 {
      LessExtends(p, q, x, y);
    } else {
      assert p == q;
      RenderKeepsOrder(a[1..], b[1..], k - 1);
      LessBehind([a[0].separator], Render(a[1..]), Render(b[1..]));
      LessBehind(p, x, y);
    }
  }

  // ----- Widths --------------------------------------------------------------

  lemma {:induction false} DecimalGrows(a: nat, b: nat)
    requires a <= b
    ensures |Decimal(a)| <= |Decimal(b)|
  {
    if a >= 10 {
      DecimalGrows(a / 10, b / 10);
    }
  }

  lemma DecimalWidths()
    ensures |Decimal(99)| == 2 && |Decimal(999)| == 3 && |Decimal(9999)| == 4 && |Decimal(10_000)| == 5
  {
    assert Decimal(99) == Decimal(9) + [Digit(9)];
    assert Decimal(999) == Decimal(99) + [Digit(9)];
    assert Decimal(9999) == Decimal(999) + [Digit(9)];
    assert Decimal(10) == Decimal(1) + [Digit(0)];
    assert Decimal(100) == Decimal(10) + [Digit(0)];
    assert Decimal(1000) == Decimal(100) + [Digit(0)];
    assert Decimal(10_000) == Decimal(1000) + [Digit(0)];
  }

  function YearOf(millis: nat): nat {
    Fields(millis)[0].value
  }

  function YearWidth(millis: nat): nat {
    |Padded(YearOf(millis), 4)|
  }

  lemma FieldBounds(millis: nat)
    ensures var f := Fields(millis);
            && f[1].value <= 99 && f[2].value <= 99 && f[3].value <= 99 && f[4].value <= 99 && f[5].value <= 99
            && f[6].value <= 999
  {
    hide CivilFromDays;
    EveryDayIsADate(millis / DAY);
  }

  lemma TwoDigits(n: nat)
    requires n <= 99
    ensures |Padded(n, 2)| == 2
  {
    hide Decimal;
    DecimalGrows(n, 99);
    DecimalWidths();
  }

  lemma ThreeDigits(n: nat)
    requires n <= 999
    ensures |Padded(n, 3)| == 3
  {
    hide Decimal;
    DecimalGrows(n, 999);
    DecimalWidths();
  }

  lemma StampsHaveOneShape(a: nat, b: nat)
    requires YearWidth(a) == YearWidth(b)
    ensures SameShape(Fields(a), Fields(b))
  {
    hide Padded, CivilFromDays;
    var f, g := Fields(a), Fields(b);
    FieldBounds(a);
    FieldBounds(b);
    forall k | 1 <= k < 6 ensures |Padded(f[k].value, 2)| == |Padded(g[k].value, 2)| {
      TwoDigits(f[k].value);
      TwoDigits(g[k].value);
    }
    ThreeDigits(f[6].value);
    ThreeDigits(g[6].value);
  }

  // ----- The shape of a stamp ------------------------------------------------

  /** Digits where the pattern has a zero, the pattern's own characters elsewhere. */
  ghost predicate Fits(s: string, pattern: string) {
    |s| == |pattern| && forall i :: 0 <= i < |s| ==> if pattern[i] == '0' then IsDigit(s[i]) else s[i] == pattern[i]
  }

  /** A field in front of fields that fit. */
  lemma FieldFits(fields: seq<Field>, k: nat, head: string, tail: string)
    requires k < |fields| && fields[k].separator != '0'
    requires head == Zeros(|Padded(fields[k].value, fields[k].width)|) + [fields[k].separator]
    requires Fits(Render(fields[k + 1..]), tail)
    ensures Fits(Render(fields[k..]), head + tail)
  {
    hide Padded;
    var digits, rest := Padded(fields[k].value, fields[k].width), Render(fields[k + 1..]);
    assert fields[k..][1..] == fields[k + 1..];
    assert Render(fields[k..]) == digits + ([fields[k].separator] + rest);
  }

  const TIME_SHAPE: string := "00:" + ("00:" + ("00." + ("000Z" + "")))
  const STAMP_SHAPE: string := "0000-" + ("00-" + ("00T" + TIME_SHAPE))

  lemma ShapeText()
    ensures STAMP_SHAPE == "0000-00-00T00:00:00.000Z"
  {
  }

  /** Through the year 9999 a stamp has the date-time shape of section 5.6 of RFC 3339, with milliseconds and in UTC. */
  lemma StampsHaveRfcShape(millis: nat)
    requires millis < YEAR_10000
    ensures Fits(FormatRfc3339(millis), "0000-00-00T00:00:00.000Z")
  {
    hide Padded, CivilFromDays, Render, Fits, Fields;
    var f := Fields(millis);
    FieldWidths(millis);
    NothingFits(f[7..]);
    FieldFits(f, 6, "000Z", "");
    FieldFits(f, 5, "00.", "000Z" + "");
    FieldFits(f, 4, "00:", "00." + ("000Z" + ""));
    FieldFits(f, 3, "00:", "00:" + ("00." + ("000Z" + "")));
    FieldFits(f, 2, "00T", TIME_SHAPE);
    FieldFits(f, 1, "00-", "00T" + TIME_SHAPE);
    FieldFits(f, 0, "0000-", "00-" + ("00T" + TIME_SHAPE));
    assert f[0..] == f;
    ShapeText();
  }

  function Head(field: Field): string {
    Zeros(|Padded(field.value, field.width)|) + [field.separator]
  }

  lemma FieldWidths(millis: nat)
    requires millis < YEAR_10000
    ensures var f := Fields(millis);
            && Head(f[0]) == "0000-" && Head(f[1]) == "00-" && Head(f[2]) == "00T"
            && Head(f[3]) == "00:" && Head(f[4]) == "00:" && Head(f[5]) == "00." && Head(f[6]) == "000Z"
            && forall k :: 0 <= k < 7 ==> f[k].separator != '0'
  {
    hide Padded, CivilFromDays;
    var f := Fields(millis);
    YearsHaveFourDigits(millis);
    FieldBounds(millis);
    forall k | 1 <= k < 6 ensures |Padded(f[k].value, 2)| == 2 {
      TwoDigits(f[k].value);
    }
    ThreeDigits(f[6].value);
  }

  /** From the year 10000 on a digit stands where the pattern has its first hyphen. */
  lemma LaterStampsMissShape(millis: nat)
    requires millis >= YEAR_10000
    ensures !Fits(FormatRfc3339(millis), "0000-00-00T00:00:00.000Z")
  {
    hide CivilFromDays, Padded;
    var f, s := Fields(millis), FormatRfc3339(millis);
    LastDayOf9999();
    DatesKeepOrder(millis / DAY, 2_932_897);
    assert f[0].value >= 10_000;
    WideYear(f[0].value);
    var digits := Padded(f[0].value, 4);
    assert s[4] == digits[4];
    assert "0000-00-00T00:00:00.000Z"[4] == '-';
  }

  lemma WideYear(year: nat)
    requires year >= 10_000
    ensures |Padded(year, 4)| >= 5
  {
    hide Decimal;
    DecimalGrows(10_000, year);
    DecimalWidths();
  }

  /** The stamps in the shape of RFC 3339 are exactly those before the year 10000. */
  lemma RfcShapeIff(millis: nat)
    ensures Fits(FormatRfc3339(millis), "0000-00-00T00:00:00.000Z") <==> millis < YEAR_10000
  {
    hide Fits, FormatRfc3339;
    if millis < YEAR_10000 {
      StampsHaveRfcShape(millis);
    } else {
      LaterStampsMissShape(millis);
    }
  }

  lemma NothingFits(fields: seq<Field>)
    requires fields == []
    ensures Fits(Render(fields), "")
  {
  }

  // ----- Order of the instants -----------------------------------------------

  lemma EarlierDiffers(a: nat, b: nat) returns (k: nat)
    requires a < b
    ensures LessAt(Fields(a), Fields(b), k)
  {
    hide CivilFromDays;
    if a / DAY == b / DAY {
      k := EarlierInDay(a % DAY, b % DAY);
    } else {
      DatesKeepOrder(a / DAY, b / DAY);
      var p, q := CivilFromDays(a / DAY), CivilFromDays(b / DAY);
      k := if p.year < q.year then 0 else if p.month < q.month then 1 else 2;
    }
  }

  lemma EarlierInDay(r: nat, s: nat) returns (k: nat)
    requires r < s
    ensures 3 <= k <= 6
    ensures k == 3 ==> r / 3_600_000 < s / 3_600_000
    ensures k > 3 ==> r / 3_600_000 == s / 3_600_000
    ensures k == 4 ==> r % 3_600_000 / 60_000 < s % 3_600_000 / 60_000
    ensures k > 4 ==> r % 3_600_000 / 60_000 == s % 3_600_000 / 60_000
    ensures k == 5 ==> r % 60_000 / 1000 < s % 60_000 / 1000
    ensures k > 5 ==> r % 60_000 / 1000 == s % 60_000 / 1000
    ensures k == 6 ==> r % 1000 < s % 1000
  {
    TimeOfDay(r);
    TimeOfDay(s);
    k := if r / 3_600_000 < s / 3_600_000 then 3
         else if r % 3_600_000 / 60_000 < s % 3_600_000 / 60_000 then 4
         else if r % 60_000 / 1000 < s % 60_000 / 1000 then 5 else 6;
  }

  /** Instants whose years print with equally many digits print in order. */
  lemma StampsInOrder(a: nat, b: nat)
    requires YearWidth(a) == YearWidth(b)
    ensures a < b <==> Less(FormatRfc3339(a), FormatRfc3339(b))
  {
    hide Fields, Less, Render, LessAt, SameShape, Padded;
    if a < b {
      StampsHaveOneShape(a, b);
      var k := EarlierDiffers(a, b);
      RenderKeepsOrder(Fields(a), Fields(b), k);
    } else if b < a {
      StampsHaveOneShape(b, a);
      var k := EarlierDiffers(b, a);
      RenderKeepsOrder(Fields(b), Fields(a), k);
      LessIsOneWay(FormatRfc3339(b), FormatRfc3339(a));
    } else if Less(FormatRfc3339(a), FormatRfc3339(b)) {
      LessIsOneWay(FormatRfc3339(a), FormatRfc3339(b));
    }
  }

  /** The first instant of the year 10000. */
  const YEAR_10000: nat := 253_402_300_800_000

  lemma YearsHaveFourDigits(millis: nat)
    requires millis < YEAR_10000
    ensures YearWidth(millis) == 4
  {
    hide CivilFromDays;
    LastDayOf9999();
    DatesKeepOrder(2_932_896, millis / DAY);
    EveryStampIsAfterEpoch(millis);
    assert YearOf(millis) <= 9999;
    DecimalGrows(YearOf(millis), 9999);
    DecimalWidths();
  }

  lemma LastDayOf9999()
    ensures CivilFromDays(2_932_896) == Date(9999, 12, 31) && CivilFromDays(2_932_897) == Date(10_000, 1, 1)
  {
    hide CivilFromDays;
    assert DaysSinceCivil(Date(9999, 12, 31)) == 2_932_896;
    CivilOfDays(Date(9999, 12, 31));
    DaysFollowTheCalendar(2_932_896);
  }

  /** The last instant of 9999 prints after the instant that follows it. */
  lemma TheYear10000PrintsFirst()
    ensures Less(FormatRfc3339(YEAR_10000), FormatRfc3339(YEAR_10000 - 1))
  {
    hide Fields;
    FirstCharacters();
    var s, t := FormatRfc3339(YEAR_10000), FormatRfc3339(YEAR_10000 - 1);
    assert s != "" && t != "" && s[0] == '1' && t[0] == '9';
  }

  lemma FirstCharacters()
    ensures Padded(Fields(YEAR_10000)[0].value, Fields(YEAR_10000)[0].width)[0] == '1'
    ensures Padded(Fields(YEAR_10000 - 1)[0].value, Fields(YEAR_10000 - 1)[0].width)[0] == '9'
  {
    LastDayOf9999();
    DecimalWidths();
    assert YEAR_10000 / DAY == 2_932_897 && (YEAR_10000 - 1) / DAY == 2_932_896;
    DecimalStarts(10_000, 1000);
    DecimalStarts(1000, 100);
    DecimalStarts(100, 10);
    DecimalStarts(10, 1);
    DecimalStarts(9999, 999);
    DecimalStarts(999, 99);
    DecimalStarts(99, 9);
  }

  lemma DecimalStarts(n: nat, m: nat)
    requires n >= 10 && m == n / 10
    ensures Decimal(n)[0] == Decimal(m)[0]
  {
  }

  /** The strings up to an instant are in the order of time exactly when the instant lies before the year 10000. */
  lemma StringOrderIsTimeOrderIff(last: nat)
    ensures (forall a: nat, b: nat | a < b <= last :: Less(FormatRfc3339(a), FormatRfc3339(b))) <==> last < YEAR_10000
  {
    hide FormatRfc3339, Less;
    if last < YEAR_10000 {
      forall a: nat, b: nat | a < b <= last ensures Less(FormatRfc3339(a), FormatRfc3339(b)) {
        YearsHaveFourDigits(a);
        YearsHaveFourDigits(b);
        StampsInOrder(a, b);
      }
    } else {
      TheYear10000PrintsFirst();
      LessIsOneWay(FormatRfc3339(YEAR_10000), FormatRfc3339(YEAR_10000 - 1));
      assert YEAR_10000 - 1 < YEAR_10000 <= last;
    }
  }
}
