/** Calendar arithmetic: crates/rdt-types/src/timeutil.rs. */
module Civil {
  import opened Basics

  datatype Date = Date(year: int, month: int, day: int)

  /** Integer division that truncates toward zero, as Rust's does. */
  function TruncDiv(a: int, b: int): int
    requires b > 0
  {
    if a >= 0 then a / b else -(-a / b)
  }

  /** `civil_from_days`: days since 1970-01-01 to a date of the civil calendar. */
  function CivilFromDays(days: int): Date {
    var z := days + 719_468;
    var era := TruncDiv(if z >= 0 then z else z - 146_096, 146_097);
    var doe := z - era * 146_097;
    var yoe := YearOfEra(doe);
    var y := yoe + era * 400;
    var doy := doe - YearStart(yoe);
    var mp := (5 * doy + 2) / 153;
    var d := doy - MonthStart(mp) + 1;
    var m := if mp < 10 then mp + 3 else mp - 9;
    Date(if m <= 2 then y + 1 else y, m, d)
  }

  function YearOfEra(doe: int): int {
    (doe - doe / 1460 + doe / 36_524 - doe / 146_096) / 365
  }

  /** The day of an era on which its year number yoe, counted from March, begins. */
  function YearStart(yoe: int): int {
    365 * yoe + yoe / 4 - yoe / 100
  }

  /** The day of such a year on which its month number mp begins; March is month 0. */
  function MonthStart(mp: int): int {
    (153 * mp + 2) / 5
  }

  /** `days_since_civil`, the inverse that the tests use. */
  function DaysSinceCivil(date: Date): int {
    var y := if date.month <= 2 then date.year - 1 else date.year;
    var era := TruncDiv(if y >= 0 then y else y - 399, 400);
    var yoe := y - era * 400;
    var doy := MonthStart(if date.month > 2 then date.month - 3 else date.month + 9) + date.day - 1;
    var doe := yoe * 365 + yoe / 4 - yoe / 100 + doy;
    era * 146_097 + doe - 719_468
  }

  // ----- The Gregorian calendar, independently of the arithmetic -------------

  predicate IsLeap(year: int) {
    year % 4 == 0 && (year % 100 != 0 || year % 400 == 0)
  }

  function MonthLength(year: int, month: int): int {
    if month == 2 then (if IsLeap(year) then 29 else 28)
    else if month in {4, 6, 9, 11} then 30
    else 31
  }

  predicate ValidDate(date: Date) {
    1 <= date.month <= 12 && 1 <= date.day <= MonthLength(date.year, date.month)
  }

  function NextDay(date: Date): Date {
    if date.day < MonthLength(date.year, date.month) then date.(day := date.day + 1)
    else if date.month < 12 then Date(date.year, date.month + 1, 1)
    else Date(date.year + 1, 1, 1)
  }

  predicate Before(a: Date, b: Date) {
    || a.year < b.year
    || (a.year == b.year && (a.month < b.month || (a.month == b.month && a.day < b.day)))
  }

  // ----- Eras, years and months ----------------------------------------------

  /** Stepping back before truncating is rounding down. */
  lemma TruncatedIsFloor(z: int, n: nat)
    requires n > 0
    ensures TruncDiv(if z >= 0 then z else z - (n - 1), n) == z / n
  {
    if z < 0 {
      var q := z / n;
      assert z == q * n + z % n;
      assert -(z - (n - 1)) == (-q) * n + (n - 1 - z % n);
      DivMod(-q, n - 1 - z % n, n);
    }
  }

  lemma SameRemainder(x: int, k: int, n: nat)
    requires n > 0
    ensures (x + k * n) % n == x % n
  {
    assert x + k * n == (x / n + k) * n + x % n;
    DivMod(x / n + k, x % n, n);
  }

  /** The year of an era that begins in March holds a 29 February. */
  predicate LongYear(yoe: int) {
    yoe % 4 == 3 && (yoe % 100 != 99 || yoe == 399)
  }

  function YearLength(yoe: int): int {
    if LongYear(yoe) then 366 else 365
  }

  predicate InYear(yoe: int, doy: int) {
    0 <= yoe < 400 && 0 <= doy < YearLength(yoe)
  }

  lemma LongYearIsLeap(era: int, yoe: int)
    requires 0 <= yoe < 400
    ensures IsLeap(yoe + era * 400 + 1) <==> LongYear(yoe)
  {
    SameRemainder(yoe + 1, era * 100, 4);
    SameRemainder(yoe + 1, era * 4, 100);
    SameRemainder(yoe + 1, era, 400);
  }

  /** Centuries, four-year cycles and years of a day within its era. */
  lemma YearOfEraInverts(yoe: int, doy: int)
    requires InYear(yoe, doy)
    ensures 0 <= YearStart(yoe) + doy < 146_097 && YearOfEra(YearStart(yoe) + doy) == yoe
  {
    var c, q, r := yoe / 100, yoe % 100 / 4, yoe % 4;
    assert yoe == 100 * c + 4 * q + r;
    var within := 1461 * q + 365 * r + doy;
    var doe := YearStart(yoe) + doy;
    assert doe == 36_524 * c + within;
    CenturyOfEra(c, within);
    FourYears(c, q, r, doy);
  }

  lemma CenturyOfEra(c: int, within: int)
    requires 0 <= c <= 3 && 0 <= within < (if c == 3 then 36_525 else 36_524)
    ensures var doe := 36_524 * c + within; doe / 36_524 - doe / 146_096 == c
  {
  }

  lemma FourYears(c: int, q: int, r: int, doy: int)
    requires 0 <= c <= 3 && 0 <= q < 25 && 0 <= r < 4
    requires 0 <= doy < (if r == 3 && (q < 24 || c == 3) then 366 else 365)
    ensures var doe := 36_524 * c + 1461 * q + 365 * r + doy;
            (doe - doe / 1460 + c) / 365 == 100 * c + 4 * q + r
  {
    var doe := 36_524 * c + 1461 * q + 365 * r + doy;
    var rest := 24 * c + q + 365 * r + doy;
    assert doe == 1460 * (25 * c + q) + rest;
    var e := if rest >= 1460 then 1 else 0;
    DivMod(25 * c + q + e, rest - 1460 * e, 1460);
    assert doe - doe / 1460 + c == (100 * c + 4 * q + r) * 365 + (doy - e);
    DivMod(100 * c + 4 * q + r, doy - e, 365);
  }

  /** Every day of an era lies in one of its years. */
  lemma DayHasYear(doe: int) returns (yoe: int, doy: int)
    requires 0 <= doe < 146_097
    ensures InYear(yoe, doy) && doe == YearStart(yoe) + doy
  {
    var c := if doe == 146_096 then 3 else doe / 36_524;
    var within := doe - 36_524 * c;
    var q := within / 1461;
    var left := within % 1461;
    var r := if left == 1460 then 3 else left / 365;
    yoe, doy := 100 * c + 4 * q + r, left - 365 * r;
    assert yoe / 4 == 25 * c + q && yoe / 100 == c && yoe % 4 == r && yoe % 100 == 4 * q + r;
  }

  lemma MonthOfYear(mp: int, d: int)
    requires 0 <= mp < 12 && 1 <= d <= MonthStart(mp + 1) - MonthStart(mp)
    ensures (5 * (MonthStart(mp) + d - 1) + 2) / 153 == mp
  {
  }

  lemma DayHasMonth(doy: int)
    requires 0 <= doy < 366
    ensures var mp := (5 * doy + 2) / 153;
            0 <= mp < 12 && MonthStart(mp) <= doy < MonthStart(mp + 1)
  {
  }

  function MonthNumber(mp: int): int {
    if mp < 10 then mp + 3 else mp - 9
  }

  /** The thirds-of-five arithmetic gives the months their lengths; only February ends the year. */
  lemma MonthLengths(mp: int, year: int)
    requires 0 <= mp < 12
    ensures mp < 11 ==> MonthStart(mp + 1) - MonthStart(mp) == MonthLength(year, MonthNumber(mp))
    ensures mp == 11 ==> MonthStart(mp) + MonthLength(year, 2) == (if IsLeap(year) then 366 else 365)
  {
  }

  // ----- Positions: a date as era, year of the era, day of the year ----------

  /** The date's place in the March-based calendar. */
  ghost predicate At(date: Date, era: int, yoe: int, doy: int) {
    && InYear(yoe, doy)
    && var mp := (5 * doy + 2) / 153;
       && date.month == MonthNumber(mp)
       && date.day == doy - MonthStart(mp) + 1
       && date.year == yoe + era * 400 + (if date.month <= 2 then 1 else 0)
  }

  function DayNumber(era: int, yoe: int, doy: int): int {
    era * 146_097 + YearStart(yoe) + doy - 719_468
  }

  lemma CivilAt(era: int, yoe: int, doy: int)
    requires InYear(yoe, doy)
    ensures At(CivilFromDays(DayNumber(era, yoe, doy)), era, yoe, doy)
  {
    hide YearOfEra, YearStart;
    var doe := YearStart(yoe) + doy;
    var z := DayNumber(era, yoe, doy) + 719_468;
    YearOfEraInverts(yoe, doy);
    TruncatedIsFloor(z, 146_097);
    DivMod(era, doe, 146_097);
    DayHasMonth(doy);
  }

  lemma PositionOfDay(days: int) returns (era: int, yoe: int, doy: int)
    ensures InYear(yoe, doy) && days == DayNumber(era, yoe, doy)
  {
    var z := days + 719_468;
    era := z / 146_097;
    yoe, doy := DayHasYear(z % 146_097);
  }

  lemma AtIsValid(date: Date, era: int, yoe: int, doy: int)
    requires At(date, era, yoe, doy)
    ensures ValidDate(date)
  {
    hide IsLeap, LongYear;
    DayHasMonth(doy);
    var mp := (5 * doy + 2) / 153;
    MonthLengths(mp, date.year);
    LongYearIsLeap(era, yoe);
  }

  lemma DaysAt(date: Date, era: int, yoe: int, doy: int)
    requires At(date, era, yoe, doy)
    ensures DaysSinceCivil(date) == DayNumber(era, yoe, doy)
  {
    hide LongYear;
    DayHasMonth(doy);
    var y := yoe + era * 400;
    TruncatedIsFloor(y, 400);
    DivMod(era, yoe, 400);
  }

  lemma PositionOfDate(date: Date) returns (era: int, yoe: int, doy: int)
    requires ValidDate(date)
    ensures At(date, era, yoe, doy)
  {
    hide LongYear, IsLeap;
    var y := if date.month <= 2 then date.year - 1 else date.year;
    var mp := if date.month > 2 then date.month - 3 else date.month + 9;
    era, yoe, doy := y / 400, y % 400, MonthStart(mp) + date.day - 1;
    MonthLengths(mp, date.year);
    MonthOfYear(mp, date.day);
    LongYearIsLeap(era, yoe);
    InThisYear(mp, date.day, doy, yoe, date.year);
  }

  lemma InThisYear(mp: int, day: int, doy: int, yoe: int, year: int)
    requires 0 <= mp < 12 && 0 <= yoe < 400 && 1 <= day <= MonthLength(year, MonthNumber(mp))
    requires mp == 11 ==> (IsLeap(year) <==> LongYear(yoe))
    requires doy == MonthStart(mp) + day - 1
    ensures InYear(yoe, doy)
  {
    hide LongYear, IsLeap;
    MonthLengths(mp, year);
  }

  // ----- The two conversions -------------------------------------------------

  /** Every day number, before or after the epoch, is a date of the Gregorian calendar. */
  lemma EveryDayIsADate(days: int)
    ensures ValidDate(CivilFromDays(days))
  {
    hide CivilFromDays, At, DayNumber, ValidDate;
    var era, yoe, doy := PositionOfDay(days);
    CivilAt(era, yoe, doy);
    AtIsValid(CivilFromDays(days), era, yoe, doy);
  }

  /** The two conversions are inverse to each other on all days and all valid dates. */
  lemma DaysOfCivil(days: int)
    ensures DaysSinceCivil(CivilFromDays(days)) == days
  {
    hide CivilFromDays, DaysSinceCivil, At, DayNumber;
    var era, yoe, doy := PositionOfDay(days);
    CivilAt(era, yoe, doy);
    DaysAt(CivilFromDays(days), era, yoe, doy);
  }

  lemma CivilOfDays(date: Date)
    requires ValidDate(date)
    ensures CivilFromDays(DaysSinceCivil(date)) == date
  {
    hide CivilFromDays, DaysSinceCivil, DayNumber, ValidDate, YearStart, MonthStart, LongYear;
    var era, yoe, doy := PositionOfDate(date);
    DaysAt(date, era, yoe, doy);
    CivilAt(era, yoe, doy);
  }

  // ----- Succession and order ------------------------------------------------

  lemma YearsFollow(era: int, yoe: int)
    requires 0 <= yoe < 400
    ensures yoe < 399 ==> YearStart(yoe + 1) == YearStart(yoe) + YearLength(yoe)
    ensures yoe == 399 ==> YearStart(yoe) + YearLength(yoe) == 146_097
  {
    assert (yoe + 1) / 4 == yoe / 4 + (if yoe % 4 == 3 then 1 else 0);
    assert (yoe + 1) / 100 == yoe / 100 + (if yoe % 100 == 99 then 1 else 0);
  }

  /** The position that follows. */
  function Following(era: int, yoe: int, doy: int): (int, int, int) {
    if doy + 1 < YearLength(yoe) then (era, yoe, doy + 1)
    else if yoe < 399 then (era, yoe + 1, 0)
    else (era + 1, 0, 0)
  }

  lemma FollowingNumber(era: int, yoe: int, doy: int)
    requires InYear(yoe, doy)
    ensures var (e, y, d) := Following(era, yoe, doy);
            InYear(y, d) && DayNumber(e, y, d) == DayNumber(era, yoe, doy) + 1
  {
    hide LongYear;
    YearsFollow(era, yoe);
    assert YearStart(0) == 0;
  }

  lemma NextDayAt(date: Date, era: int, yoe: int, doy: int)
    requires At(date, era, yoe, doy)
    ensures var (e, y, d) := Following(era, yoe, doy); At(NextDay(date), e, y, d)
  {
    hide IsLeap, LongYear;
    LongYearIsLeap(era, yoe);
    DayHasMonth(doy);
    var mp := (5 * doy + 2) / 153;
    MonthLengths(mp, date.year);
    if doy + 1 < YearLength(yoe) {
      if date.day < MonthLength(date.year, date.month) {
        MonthOfYear(mp, date.day + 1);
      } else {
        MonthOfYear(mp + 1, 1);
      }
    }
  }

  /** The day after day n is the next day of the calendar. */
  lemma DaysFollowTheCalendar(days: int)
    ensures CivilFromDays(days + 1) == NextDay(CivilFromDays(days))
  {
    hide CivilFromDays, At, DayNumber, NextDay, Following;
    var era, yoe, doy := PositionOfDay(days);
    CivilAt(era, yoe, doy);
    NextDayAt(CivilFromDays(days), era, yoe, doy);
    FollowingNumber(era, yoe, doy);
    var (e, y, d) := Following(era, yoe, doy);
    CivilAt(e, y, d);
    SamePositionSameDate(CivilFromDays(days + 1), NextDay(CivilFromDays(days)), e, y, d);
  }

  lemma SamePositionSameDate(a: Date, b: Date, era: int, yoe: int, doy: int)
    requires At(a, era, yoe, doy) && At(b, era, yoe, doy)
    ensures a == b
  {
  }

  /** Later days are later dates, and the other way round. */
  lemma {:induction false} DatesKeepOrder(a: int, b: int)
    ensures a < b <==> Before(CivilFromDays(a), CivilFromDays(b))
  {
    if a < b {
      LaterIsAfter(a, b);
    } else if b < a {
      LaterIsAfter(b, a);
    }
  }

  lemma {:induction false} LaterIsAfter(a: int, b: int)
    requires a < b
    ensures Before(CivilFromDays(a), CivilFromDays(b))
    decreases b - a
  {
    hide CivilFromDays;
    DaysFollowTheCalendar(b - 1);
    if a < b - 1 {
      LaterIsAfter(a, b - 1);
    }
  }

  lemma Epoch()
    ensures CivilFromDays(0) == Date(1970, 1, 1)
  {
  }
}
