/** Julian day numbers and the Gregorian calendar (deps/common/time/datetime.h,
    max_day_in_month_for of deps/common/time/datetime.cpp). */
module Calendar {

  /** Integer division and remainder of C: towards zero. */
  function TruncDiv(a: int, b: int): int
    requires b > 0
  {
    if a >= 0 then a / b else -(-a / b)
  }

  function TruncMod(a: int, b: int): int
    requires b > 0
  {
    if a >= 0 then a % b else -(-a % b)
  }

  lemma TruncDivMod(a: int, b: int)
    requires b > 0
    ensures a == b * TruncDiv(a, b) + TruncMod(a, b)
  {
    if a < 0 { assert -a == b * (-a / b) + (-a % b); }
  }

  datatype Date = Date(year: int, month: int, day: int)

  // ---------------------------------------------------------------- the code

  /** `julian_date`. */
  function JulianDate(date: Date): int {
    var a := TruncDiv(14 - date.month, 12);
    var y := date.year + 4800 - a;
    var m := date.month + 12 * a - 3;
    date.day + TruncDiv(153 * m + 2, 5) + y * 365 + TruncDiv(y, 4) - TruncDiv(y, 100) + TruncDiv(y, 400) - 32045
  }

  /** `get_ymd`. */
  function GetYmd(jday: int): Date {
    var a := jday + 32044;
    var b := TruncDiv(4 * a + 3, 146097);
    var c := a - TruncDiv(b * 146097, 4);
    var d := TruncDiv(4 * c + 3, 1461);
    var e := c - TruncDiv(1461 * d, 4);
    var m := TruncDiv(5 * e + 2, 153);
    Date(b * 100 + d - 4800 + TruncDiv(m, 10),
         m + 3 - 12 * TruncDiv(m, 10),
         e - TruncDiv(153 * m + 2, 5) + 1)
  }

  /** The values `get_ymd` computes on the way, in order. */
  function GetYmdSteps(jday: int): seq<int> {
    var a := jday + 32044;
    var b := TruncDiv(4 * a + 3, 146097);
    var c := a - TruncDiv(b * 146097, 4);
    var d := TruncDiv(4 * c + 3, 1461);
    var e := c - TruncDiv(1461 * d, 4);
    var m := TruncDiv(5 * e + 2, 153);
    [a, 4 * a, 4 * a + 3, b * 146097, c, 4 * c + 3, 1461 * d, e, 5 * e + 2, 153 * m + 2, b * 100, b * 100 + d]
  }

  /** `max_day_in_month_for`. */
  function MaxDayInMonthFor(year: int, month: int): int {
    var m := TruncMod(month - 1, 12) + 1;
    var y := year + TruncDiv(m - 1, 12);
    if m == 1 || m == 3 || m == 5 || m == 7 || m == 8 || m == 10 || m == 12 then 31
    else if m == 4 || m == 6 || m == 9 || m == 11 then 30
    else if m == 2 && (TruncMod(y, 400) == 0 || (TruncMod(y, 100) != 0 && TruncMod(y, 4) == 0)) then 29
    else 28
  }

  // ---------------------------------------------------------------- the reference: the calendar itself

  predicate Leap(y: int) {
    y % 4 == 0 && (y % 100 != 0 || y % 400 == 0)
  }

  function DaysIn(y: int, m: int): int {
    match m
    case 4 => 30
    case 6 => 30
    case 9 => 30
    case 11 => 30
    case 2 => if Leap(y) then 29 else 28
    case _ => 31
  }

  predicate Valid(d: Date) {
    1 <= d.month <= 12 && 1 <= d.day <= DaysIn(d.year, d.month)
  }

  function NextDay(d: Date): Date {
    if d.day < DaysIn(d.year, d.month) then d.(day := d.day + 1)
    else if d.month < 12 then Date(d.year, d.month + 1, 1)
    else Date(d.year + 1, 1, 1)
  }

  /** From 1 March -4800 on, where no intermediate value is negative. */
  predicate InRange(d: Date) {
    d.year > -4800 || (d.year == -4800 && d.month >= 3)
  }

  // ---------------------------------------------------------------- years that begin in March

  /** Day number, counted from 1 March -4800, of the first day of March-year y. */
  function YearStart(y: nat): nat {
    365 * y + y / 4 - y / 100 + y / 400
  }

  /** Day of the March-year on which its month m (0 is March) begins. */
  function MonthStart(m: nat): nat {
    (153 * m + 2) / 5
  }

  function MarchLength(y: nat, m: nat): nat {
    if m == 11 then (if Leap(y + 1) then 29 else 28) else MonthStart(m + 1) - MonthStart(m)
  }

  lemma JulianIsMarch(d: Date)
    requires 1 <= d.month <= 12 && InRange(d)
    ensures var a := if d.month <= 2 then 1 else 0;
            var y, m := d.year + 4800 - a, d.month + 12 * a - 3;
            && y >= 0 && 0 <= m <= 11
            && JulianDate(d) == d.day + MonthStart(m) + YearStart(y) - 32045
            && DaysIn(d.year, d.month) == MarchLength(y, m)
  {
    var a := if d.month <= 2 then 1 else 0;
    var y, m := d.year + 4800 - a, d.month + 12 * a - 3;
    YearPart(d.month);
    LengthIsMarchLength(d.year, d.month);
    hide DaysIn, MarchLength;
    assert TruncDiv(153 * m + 2, 5) == MonthStart(m);
    assert TruncDiv(y, 4) - TruncDiv(y, 100) + TruncDiv(y, 400) == YearStart(y) - 365 * y;
  }

  /** January and February belong to the March-year before. */
  lemma YearPart(month: int)
    requires 1 <= month <= 12
    ensures TruncDiv(14 - month, 12) == if month <= 2 then 1 else 0
  {
  }

  lemma LengthIsMarchLength(year: int, month: int)
    requires 1 <= month <= 12 && year + 4800 >= if month <= 2 then 1 else 0
    ensures var a := if month <= 2 then 1 else 0;
            DaysIn(year, month) == MarchLength(year + 4800 - a, month + 12 * a - 3)
  {
    LeapShift(year);
    assert month == 1 || month == 2 || month == 3 || month == 4 || month == 5 || month == 6 || month == 7 ||
           month == 8 || month == 9 || month == 10 || month == 11 || month == 12;
  }

  lemma LeapShift(year: int)
    ensures Leap(year + 4800) == Leap(year)
  {
    ModShift(year, 4, 1200);
    ModShift(year, 100, 48);
    ModShift(year, 400, 12);
  }

  lemma ModShift(a: int, b: int, q: int)
    requires b > 0
    ensures (a + b * q) % b == a % b
  {
    var r := a % b;
    assert a + b * q == b * (a / b + q) + r;
    ModIs(a + b * q, b, a / b + q, r);
  }

  lemma ModIs(a: int, b: int, q: int, r: int)
    requires b > 0 && 0 <= r < b && a == b * q + r
    ensures a % b == r
  {
    var d := q - a / b;
    assert b * d == a % b - r;
    MulAtLeast(b, d);
  }

  lemma YearStartByCentury(b: nat, r: nat)
    requires r < 100
    ensures YearStart(100 * b + r) == 36524 * b + b / 4 + 365 * r + r / 4
  {
    var y := 100 * b + r;
    assert y / 4 == 25 * b + r / 4;
    assert y / 100 == b;
    assert y / 400 == b / 4;
  }

  /** A day e of a March-year exists: day 365 only at the end of a leap year. */
  predicate DayExists(y: nat, e: nat) {
    e <= 365 && (e == 365 ==> Leap(y + 1))
  }

  lemma LeapByCentury(b: nat, r: nat)
    requires r < 100
    ensures Leap(100 * b + r + 1) <==> r % 4 == 3 && (r == 99 ==> b % 4 == 3)
  {
    ModShift(r + 1, 4, 25 * b);
    ModShift(r + 1, 100, b);
    if r == 99 {
      CenturyOfFour(b + 1);
      QuotientIs(b + 1, 4, if b % 4 == 3 then b / 4 + 1 else b / 4, if b % 4 == 3 then 0 else b % 4 + 1);
    }
  }

  lemma CenturyOfFour(c: nat)
    ensures 100 * c % 400 == 0 <==> c % 4 == 0
  {
    QuotientIs(100 * c, 400, c / 4, 100 * (c % 4));
  }

  /** b, c, r, e and m are the values `get_ymd` computes for day number a, counted from 1 March -4800. */
  predicate Quotients(a: int, b: int, c: int, r: int, e: int, m: int) {
    && a >= 0 && b >= 0 && c >= 0 && r >= 0 && e >= 0 && m >= 0
    && b == (4 * a + 3) / 146097 && c == a - b * 146097 / 4
    && r == (4 * c + 3) / 1461 && e == c - 1461 * r / 4
    && m == (5 * e + 2) / 153
  }

  /** They are the century, the day of the century, the year of the century, the day of the year and
      the month. */
  lemma QuotientsFind(b: nat, r: nat, e: nat)
    requires r < 100 && e <= 365 && (e == 365 ==> r % 4 == 3 && (r == 99 ==> b % 4 == 3))
    ensures var c := 365 * r + r / 4 + e; Quotients(36524 * b + b / 4 + c, b, c, r, e, (5 * e + 2) / 153)
  {
    var c := 365 * r + r / 4 + e;
    FindsYear(r, e);
    FindsCentury(b, c);
  }

  /** `get_ymd` from its quotients. */
  lemma GetYmdFrom(a: int, b: int, c: int, r: int, e: int, m: int)
    requires Quotients(a, b, c, r, e, m)
    ensures GetYmd(a - 32044) == Date(b * 100 + r - 4800 + m / 10, m + 3 - 12 * (m / 10), e - (153 * m + 2) / 5 + 1)
  {
    hide TruncDiv;
    DivisionsFrom(a, b, c, r, e, m);
  }

  lemma StepsFrom(a: int, b: int, c: int, r: int, e: int, m: int)
    requires Quotients(a, b, c, r, e, m)
    ensures GetYmdSteps(a - 32044)
            == [a, 4 * a, 4 * a + 3, b * 146097, c, 4 * c + 3, 1461 * r, e, 5 * e + 2, 153 * m + 2,
                b * 100, b * 100 + r]
  {
    hide TruncDiv;
    DivisionsFrom(a, b, c, r, e, m);
  }

  lemma DivisionsFrom(a: int, b: int, c: int, r: int, e: int, m: int)
    requires Quotients(a, b, c, r, e, m)
    ensures TruncDiv(4 * a + 3, 146097) == b && TruncDiv(b * 146097, 4) == b * 146097 / 4
    ensures TruncDiv(4 * c + 3, 1461) == r && TruncDiv(1461 * r, 4) == 1461 * r / 4
    ensures TruncDiv(5 * e + 2, 153) == m && TruncDiv(m, 10) == m / 10 && TruncDiv(153 * m + 2, 5) == (153 * m + 2) / 5
  {
  }

  lemma FindsMonth(y: nat, m: nat, day: nat)
    requires m <= 11 && 1 <= day <= MarchLength(y, m)
    ensures var e := day - 1 + MonthStart(m); DayExists(y, e) && (5 * e + 2) / 153 == m
  {
    assert m == 0 || m == 1 || m == 2 || m == 3 || m == 4 || m == 5 ||
           m == 6 || m == 7 || m == 8 || m == 9 || m == 10 || m == 11;
  }

  lemma FindsYear(r: nat, e: nat)
    requires r < 100 && e <= 365 && (e == 365 ==> r % 4 == 3)
    ensures var c := 365 * r + r / 4 + e; (4 * c + 3) / 1461 == r && c - 1461 * r / 4 == e
    ensures 365 * r + r / 4 + e <= 36524
    ensures 365 * r + r / 4 + e == 36524 ==> r == 99 && e == 365
  {
    var c := 365 * r + r / 4 + e;
    assert 4 * c + 3 == 1461 * r + (4 * e + 3 - r % 4);
    assert 1461 * r / 4 == 365 * r + r / 4;
  }

  lemma FindsCentury(b: nat, c: nat)
    requires c <= 36524 && (c == 36524 ==> b % 4 == 3)
    ensures var a := 36524 * b + b / 4 + c; (4 * a + 3) / 146097 == b && a - b * 146097 / 4 == c
  {
    var a := 36524 * b + b / 4 + c;
    assert 4 * a + 3 == 146097 * b + (4 * c + 3 - b % 4);
    assert b * 146097 / 4 == 36524 * b + b / 4;
  }

  /** Date d is day number j of the calendar, by March-years. */
  predicate MarchDate(d: Date, y: int, m: int, j: int) {
    && y >= 0 && 0 <= m <= 11 && 1 <= d.day <= MarchLength(y, m)
    && d.year == y - 4800 + m / 10 && d.month == m + 3 - 12 * (m / 10)
    && j == d.day + MonthStart(m) + YearStart(y) - 32045
  }

  lemma MarchQuotients(d: Date, y: int, m: int, j: int) returns (b: int, c: int, r: int, e: int)
    requires MarchDate(d, y, m, j)
    ensures Quotients(j + 32044, b, c, r, e, m)
    ensures d == Date(b * 100 + r - 4800 + m / 10, m + 3 - 12 * (m / 10), e - (153 * m + 2) / 5 + 1)
  {
    b, r, e := y / 100, y % 100, d.day - 1 + MonthStart(m);
    c := 365 * r + r / 4 + e;
    assert y == 100 * b + r;
    LeapByCentury(b, r);
    YearStartByCentury(b, r);
    FindsMonth(y, m, d.day);
    QuotientsFind(b, r, e);
  }

  lemma MarchRoundTrip(d: Date, y: int, m: int, j: int)
    requires MarchDate(d, y, m, j)
    ensures GetYmd(j) == d
  {
    var b, c, r, e := MarchQuotients(d, y, m, j);
    GetYmdFrom(j + 32044, b, c, r, e, m);
  }

  lemma ToMarch(d: Date) returns (y: int, m: int)
    requires Valid(d) && InRange(d)
    ensures MarchDate(d, y, m, JulianDate(d))
  {
    var a := if d.month <= 2 then 1 else 0;
    y, m := d.year + 4800 - a, d.month + 12 * a - 3;
    JulianIsMarch(d);
    assert m / 10 == a;
  }

  lemma FromMarch(d: Date, y: int, m: int, j: int)
    requires MarchDate(d, y, m, j)
    ensures Valid(d) && InRange(d) && JulianDate(d) == j
  {
    assert m / 10 == if m >= 10 then 1 else 0;
    JulianIsMarch(d);
  }

  /** Converting a valid date to its day number and back gives the date. */
  lemma DateRoundTrip(d: Date)
    requires Valid(d) && InRange(d)
    ensures GetYmd(JulianDate(d)) == d
  {
    var y, m := ToMarch(d);
    MarchRoundTrip(d, y, m, JulianDate(d));
  }

  /** Every day number has such a date. */
  lemma MarchParts(a: nat) returns (b: nat, r: nat, m: nat, day: nat)
    ensures r < 100 && m <= 11 && 1 <= day <= MarchLength(100 * b + r, m)
    ensures a == day - 1 + MonthStart(m) + YearStart(100 * b + r)
  {
    b := (4 * a + 3) / 146097;
    var c := CenturyRest(a, b);
    r := (4 * c + 3) / 1461;
    var e := YearRest(c, r);
    LeapByCentury(b, r);
    YearStartByCentury(b, r);
    m := (5 * e + 2) / 153;
    day := e - MonthStart(m) + 1;
    MonthRest(100 * b + r, e);
  }

  lemma CenturyRest(a: nat, b: nat) returns (c: nat)
    requires b == (4 * a + 3) / 146097
    ensures a == 36524 * b + b / 4 + c && c <= 36524 && (c == 36524 ==> b % 4 == 3)
  {
    assert 146097 * b <= 4 * a + 3 < 146097 * b + 146097;
    var c0 := a - (36524 * b + b / 4);
    assert 4 * c0 == 4 * a - 146097 * b + b % 4;
    c := c0;
  }

  lemma YearRest(c: nat, r: nat) returns (e: nat)
    requires r == (4 * c + 3) / 1461 && c <= 36524
    ensures r < 100 && c == 365 * r + r / 4 + e && e <= 365 && (e == 365 ==> r % 4 == 3)
    ensures r == 99 && e == 365 ==> c == 36524
  {
    assert 1461 * r <= 4 * c + 3 < 1461 * r + 1461;
    var e0 := c - (365 * r + r / 4);
    assert 4 * e0 == 4 * c - 1461 * r + r % 4;
    e := e0;
  }

  lemma MonthRest(y: nat, e: nat)
    requires DayExists(y, e)
    ensures var m := (5 * e + 2) / 153;
            m <= 11 && MonthStart(m) <= e && e - MonthStart(m) + 1 <= MarchLength(y, m)
  {
    var m := (5 * e + 2) / 153;
    assert 153 * m <= 5 * e + 2 < 153 * m + 153;
    assert m == 0 || m == 1 || m == 2 || m == 3 || m == 4 || m == 5 ||
           m == 6 || m == 7 || m == 8 || m == 9 || m == 10 || m == 11;
  }

  /** Converting a day number to a date and back gives the day number, and the date is valid. */
  lemma DayRoundTrip(jday: int)
    requires jday >= -32044
    ensures var d := GetYmd(jday); Valid(d) && InRange(d) && JulianDate(d) == jday
  {
    var b, r, m, day := MarchParts(jday + 32044);
    var y: int := 100 * b + r;
    var d := Date(y - 4800 + m / 10, m + 3 - 12 * (m / 10), day);
    MarchRoundTrip(d, y, m, jday);
    FromMarch(d, y, m, jday);
  }

  // ---------------------------------------------------------------- consecutive days

  lemma LeapDelta(y: nat)
    ensures YearStart(y + 1) - YearStart(y) == if Leap(y + 1) then 366 else 365
  {
    NextQuotient(y, 4);
    NextQuotient(y, 100);
    NextQuotient(y, 400);
    LeapDivides(y + 1);
  }

  lemma NextQuotient(y: nat, b: nat)
    requires b > 0
    ensures (y + 1) / b - y / b == if (y + 1) % b == 0 then 1 else 0
  {
    var q, r := y / b, y % b;
    assert y == b * q + r;
    if r + 1 == b {
      assert y + 1 == b * (q + 1);
      QuotientIs(y + 1, b, q + 1, 0);
    } else {
      QuotientIs(y + 1, b, q, r + 1);
    }
  }

  lemma QuotientIs(a: int, b: int, q: int, r: int)
    requires b > 0 && 0 <= r < b && a == b * q + r
    ensures a / b == q && a % b == r
  {
    ModIs(a, b, q, r);
    assert b * (a / b) == b * q;
    MulAtLeast(b, a / b - q);
    MulAtLeast(b, q - a / b);
  }

  lemma LeapDivides(y: int)
    ensures y % 400 == 0 ==> y % 100 == 0 && y % 4 == 0
    ensures y % 100 == 0 ==> y % 4 == 0
  {
    var q, p := y / 400, y / 100;
    if y % 400 == 0 {
      ModIs(y, 100, 4 * q, 0);
      ModIs(y, 4, 100 * q, 0);
    }
    if y % 100 == 0 { ModIs(y, 4, 25 * p, 0); }
  }

  function NextMonth(year: int, month: int): (int, int) {
    if month == 12 then (year + 1, 1) else (year, month + 1)
  }

  /** A month's worth of days later is the same day of the next month. */
  lemma MonthLaterByDays(year: int, month: int, day: int)
    requires 1 <= month <= 12 && InRange(Date(year, month, day))
    ensures var (y, m) := NextMonth(year, month);
            JulianDate(Date(y, m, day)) == JulianDate(Date(year, month, day)) + DaysIn(year, month)
  {
    hide JulianDate, DaysIn;
    var (y, m) := NextMonth(year, month);
    JulianIsMarch(Date(year, month, day));
    JulianIsMarch(Date(y, m, day));
    if month == 2 { LeapDelta(year + 4799); }
  }

  /** The same, with the days on the other side. */
  lemma MonthLater(year: int, month: int, day: int)
    requires 1 <= month <= 12 && InRange(Date(year, month, day))
    ensures var (y, m) := NextMonth(year, month);
            JulianDate(Date(y, m, day)) == JulianDate(Date(year, month, day + DaysIn(year, month)))
  {
    MonthLaterByDays(year, month, day);
    DayLater(Date(year, month, day), DaysIn(year, month));
  }

  lemma NextDayByMonth(d: Date)
    requires Valid(d) && InRange(d)
    ensures Valid(NextDay(d)) && InRange(NextDay(d)) && JulianDate(NextDay(d)) == JulianDate(d) + 1
  {
    hide JulianDate;
    if d.day < DaysIn(d.year, d.month) {
      DayLater(d, 1);
    } else {
      var (y, m) := NextMonth(d.year, d.month);
      MonthLaterByDays(d.year, d.month, d.day);
      DayLater(Date(y, m, 1), d.day - 1);
    }
  }

  lemma DayLater(d: Date, n: int)
    ensures JulianDate(d.(day := d.day + n)) == JulianDate(d) + n
  {
  }

  /** Consecutive day numbers are consecutive dates. */
  lemma NextDayIsNextNumber(d: Date)
    requires Valid(d) && InRange(d)
    ensures JulianDate(NextDay(d)) == JulianDate(d) + 1
    ensures GetYmd(JulianDate(d) + 1) == NextDay(d)
  {
    NextDayByMonth(d);
    DateRoundTrip(NextDay(d));
  }

  /** From day -32044 on, `get_ymd` stays inside 32-bit integers exactly up to day 536838867. */
  lemma NoOverflowIff(jday: int)
    requires jday >= -32044
    ensures (forall i | 0 <= i < |GetYmdSteps(jday)| :: -0x8000_0000 <= GetYmdSteps(jday)[i] < 0x8000_0000)
            <==> jday <= 536838867
  {
    var a := jday + 32044;
    var b := (4 * a + 3) / 146097;
    var c := CenturyRest(a, b);
    var r := (4 * c + 3) / 1461;
    var e := YearRest(c, r);
    assert b * 146097 / 4 == 36524 * b + b / 4;
    assert 1461 * r / 4 == 365 * r + r / 4;
    StepsFrom(a, b, c, r, e, (5 * e + 2) / 153);
    assert GetYmdSteps(jday)[2] == 4 * a + 3;
  }

  /** On the months of a year the table lookup is the calendar's month length. */
  lemma MaxDayIsDaysIn(year: int, month: int)
    requires 1 <= month <= 12
    ensures MaxDayInMonthFor(year, month) == DaysIn(year, month)
  {
    var m := TruncMod(month - 1, 12) + 1;
    assert m == month && TruncDiv(m - 1, 12) == 0;
    TruncLeap(year);
  }

  lemma TruncLeap(year: int)
    ensures (TruncMod(year, 400) == 0 || (TruncMod(year, 100) != 0 && TruncMod(year, 4) == 0)) == Leap(year)
  {
    TruncModZero(year, 4);
    TruncModZero(year, 100);
    TruncModZero(year, 400);
    LeapDivides(year);
  }

  lemma TruncModZero(a: int, b: int)
    requires b > 0
    ensures TruncMod(a, b) == 0 <==> a % b == 0
  {
    if a % b == 0 { ModIs(-a, b, -(a / b), 0); }
    if -a % b == 0 { ModIs(a, b, -(-a / b), 0); }
  }

  lemma MulAtLeast(b: int, d: int)
    requires b > 0
    ensures d >= 1 ==> b * d >= b
    ensures d <= -1 ==> b * d <= -b
  {
  }
}
