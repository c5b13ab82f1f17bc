/** Adding a duration (deps/common/time/datetime.cpp), and weekdays (src/observer/sql/expr/function.cpp). */
module Durations {
  import opened Calendar

  // ---------------------------------------------------------------- the month carry

  /** The loop of `add_duration_date_time` that brings the day into its month. */
  function Carry(y: int, m: int, d: int): Date
    decreases d < 1, if d < 1 then -d else d
  {
    if d < 1 then
      var tmp := m - 1;
      Carry(y + TruncDiv(tmp - 1, 12), TruncMod(tmp - 1, 12) + 1, d + MaxDayInMonthFor(y, m - 1))
    else if d > MaxDayInMonthFor(y, m) then
      var tmp := m + 1;
      Carry(y + TruncDiv(tmp - 1, 12), TruncMod(tmp - 1, 12) + 1, d - MaxDayInMonthFor(y, m))
    else Date(y, m, d)
  }

  /** Days of the year before the month. */
  function DaysBefore(y: int, m: int): int {
    JulianDate(Date(y, m, 1)) - JulianDate(Date(y, 1, 1))
  }

  /** The years stay where day numbers are defined even when every month counts 28 days. */
  predicate Room(y: int, m: int, d: int) {
    28 * (12 * (y + 4798) + m) + d >= 1
  }

  lemma ForwardStep(m: int)
    requires 1 <= m <= 12
    ensures TruncMod(m + 1 - 1, 12) + 1 == (if m == 12 then 1 else m + 1)
    ensures TruncDiv(m + 1 - 1, 12) == (if m == 12 then 1 else 0)
  {
  }

  /** Carrying forward never changes the day number, and ends on a valid date. */
  lemma {:induction false} CarryForward(y: int, m: int, d: int)
    requires 1 <= m <= 12 && d >= 1 && InRange(Date(y, m, d))
    ensures var r := Carry(y, m, d);
            Valid(r) && InRange(r) && JulianDate(r) == JulianDate(Date(y, m, d))
    decreases d
  {
    hide JulianDate;
    MaxDayIsDaysIn(y, m);
    if d > DaysIn(y, m) {
      var (y', m') := NextMonth(y, m);
      ForwardStep(m);
      CarryForward(y', m', d - DaysIn(y, m));
      MonthLater(y, m, d - DaysIn(y, m));
    }
  }

  /** One backward step: the length it adds, and where it goes. */
  lemma BackwardStep(y: int, m: int)
    requires -10 <= m <= 12
    ensures TruncMod(m - 1 - 1, 12) + 1 == (if m == -10 then 1 else m - 1)
    ensures TruncDiv(m - 1 - 1, 12) == (if m == -10 then -1 else 0)
    ensures m >= 2 ==> MaxDayInMonthFor(y, m - 1) == DaysIn(y, m - 1)
    ensures -9 <= m <= 1 ==> MaxDayInMonthFor(y, m - 1) == 28
    ensures m == -10 ==> MaxDayInMonthFor(y, m - 1) == 31
  {
    if m >= 2 { MaxDayIsDaysIn(y, m - 1); }
    assert m == -10 || m == -9 || m == -8 || m == -7 || m == -6 || m == -5 ||
           m == -4 || m == -3 || m == -2 || m == -1 || m == 0 || m == 1 || m >= 2;
  }

  /** Months zero down to -10 are the months of the year before. */
  lemma LowMonths(y: int, m: int, d: int)
    requires -10 <= m <= 0
    ensures JulianDate(Date(y, m, d)) == JulianDate(Date(y - 1, m + 12, d))
  {
    assert m == -10 || m == -9 || m == -8 || m == -7 || m == -6 || m == -5 ||
           m == -4 || m == -3 || m == -2 || m == -1 || m == 0;
  }

  /** Stepping back from a month after January keeps the day number. */
  lemma BackFromLater(y: int, m: int, d: int)
    requires 2 <= m <= 12 && y >= -4798
    ensures JulianDate(Date(y, m - 1, d + MaxDayInMonthFor(y, m - 1))) == JulianDate(Date(y, m, d))
  {
    hide JulianDate;
    BackwardStep(y, m);
    MonthLater(y, m - 1, d);
  }

  /** Stepping back from January counts December as 28 days: the day number drops by three. */
  lemma BackFromJanuary(y: int, d: int)
    requires y >= -4798
    ensures JulianDate(Date(y, 0, d + MaxDayInMonthFor(y, 0))) == JulianDate(Date(y, 1, d)) - 3
  {
    hide JulianDate;
    BackwardStep(y, 1);
    LowMonths(y, 0, d + 28);
    MonthLater(y - 1, 12, d);
    DayLater(Date(y - 1, 12, d + 28), 3);
  }

  /** Further back every month counts 28 days, and the day number drops by what that leaves out. */
  lemma BackFromLow(y: int, m: int, d: int)
    requires -9 <= m <= 0 && y >= -4797
    ensures JulianDate(Date(y, m - 1, d + MaxDayInMonthFor(y, m - 1)))
            == JulianDate(Date(y, m, d)) - (DaysIn(y - 1, m + 11) - 28)
  {
    hide JulianDate;
    BackwardStep(y, m);
    LowMonths(y, m, d);
    LowMonths(y, m - 1, d + 28);
    MonthLater(y - 1, m + 11, d);
    DayLater(Date(y - 1, m + 11, d + 28), DaysIn(y - 1, m + 11) - 28);
  }

  lemma BackToJanuary(y: int, d: int)
    requires y >= -4797
    ensures JulianDate(Date(y - 1, 1, d + MaxDayInMonthFor(y, -11))) == JulianDate(Date(y, -10, d))
  {
    hide JulianDate;
    BackwardStep(y, -10);
    LowMonths(y, -10, d);
    MonthLater(y - 1, 1, d);
  }

  /** The step the loop takes for a day before the first of its month. */
  lemma CarryBack(y: int, m: int, d: int)
    requires -10 <= m <= 12 && d < 1
    ensures m == -10 ==> Carry(y, m, d) == Carry(y - 1, 1, d + MaxDayInMonthFor(y, -11))
    ensures m > -10 ==> Carry(y, m, d) == Carry(y, m - 1, d + MaxDayInMonthFor(y, m - 1))
  {
    BackwardStep(y, m);
  }

  lemma CarryDone(y: int, m: int, d: int)
    requires -10 <= m <= 12 && 1 <= d <= MaxDayInMonthFor(y, m)
    ensures Carry(y, m, d) == Date(y, m, d)
  {
  }

  /** Carrying back never raises the day number. */
  lemma {:induction false} CarryBackBound(y: int, m: int, d: int)
    requires -10 <= m <= 12 && Room(y, m, d) && d <= MaxDayInMonthFor(y, m)
    requires y >= -4798
    ensures JulianDate(Carry(y, m, d)) <= JulianDate(Date(y, m, d))
    decreases d < 1, if d < 1 then -d else d
  {
    hide JulianDate, Carry;
    if d < 1 {
      CarryBack(y, m, d);
      BackwardStep(y, m);
      if m == -10 {
        BackToJanuary(y, d);
        CarryBackBound(y - 1, 1, d + 31);
      } else {
        CarryBackBound(y, m - 1, d + MaxDayInMonthFor(y, m - 1));
        if m >= 2 { BackFromLater(y, m, d); } else if m == 1 { BackFromJanuary(y, d); } else { BackFromLow(y, m, d); }
      }
    } else {
      CarryDone(y, m, d);
    }
  }

  /** Carrying back inside the year keeps the day number and ends on a valid date. */
  lemma {:induction false} CarryBackInYear(y: int, m: int, d: int)
    requires 1 <= m <= 12 && y >= -4798 && d <= DaysIn(y, m) && d + DaysBefore(y, m) >= 1
    ensures var r := Carry(y, m, d); Valid(r) && r.year == y && JulianDate(r) == JulianDate(Date(y, m, d))
    decreases m
  {
    hide JulianDate;
    MaxDayIsDaysIn(y, m);
    if d < 1 {
      CarryBack(y, m, d);
      BackFromLater(y, m, d);
      BackwardStep(y, m);
      DaysBeforeStep(y, m);
      CarryBackInYear(y, m - 1, d + DaysIn(y, m - 1));
    }
  }

  lemma DaysBeforeStep(y: int, m: int)
    requires 2 <= m <= 12 && y >= -4798
    ensures DaysBefore(y, m) == DaysBefore(y, m - 1) + DaysIn(y, m - 1)
  {
    hide JulianDate;
    MonthLaterByDays(y, m - 1, 1);
  }

  /** Carrying back past January loses at least three days. */
  lemma {:induction false} CarryBackPastJanuary(y: int, m: int, d: int)
    requires 1 <= m <= 12 && y >= -4798 && Room(y, m, d) && d + DaysBefore(y, m) < 1
    ensures JulianDate(Carry(y, m, d)) <= JulianDate(Date(y, m, d)) - 3
    decreases m
  {
    hide JulianDate, Carry;
    DaysBeforeNonneg(y, m);
    CarryBack(y, m, d);
    BackwardStep(y, m);
    if m == 1 {
      BackFromJanuary(y, d);
      BackwardStep(y, 1);
      CarryBackBound(y, 0, d + 28);
    } else {
      BackFromLater(y, m, d);
      DaysBeforeStep(y, m);
      CarryBackPastJanuary(y, m - 1, d + DaysIn(y, m - 1));
    }
  }

  lemma {:induction false} DaysBeforeNonneg(y: int, m: int)
    requires 1 <= m <= 12 && y >= -4798
    ensures DaysBefore(y, m) >= 0
    decreases m
  {
    hide JulianDate;
    if m > 1 {
      DaysBeforeStep(y, m);
      DaysBeforeNonneg(y, m - 1);
    }
  }

  /** The carry keeps the day number exactly when the day it stands for is not before 1 January of the
      year it starts from. */
  lemma CarryExactIff(y: int, m: int, d: int)
    requires 1 <= m <= 12 && y >= -4798 && Room(y, m, d)
    ensures JulianDate(Carry(y, m, d)) == JulianDate(Date(y, m, d)) <==> d + DaysBefore(y, m) >= 1
    ensures d + DaysBefore(y, m) >= 1 ==> Valid(Carry(y, m, d))
  {
    hide JulianDate;
    DaysBeforeNonneg(y, m);
    if d >= 1 {
      CarryForward(y, m, d);
    } else if d + DaysBefore(y, m) >= 1 {
      CarryBackInYear(y, m, d);
    } else {
      CarryBackPastJanuary(y, m, d);
    }
  }

  // ---------------------------------------------------------------- the carry from a month below January

  /** The length of a month from zero down to -10, which the code takes for 28. */
  function TrueLength(y: int, m: int): int {
    DaysIn(y - 1, m + 12)
  }

  lemma LowLengths(y: int, m: int)
    requires -10 <= m <= 0
    ensures MaxDayInMonthFor(y, m) == 28 <= TrueLength(y, m)
    ensures m >= -9 ==> TrueLength(y, m) >= 30
    ensures m == 0 ==> TrueLength(y, m) == 31
    ensures m == -10 ==> TrueLength(y, m) == if Leap(y - 1) then 29 else 28
  {
    assert m == -10 || m == -9 || m == -8 || m == -7 || m == -6 || m == -5 ||
           m == -4 || m == -3 || m == -2 || m == -1 || m == 0;
  }

  /** Stepping forward from such a month gains the days that the 28 leave out. */
  lemma ForwardFromLow(y: int, m: int, d: int)
    requires -10 <= m <= 0 && d > 28 && y >= -4797
    ensures Carry(y, m, d) == Carry(y, m + 1, d - 28)
    ensures JulianDate(Date(y, m + 1, d - 28)) == JulianDate(Date(y, m, d)) + TrueLength(y, m) - 28
  {
    hide JulianDate, Carry;
    LowLengths(y, m);
    CarryOn(y, m, d);
    LowMonths(y, m, d);
    if m < 0 {
      LowMonths(y, m + 1, d - 28);
    }
    MonthLater(y - 1, m + 12, d - TrueLength(y, m));
    var (y', m') := NextMonth(y - 1, m + 12);
    DayLater(Date(y', m', d - TrueLength(y, m)), TrueLength(y, m) - 28);
  }

  lemma CarryOn(y: int, m: int, d: int)
    requires -10 <= m <= 0 && d > MaxDayInMonthFor(y, m) == 28
    ensures Carry(y, m, d) == Carry(y, m + 1, d - 28)
  {
    assert TruncMod(m, 12) + 1 == m + 1 && TruncDiv(m, 12) == 0 by {
      assert m == -10 || m == -9 || m == -8 || m == -7 || m == -6 || m == -5 ||
             m == -4 || m == -3 || m == -2 || m == -1 || m == 0;
    }
  }

  /** Carrying forward from there never lowers the day number, and raises it on leaving a month longer
      than 28 days. */
  lemma {:induction false} ForwardLowBound(y: int, m: int, d: int)
    requires -10 <= m <= 1 && d >= 1 && y >= -4797
    ensures JulianDate(Carry(y, m, d)) >= JulianDate(Date(y, m, d))
    ensures -9 <= m <= 0 && d > 28 ==> JulianDate(Carry(y, m, d)) > JulianDate(Date(y, m, d))
    decreases 1 - m
  {
    hide JulianDate, Carry;
    if m == 1 {
      CarryForward(y, m, d);
    } else {
      LowLengths(y, m);
      if d > 28 {
        ForwardFromLow(y, m, d);
        ForwardLowBound(y, m + 1, d - 28);
      } else {
        CarryDone(y, m, d);
      }
    }
  }

  /** Forward, the carry ends `gap` days later than its start stands for exactly when the gap is what the
      first month leaves out and no other long month is left. */
  lemma ForwardLowIff(y: int, m: int, d: int, gap: int)
    requires -10 <= m <= 0 && d > 28 && y >= -4797 && 0 <= gap <= TrueLength(y, m) - 28
    ensures JulianDate(Carry(y, m, d)) == JulianDate(Date(y, m, d)) + gap
            <==> gap == TrueLength(y, m) - 28 && (m == 0 || d <= 56)
  {
    hide JulianDate, Carry;
    ForwardFromLow(y, m, d);
    if m == 0 {
      CarryForward(y, 1, d - 28);
    } else {
      LowLengths(y, m + 1);
      ForwardLowBound(y, m + 1, d - 28);
      if d <= 56 { CarryDone(y, m + 1, d - 28); }
    }
  }

  /** Backward, it loses nothing exactly from February, and from March of a common year, and not past
      1 January. */
  lemma BackwardLowIff(y: int, m: int, d: int)
    requires -10 <= m <= 0 && d < 1 && y >= -4797 && Room(y, m, d)
    ensures JulianDate(Carry(y, m, d)) <= JulianDate(Date(y, m, d))
    ensures JulianDate(Carry(y, m, d)) == JulianDate(Date(y, m, d))
            <==> (m == -10 && d >= -30) || (m == -9 && !Leap(y - 1) && d >= -58)
  {
    hide JulianDate, Carry;
    CarryBack(y, m, d);
    BackwardStep(y, m);
    if m == -10 {
      BackFromFebruary(y, d);
    } else {
      BackFromLow(y, m, d);
      LowLengths(y, m - 1);
      LowLengths(y, m);
      if m == -9 {
        if d + 28 >= 1 { CarryDone(y, -10, d + 28); } else { BackFromFebruary(y, d + 28); }
      } else {
        CarryBackBound(y, m - 1, d + 28);
      }
    }
  }

  lemma BackFromFebruary(y: int, d: int)
    requires d < 1 && y >= -4797 && Room(y, -10, d)
    ensures JulianDate(Carry(y, -10, d)) <= JulianDate(Date(y, -10, d))
    ensures JulianDate(Carry(y, -10, d)) == JulianDate(Date(y, -10, d)) <==> d >= -30
  {
    hide JulianDate, Carry;
    CarryBack(y, -10, d);
    BackwardStep(y, -10);
    BackToJanuary(y, d);
    CarryExactIff(y - 1, 1, d + 31);
    CarryBackBound(y - 1, 1, d + 31);
  }

  /** What the carry from such a month comes to. */
  predicate LowCarryRight(y: int, m: int, d: int, gap: int) {
    if d > 28 then gap == TrueLength(y, m) - 28 && (m == 0 || d <= 56)
    else if d >= 1 then gap == 0
    else gap == 0 && ((m == -10 && d >= -30) || (m == -9 && !Leap(y - 1) && d >= -58))
  }

  lemma LowCarryIff(y: int, m: int, d: int, gap: int)
    requires -10 <= m <= 0 && y >= -4797 && Room(y, m, d) && 0 <= gap <= TrueLength(y, m) - 28
    ensures JulianDate(Carry(y, m, d)) == JulianDate(Date(y, m, d)) + gap <==> LowCarryRight(y, m, d, gap)
  {
    hide JulianDate, Carry;
    LowLengths(y, m);
    if d > 28 {
      ForwardLowIff(y, m, d, gap);
    } else if d >= 1 {
      CarryDone(y, m, d);
    } else {
      BackwardLowIff(y, m, d);
    }
  }

  /** The day before 1 January 2000 comes out as the 28th of a month zero, three days early. */
  lemma DayBeforeNewYear()
    ensures Carry(2000, 1, 0) == Date(2000, 0, 28)
    ensures GetYmd(JulianDate(Carry(2000, 1, 0))) == Date(1999, 12, 28)
  {
    hide JulianDate, GetYmd, Carry, MaxDayInMonthFor;
    BackwardStep(2000, 1);
    CarryBack(2000, 1, 0);
    CarryDone(2000, 0, 28);
    LowMonths(2000, 0, 28);
    DateRoundTrip(Date(1999, 12, 28));
  }

  // ---------------------------------------------------------------- adding a duration

  /** The parsed fields of a duration. */
  datatype Duration = Duration(years: int, months: int, days: int, hours: int, minutes: int, seconds: int)

  predicate NonNegative(dur: Duration) {
    dur.years >= 0 && dur.months >= 0 && dur.days >= 0 && dur.hours >= 0 && dur.minutes >= 0 && dur.seconds >= 0
  }

  /** The first of the month that years and months lead to. */
  function ShiftedMonth(start: Date, dur: Duration): Date {
    var n := start.month - 1 + dur.months;
    Date(start.year + dur.years + n / 12, n % 12 + 1, 1)
  }

  /** The start shifted by years and months, with the day clamped to the month it ends in. */
  function Shifted(start: Date, dur: Duration): Date {
    var first := ShiftedMonth(start, dur);
    first.(day := Clamp(start.day, DaysIn(first.year, first.month)))
  }

  function Clamp(day: int, last: int): int {
    if day > last then last else day
  }

  /** The shift is what it says: whole months from the start's month, and the same day of the month it
      ends in, or the last day when there is no such day. */
  lemma ShiftMeans(start: Date, dur: Duration)
    requires Valid(start)
    ensures var first, s := ShiftedMonth(start, dur), Shifted(start, dur);
            && 1 <= first.month <= 12
            && 12 * first.year + first.month == 12 * start.year + start.month + 12 * dur.years + dur.months
            && s.year == first.year && s.month == first.month && Valid(s)
            && (if Valid(first.(day := start.day)) then s.day == start.day
                else !Valid(s.(day := s.day + 1)) && s.day < start.day)
  {
  }

  /** The months lead below January of the starting year, and not to another January: C division then
      leaves a month from zero down to -10. */
  predicate BelowJanuary(start: Date, dur: Duration) {
    var n := start.month - 1 + dur.months;
    n < 0 && n % 12 != 0
  }

  /** Year and month as the code computes them. */
  function CodeMonth(start: Date, dur: Duration): Date {
    var n := start.month - 1 + dur.months;
    Date(start.year + dur.years + TruncDiv(n, 12), TruncMod(n, 12) + 1, 1)
  }

  lemma CodeMonthIs(start: Date, dur: Duration)
    ensures var first := ShiftedMonth(start, dur);
            CodeMonth(start, dur) ==
              if BelowJanuary(start, dur) then Date(first.year + 1, first.month - 12, 1) else first
    ensures BelowJanuary(start, dur) ==> 2 <= ShiftedMonth(start, dur).month
  {
    TruncNegative(start.month - 1 + dur.months, 12);
  }

  lemma TruncNegative(n: int, b: int)
    requires b > 0
    ensures n >= 0 || n % b == 0 ==> TruncDiv(n, b) == n / b && TruncMod(n, b) == n % b
    ensures n < 0 && n % b != 0 ==> TruncDiv(n, b) == n / b + 1 && TruncMod(n, b) == n % b - b
  {
    if n < 0 {
      var q, r := n / b, n % b;
      assert -n == b * -q - r == b * (-q - 1) + (b - r);
      if r == 0 { QuotientIs(-n, b, -q, 0); } else { QuotientIs(-n, b, -q - 1, b - r); }
    }
  }

  /** `get_hms`. */
  function Ticks(time: int): int {
    TruncDiv(time, 1000)
  }

  function Hour(time: int): int {
    TruncDiv(Ticks(time), 3600)
  }

  function Minute(time: int): int {
    TruncMod(TruncDiv(Ticks(time), 60), 60)
  }

  function Second(time: int): int {
    TruncMod(Ticks(time), 60)
  }

  /** Whole seconds, rounded towards zero; minutes and seconds below sixty. */
  lemma TicksMeans(time: int)
    ensures time >= 0 ==> 1000 * Ticks(time) <= time < 1000 * Ticks(time) + 1000
    ensures time < 0 ==> 1000 * Ticks(time) - 1000 < time <= 1000 * Ticks(time)
    ensures -60 < Minute(time) < 60 && -60 < Second(time) < 60
    ensures time >= 0 ==> Hour(time) >= 0 && Minute(time) >= 0 && Second(time) >= 0
  {
    hide TruncDiv, TruncMod;
    TruncBounds(time, 1000);
    TruncBounds(Ticks(time), 60);
    TruncBounds(TruncDiv(Ticks(time), 60), 60);
    TruncBounds(Ticks(time), 3600);
  }

  lemma TruncBounds(a: int, b: int)
    requires b > 0
    ensures a == b * TruncDiv(a, b) + TruncMod(a, b)
    ensures if a >= 0 then TruncDiv(a, b) >= 0 && 0 <= TruncMod(a, b) < b
            else TruncDiv(a, b) <= 0 && -b < TruncMod(a, b) <= 0
  {
    TruncDivMod(a, b);
    MulAtLeast(b, a / b);
    MulAtLeast(b, -a / b);
    assert -a == b * (-a / b) + -a % b && a == b * (a / b) + a % b;
  }

  /** Whatever the sign, hours, minutes and seconds make up the whole seconds. */
  lemma ClockParts(time: int)
    ensures Ticks(time) == 3600 * Hour(time) + 60 * Minute(time) + Second(time)
  {
    var t := Ticks(time);
    NatParts(if t >= 0 then t else -t);
    hide Ticks;
  }

  lemma NatParts(t: nat)
    ensures t == 3600 * (t / 3600) + 60 * (t / 60 % 60) + t % 60
  {
    QuotientIs(t, 3600, t / 60 / 60, 60 * (t / 60 % 60) + t % 60);
  }

  /** Hours, minutes and seconds of the duration and of the start, carried into days as C does. */
  function CarriedDays(time: int, dur: Duration): int {
    var carrySec := TruncDiv(Second(time) + dur.seconds, 60);
    var carryMin := TruncDiv(Minute(time) + dur.minutes + carrySec, 60);
    TruncDiv(Hour(time) + dur.hours + carryMin, 24)
  }

  /** Seconds since day number zero that Appendix E of W3C XML Schema Part 2 prescribes: shift by
      years and months, clamp, and add the exact rest. */
  function ExpectedSeconds(date: int, time: int, dur: Duration): int {
    86400 * (JulianDate(Shifted(GetYmd(date), dur)) + dur.days) +
    Ticks(time) + 3600 * dur.hours + 60 * dur.minutes + dur.seconds
  }

  /** The seconds of the day that are left after the carries. */
  function ClockRest(time: int, dur: Duration): int {
    var tmpSec := Second(time) + dur.seconds;
    var tmpMin := Minute(time) + dur.minutes + TruncDiv(tmpSec, 60);
    var tmpHour := Hour(time) + dur.hours + TruncDiv(tmpMin, 60);
    3600 * TruncMod(tmpHour, 24) + 60 * TruncMod(tmpMin, 60) + TruncMod(tmpSec, 60)
  }

  /** The carries of the clock lose nothing, whatever the signs. */
  lemma ClockCarries(time: int, dur: Duration)
    ensures 86400 * CarriedDays(time, dur) + ClockRest(time, dur)
            == Ticks(time) + 3600 * dur.hours + 60 * dur.minutes + dur.seconds
  {
    ClockParts(time);
    hide TruncDiv, TruncMod, Ticks, Hour, Minute, Second;
    var tmpSec := Second(time) + dur.seconds;
    var tmpMin := Minute(time) + dur.minutes + TruncDiv(tmpSec, 60);
    var tmpHour := Hour(time) + dur.hours + TruncDiv(tmpMin, 60);
    TruncDivMod(tmpSec, 60);
    TruncDivMod(tmpMin, 60);
    TruncDivMod(tmpHour, 24);
  }

  /** What is left of the clock stays within one day of zero. */
  lemma ClockRestBounds(time: int, dur: Duration)
    ensures -86400 < ClockRest(time, dur) < 86400
  {
    hide TruncDiv, TruncMod, Ticks;
    var tmpSec := Second(time) + dur.seconds;
    var tmpMin := Minute(time) + dur.minutes + TruncDiv(tmpSec, 60);
    TruncBounds(tmpSec, 60);
    TruncBounds(tmpMin, 60);
    TruncBounds(Hour(time) + dur.hours + TruncDiv(tmpMin, 60), 24);
  }

  lemma NonNegativeClock(time: nat, dur: Duration)
    requires NonNegative(dur)
    ensures CarriedDays(time, dur) >= 0 && 0 <= ClockRest(time, dur) < 86400
  {
  }

  /** The day the code starts from: below January every month is taken for 28 days long. */
  function CodeDay(start: Date, dur: Duration): int {
    var first := ShiftedMonth(start, dur);
    Clamp(start.day, if BelowJanuary(start, dur) then 28 else DaysIn(first.year, first.month))
  }

  /** The day of the shifted month that the duration leads to, before the month carry. */
  function TargetDay(date: int, time: int, dur: Duration): int {
    CodeDay(GetYmd(date), dur) + dur.days + CarriedDays(time, dur)
  }

  /** What the addition is asked for: a start that is a date, and years that stay where day numbers are
      defined. */
  predicate Addable(date: int, time: int, dur: Duration) {
    var first := ShiftedMonth(GetYmd(date), dur);
    date >= -32044 && first.year >= -4798 && Room(first.year, first.month, TargetDay(date, time, dur))
  }

  /** When the addition comes out right. */
  predicate AddsRight(date: int, time: int, dur: Duration) {
    var start, day := GetYmd(date), TargetDay(date, time, dur);
    var first := ShiftedMonth(start, dur);
    if BelowJanuary(start, dur)
    then LowCarryRight(first.year + 1, first.month - 12, day, Shifted(start, dur).day - CodeDay(start, dur))
    else day + DaysBefore(first.year, first.month) >= 1
  }

  lemma LowRoom(y: int, m: int, d: int)
    ensures Room(y, m, d) <==> Room(y + 1, m - 12, d)
  {
  }

  /** The carry from a shifted month, in day numbers. */
  lemma ShiftCarries(start: Date, dur: Duration, more: int)
    requires Valid(start) && ShiftedMonth(start, dur).year >= -4798
    requires var first := ShiftedMonth(start, dur); Room(first.year, first.month, CodeDay(start, dur) + more)
    ensures var s, first, code := Shifted(start, dur), ShiftedMonth(start, dur), CodeMonth(start, dur);
            var day := CodeDay(start, dur) + more;
            JulianDate(Carry(code.year, code.month, day)) == JulianDate(s) + more
            <==> if BelowJanuary(start, dur)
                 then LowCarryRight(first.year + 1, first.month - 12, day, s.day - CodeDay(start, dur))
                 else day + DaysBefore(first.year, first.month) >= 1
  {
    hide JulianDate, Carry, Room, LowCarryRight, DaysIn;
    var s, first, code := Shifted(start, dur), ShiftedMonth(start, dur), CodeMonth(start, dur);
    var day := CodeDay(start, dur) + more;
    CodeMonthIs(start, dur);
    DayLater(s, day - s.day);
    MonthBounds(first.year, first.month);
    MaxDayIsDaysIn(first.year, first.month);
    if BelowJanuary(start, dur) {
      LowRoom(first.year, first.month, day);
      LowCarryIff(code.year, code.month, day, s.day - CodeDay(start, dur));
      LowMonths(code.year, code.month, day);
    } else {
      CarryExactIff(first.year, first.month, day);
    }
  }

  /** To the second, the carried result is the prescribed one exactly where `AddsRight` says: at or above
      January, when the duration does not lead before 1 January of the shifted year; below it, when the
      28-day months happen not to matter. It always is for a duration without negative parts. */
  lemma AdditionExactIff(date: int, time: int, dur: Duration)
    requires Addable(date, time, dur)
    ensures var code := CodeMonth(GetYmd(date), dur);
            var end := Carry(code.year, code.month, TargetDay(date, time, dur));
            ExpectedSeconds(date, time, dur) == 86400 * JulianDate(end) + ClockRest(time, dur)
            <==> AddsRight(date, time, dur)
    ensures NonNegative(dur) && time >= 0 ==> AddsRight(date, time, dur)
  {
    hide JulianDate, GetYmd, Carry, CarriedDays, ClockRest, Room, Ticks, Shifted, CodeDay, CodeMonth, LowCarryRight;
    hide BelowJanuary, DaysBefore, NonNegative;
    var start := GetYmd(date);
    DayRoundTrip(date);
    ClockCarries(time, dur);
    ShiftCarries(start, dur, dur.days + CarriedDays(time, dur));
    if NonNegative(dur) && time >= 0 { NonNegativeAddsRight(date, time, dur); }
  }

  lemma NonNegativeAddsRight(date: int, time: nat, dur: Duration)
    requires Addable(date, time, dur) && NonNegative(dur)
    ensures AddsRight(date, time, dur)
  {
    DayRoundTrip(date);
    NonNegativeClock(time, dur);
    hide JulianDate, GetYmd, CarriedDays, ClockRest, Room, DaysBefore;
    var first := ShiftedMonth(GetYmd(date), dur);
    DaysBeforeNonneg(first.year, first.month);
  }

  /** Nothing is asked of an addition that could matter: every date on which day numbers are defined takes
      every duration without negative parts, rightly; and a date of a positive year whatever leads back
      less than 4400 years. */
  lemma AddableWidely(date: int, time: int, dur: Duration)
    requires date >= -32044 && GetYmd(date).year >= -4798
    ensures dur.years >= 0 && dur.months >= 0 && dur.days >= 0 && dur.hours >= 0 && dur.minutes >= 0
            && dur.seconds >= 0 && time >= 0 ==>
              Addable(date, time, dur) && NonNegative(dur) && AddsRight(date, time, dur)
    ensures ShiftedMonth(GetYmd(date), dur).year >= 1 && TargetDay(date, time, dur) >= -365 * 4400 ==>
              Addable(date, time, dur)
  {
    DayRoundTrip(date);
    hide JulianDate, GetYmd, CarriedDays, AddsRight;
    if NonNegative(dur) && time >= 0 {
      NonNegativeClock(time, dur);
      NonNegativeAddsRight(date, time, dur);
    }
  }

  /** Back one month from 31 January 2000: 31 December is due, and the code gives 28 December. */
  lemma MonthBeforeJanuary()
    ensures var dur := Duration(0, -1, 0, 0, 0, 0);
            && Shifted(Date(2000, 1, 31), dur) == Date(1999, 12, 31)
            && CodeMonth(Date(2000, 1, 31), dur) == Date(2000, 0, 1) && CodeDay(Date(2000, 1, 31), dur) == 28
            && JulianDate(Carry(2000, 0, 28)) == JulianDate(Date(1999, 12, 28))
  {
    LowLengths(2000, 0);
    CarryDone(2000, 0, 28);
    LowMonths(2000, 0, 28);
  }

  class DateTime {
    var mDate: int
    var mTime: int

    constructor (date: int, time: int)
      ensures mDate == date && mTime == time
    {
      mDate, mTime := date, time;
    }

    /** `add_duration_date_time`. */
    method AddDuration(dur: Duration)
      requires Addable(mDate, mTime, dur)
      modifies this
      ensures 1000 * old(ExpectedSeconds(mDate, mTime, dur)) == 86400_000 * mDate + mTime
              <==> old(AddsRight(mDate, mTime, dur))
      ensures -86400_000 < mTime < 86400_000
      ensures NonNegative(dur) && old(mTime) >= 0 ==>
                && 1000 * old(ExpectedSeconds(mDate, mTime, dur)) == 86400_000 * mDate + mTime
                && 0 <= mTime < 86400_000
    {
      hide JulianDate, GetYmd, Carry, MaxDayInMonthFor, DaysIn, Room, DaysBefore, TruncDiv, TruncMod, AddsRight;
      AdditionExactIff(mDate, mTime, dur);
      ClockRestBounds(mTime, dur);
      if NonNegative(dur) && mTime >= 0 { NonNegativeClock(mTime, dur); }
      var start := GetYmd(mDate);
      DayRoundTrip(mDate);
      var ticks := TruncDiv(mTime, 1000);
      var sHour, sMin, sSec := TruncDiv(ticks, 3600), TruncMod(TruncDiv(ticks, 60), 60), TruncMod(ticks, 60);

      var tmpMonth := start.month + dur.months;
      var eMonth := TruncMod(tmpMonth - 1, 12) + 1;
      var eYear := start.year + dur.years + TruncDiv(tmpMonth - 1, 12);

      var tmpSec := sSec + dur.seconds;
      var eSec, carrySec := TruncMod(tmpSec, 60), TruncDiv(tmpSec, 60);
      var tmpMin := sMin + dur.minutes + carrySec;
      var eMin, carryMin := TruncMod(tmpMin, 60), TruncDiv(tmpMin, 60);
      var tmpHour := sHour + dur.hours + carryMin;
      var eHour, carryHr := TruncMod(tmpHour, 24), TruncDiv(tmpHour, 24);

      CodeLength(start, dur);
      var tmpDay := if start.day > MaxDayInMonthFor(eYear, eMonth) then MaxDayInMonthFor(eYear, eMonth)
                    else if start.day < 1 then 1 else start.day;
      var eDay := tmpDay + dur.days + carryHr;
      eYear, eMonth, eDay := CarryLoop(eYear, eMonth, eDay);
      mDate := JulianDate(Date(eYear, eMonth, eDay));
      mTime := 1000 * (3600 * eHour + 60 * eMin + eSec);
    }
  }

  lemma CodeLength(start: Date, dur: Duration)
    ensures var first, code := ShiftedMonth(start, dur), CodeMonth(start, dur);
            MaxDayInMonthFor(code.year, code.month) ==
              if BelowJanuary(start, dur) then 28 else DaysIn(first.year, first.month)
  {
    hide MaxDayInMonthFor, DaysIn;
    CodeMonthIs(start, dur);
    var first, code := ShiftedMonth(start, dur), CodeMonth(start, dur);
    if BelowJanuary(start, dur) { LowLengths(code.year, code.month); } else { MaxDayIsDaysIn(first.year, first.month); }
  }

  /** The `while (true)` loop itself. */
  method CarryLoop(y: int, m: int, d: int) returns (eYear: int, eMonth: int, eDay: int)
    ensures Date(eYear, eMonth, eDay) == Carry(y, m, d)
  {
    hide MaxDayInMonthFor, TruncDiv, TruncMod;
    eYear, eMonth, eDay := y, m, d;
    while true
      invariant Carry(eYear, eMonth, eDay) == Carry(y, m, d)
      decreases eDay < 1, if eDay < 1 then -eDay else eDay
    {
      MonthBounds(eYear, eMonth);
      MonthBounds(eYear, eMonth - 1);
      var carryDay;
      if eDay < 1 {
        eDay := eDay + MaxDayInMonthFor(eYear, eMonth - 1);
        carryDay := -1;
      } else if eDay > MaxDayInMonthFor(eYear, eMonth) {
        eDay := eDay - MaxDayInMonthFor(eYear, eMonth);
        carryDay := 1;
      } else {
        break;
      }
      var tmpMonth := eMonth + carryDay;
      eMonth := TruncMod(tmpMonth - 1, 12) + 1;
      eYear := eYear + TruncDiv(tmpMonth - 1, 12);
    }
  }

  lemma MonthBounds(y: int, m: int)
    ensures 28 <= MaxDayInMonthFor(y, m) <= 31
  {
  }

  // ---------------------------------------------------------------- weekdays

  lemma YearLater(y: int)
    requires y >= -4799
    ensures JulianDate(Date(y + 1, 1, 1)) == JulianDate(Date(y, 1, 1)) + if Leap(y) then 366 else 365
  {
    hide JulianDate;
    JulianIsMarch(Date(y, 1, 1));
    JulianIsMarch(Date(y + 1, 1, 1));
    LeapDelta(y + 4799);
    LeapShift(y);
  }

  /** `day_of_year`: one plus the distance from 1 January. */
  method DayOfYear(year: int, month: int, day: int) returns (dayCount: int)
    requires Valid(Date(year, month, day)) && year >= -4798
    ensures dayCount == JulianDate(Date(year, month, day)) - JulianDate(Date(year, 1, 1)) + 1
  {
    hide JulianDate;
    var daysInMonth := [0, 31, 28, 31, 30, 31, 30, 31, 31, 30, 31, 30, 31];
    dayCount := day;
    var i := 1;
    while i < month
      invariant 1 <= i <= month
      invariant dayCount + (if i > 2 && Leap(year) then 1 else 0) == day + DaysBefore(year, i)
    {
      DaysBeforeStep(year, i + 1);
      dayCount := dayCount + daysInMonth[i];
      i := i + 1;
    }
    if month > 2 && Leap(year) {
      dayCount := dayCount + 1;
    }
    DayLater(Date(year, month, 1), day - 1);
  }

  /** `day_of_week`, zero for Monday: the day number modulo seven, from year 1000 on. */
  method DayOfWeek(year: int, month: int, day: int) returns (r: int)
    requires Valid(Date(year, month, day)) && year >= 1000
    ensures r == JulianDate(Date(year, month, day)) % 7
  {
    var dayCount := DayOfYear(year, month, day);
    hide JulianDate;
    FirstOfYear1000();
    ghost var ofYear := dayCount;
    var i := 1000;
    while i < year
      invariant 1000 <= i <= year
      invariant dayCount == ofYear + JulianDate(Date(i, 1, 1)) - 2086303
    {
      YearLater(i);
      dayCount := dayCount + 365;
      if Leap(i) { dayCount := dayCount + 1; }
      i := i + 1;
    }
    r := (dayCount + 1) % 7;
    WeekShift(dayCount + 1);
  }

  lemma FirstOfYear1000()
    ensures JulianDate(Date(1000, 1, 1)) == 2086303
  {
  }

  lemma WeekShift(n: int)
    ensures (n + 2086301) % 7 == n % 7
  {
  }
}
