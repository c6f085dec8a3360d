/**
 * Moving a broken-down time to another UTC offset by carrying minutes, hours, days, months and years.
 *
 * The reference is a day count: a date stands for the number of days since a fixed day, and a date-time
 * for an instant in seconds.
 */
module Calendar {

  /** The fields of a C `struct tm` (years since 1900, months and days of the year from 0). */
  datatype Tm = Tm(year: int, mon: int, mday: int, hour: int, min: int, sec: int, wday: int, yday: int, gmtoff: int)

  const DAY := 86400

  predicate IsLeapYear(year: int) {
    year % 4 == 0 && (year % 100 != 0 || year % 400 == 0)
  }

  /** The two rows of the month table, which has sixteen columns. */
  function MonthLen(month: int, leap: bool): int {
    var i := if 1 <= month <= 12 then month - 1 else (month - 1) % 256 % 16;
    if i == 1 then (if leap then 29 else 28)
    else if i == 3 || i == 5 || i == 8 || i == 10 then 30
    else if i < 12 then 31
    else 0
  }

  function MonthDays(month: int, year: int): int {
    MonthLen(month, IsLeapYear(year))
  }

  // ---- The reference: counting days ----

  function YearLen(leap: bool): int {
    if leap then 366 else 365
  }

  /** Days from the first of January 1970 to the first of January of a year, forward or back. */
  function DaysBeforeYear(year: int): int
    decreases if year >= 1970 then year - 1970 else 1970 - year
  {
    if year == 1970 then 0
    else if year > 1970 then DaysBeforeYear(year - 1) + YearLen(IsLeapYear(year - 1))
    else DaysBeforeYear(year + 1) - YearLen(IsLeapYear(year))
  }

  lemma {:induction false} YearStep(year: int)
    ensures DaysBeforeYear(year + 1) == DaysBeforeYear(year) + YearLen(IsLeapYear(year))
  {
  }

  /** Days of the year before a month (0 is January, 12 the following January). */
  function DaysBeforeMonth(mon: int, leap: bool): int
    requires 0 <= mon <= 12
  {
    if mon == 0 then 0 else DaysBeforeMonth(mon - 1, leap) + MonthLen(mon, leap)
  }

  lemma {:induction false} MonthsMakeYear(leap: bool)
    ensures DaysBeforeMonth(12, leap) == YearLen(leap)
    ensures DaysBeforeMonth(11, leap) == YearLen(leap) - 31
  {
    assert DaysBeforeMonth(1, leap) == DaysBeforeMonth(0, leap) + 31;
    assert DaysBeforeMonth(2, leap) == 31 + MonthLen(2, leap);
    assert DaysBeforeMonth(4, leap) == DaysBeforeMonth(2, leap) + 61;
    assert DaysBeforeMonth(6, leap) == DaysBeforeMonth(4, leap) + 61;
    assert DaysBeforeMonth(8, leap) == DaysBeforeMonth(6, leap) + 62;
    assert DaysBeforeMonth(10, leap) == DaysBeforeMonth(8, leap) + 61;
  }

  /** The month table itself, column by column; the columns after December are 0. */
  lemma {:induction false} MonthTable(month: int, leap: bool)
    ensures MonthLen(month, leap) ==
            [31, if leap then 29 else 28, 31, 30, 31, 30, 31, 31, 30, 31, 30, 31, 0, 0, 0, 0][(month - 1) % 16]
  {
    if month < 1 || month > 12 {
      Mod256(month - 1);
    }
  }

  lemma {:induction false} Mod256(n: int)
    ensures n % 256 % 16 == n % 16
  {
    assert n == 16 * (16 * (n / 256)) + n % 256;
  }

  /** The days before each month, as numbers. */
  lemma {:induction false} MonthStarts(mon: int, leap: bool)
    requires 0 <= mon <= 12
    ensures DaysBeforeMonth(mon, leap) ==
            [0, 31, 59, 90, 120, 151, 181, 212, 243, 273, 304, 334, 365][mon] + (if leap && mon > 1 then 1 else 0)
  {
    if mon > 0 {
      MonthStarts(mon - 1, leap);
    }
  }

  /** The days before a year in closed form, for every year: a leap day every fourth year but three times in 400. */
  lemma {:induction false} YearStarts(year: int)
    ensures DaysBeforeYear(year) ==
            365 * (year - 1970) + (year - 1969) / 4 - (year - 1901) / 100 + (year - 1601) / 400
    decreases if year >= 1970 then year - 1970 else 1970 - year
  {
    if year > 1970 {
      YearStarts(year - 1);
      LeapDay(year - 1);
    } else if year < 1970 {
      YearStarts(year + 1);
      LeapDay(year);
    }
  }

  /** The days counted up to a year and up to the next differ by a leap day exactly in a leap year. */
  lemma {:induction false} LeapDay(year: int)
    ensures (year - 1968) / 4 - (year - 1900) / 100 + (year - 1600) / 400 ==
            (year - 1969) / 4 - (year - 1901) / 100 + (year - 1601) / 400 + if IsLeapYear(year) then 1 else 0
  {
    Step4(year);
    Step100(year);
    Step400(year);
    Centuries(year);
  }

  lemma {:induction false} Step4(year: int)
    ensures (year - 1968) / 4 == (year - 1969) / 4 + if year % 4 == 0 then 1 else 0
  {
  }

  lemma {:induction false} Step100(year: int)
    ensures (year - 1900) / 100 == (year - 1901) / 100 + if year % 100 == 0 then 1 else 0
  {
  }

  lemma {:induction false} Step400(year: int)
    ensures (year - 1600) / 400 == (year - 1601) / 400 + if year % 400 == 0 then 1 else 0
  {
  }

  lemma {:induction false} Centuries(year: int)
    ensures year % 400 == 0 ==> year % 100 == 0
    ensures year % 100 == 0 ==> year % 4 == 0
  {
  }

  predicate Leap(tm: Tm) {
    IsLeapYear(1900 + tm.year)
  }

  /** Days since the first of January 1970. */
  function DayNumber(tm: Tm): int
    requires 0 <= tm.mon < 12
  {
    DaysBeforeYear(1900 + tm.year) + DaysBeforeMonth(tm.mon, Leap(tm)) + tm.mday - 1
  }

  /** Sunday is 0; day number 0 was a Thursday. */
  function Weekday(day: int): int {
    (day + 4) % 7
  }

  lemma {:induction false} WeekdayStep(day: int)
    ensures Weekday(day + 1) == if Weekday(day) + 1 > 6 then 0 else Weekday(day) + 1
    ensures Weekday(day - 1) == if Weekday(day) - 1 < 0 then 6 else Weekday(day) - 1
  {
  }

  /** The date exists, and its weekday and day of the year belong to it. */
  ghost predicate ValidDate(tm: Tm) {
    && 0 <= tm.mon < 12
    && 1 <= tm.mday <= MonthLen(tm.mon + 1, Leap(tm))
    && tm.yday == DaysBeforeMonth(tm.mon, Leap(tm)) + tm.mday - 1
    && tm.wday == Weekday(DayNumber(tm))
  }

  ghost predicate ValidTm(tm: Tm) {
    ValidDate(tm) && 0 <= tm.hour < 24 && 0 <= tm.min < 60 && 0 <= tm.sec <= 60
  }

  /** The instant a date-time denotes, in seconds. */
  function Instant(tm: Tm): int
    requires 0 <= tm.mon < 12
  {
    DayNumber(tm) * DAY + tm.hour * 3600 + tm.min * 60 + tm.sec - tm.gmtoff
  }

  /** The day count of any date in numbers: the first of January 1970 is day 0. */
  lemma {:induction false} DayNumberIs(tm: Tm)
    requires 0 <= tm.mon < 12
    ensures DayNumber(tm) ==
            365 * (tm.year - 70) + (tm.year - 69) / 4 - (tm.year - 1) / 100 + (tm.year + 299) / 400
            + [0, 31, 59, 90, 120, 151, 181, 212, 243, 273, 304, 334][tm.mon]
            + (if Leap(tm) && tm.mon > 1 then 1 else 0) + tm.mday - 1
  {
    YearStarts(1900 + tm.year);
    MonthStarts(tm.mon, Leap(tm));
  }

  /** An hour, a minute and a second later are that many seconds later; further east it is that many seconds earlier. */
  lemma {:induction false} InstantIs(tm: Tm, hours: int, mins: int, secs: int, east: int)
    requires 0 <= tm.mon < 12
    ensures Instant(tm.(hour := tm.hour + hours, min := tm.min + mins, sec := tm.sec + secs,
                        gmtoff := tm.gmtoff + east))
         == Instant(tm) + 3600 * hours + 60 * mins + secs - east
    ensures Instant(tm.(mday := tm.mday + 1)) == Instant(tm) + 86400
  {
    var later := tm.(hour := tm.hour + hours, min := tm.min + mins, sec := tm.sec + secs, gmtoff := tm.gmtoff + east);
    assert DayNumber(later) == DayNumber(tm) && DayNumber(tm.(mday := tm.mday + 1)) == DayNumber(tm) + 1;
  }

  /** Day 0 was a Thursday, and weekdays come round every seven days. */
  lemma {:induction false} WeekdayIs(day: int, weeks: int)
    ensures 0 <= Weekday(day) < 7 && Weekday(0) == 4 && Weekday(day + 7 * weeks) == Weekday(day)
  {
    assert (day + 7 * weeks + 4) % 7 == (day + 4) % 7;
  }

  // ---- One day forward or back ----

  /** Carries a day of the month that is one too small or one too large into the month and the year. */
  function CarryDay(t: Tm): Tm {
    if t.mon < 0 || t.mon >= 12 then t
    else if t.mday < 1 then
      if t.mon - 1 < 0 then
        t.(mon := 11, year := t.year - 1, yday := 364 + (if IsLeapYear(1900 + t.year - 1) then 1 else 0),
           mday := MonthDays(12, 1900 + t.year - 1))
      else t.(mon := t.mon - 1, mday := MonthDays(t.mon, 1900 + t.year))
    else if t.mday > MonthDays(t.mon + 1, 1900 + t.year) then
      if t.mon + 1 > 11 then t.(mday := 1, mon := 0, year := t.year + 1, yday := 0)
      else t.(mday := 1, mon := t.mon + 1)
    else t
  }

  function NextDay(tm: Tm): Tm {
    CarryDay(tm.(mday := tm.mday + 1, wday := if tm.wday + 1 > 6 then 0 else tm.wday + 1, yday := tm.yday + 1))
  }

  function PrevDay(tm: Tm): Tm {
    CarryDay(tm.(mday := tm.mday - 1, wday := if tm.wday - 1 < 0 then 6 else tm.wday - 1, yday := tm.yday - 1))
  }

  /** Moving to another date moves the day count by the difference, and keeps weekdays in step. */
  lemma {:induction false} DateMoved(tm: Tm, t: Tm, step: int)
    requires ValidDate(tm) && (step == 1 || step == -1)
    requires 0 <= t.mon < 12 && 1 <= t.mday <= MonthLen(t.mon + 1, Leap(t))
    requires DayNumber(t) == DayNumber(tm) + step
    requires t.wday ==
             if step == 1 then (if tm.wday + 1 > 6 then 0 else tm.wday + 1)
             else (if tm.wday - 1 < 0 then 6 else tm.wday - 1)
    requires t.yday == DaysBeforeMonth(t.mon, Leap(t)) + t.mday - 1
    ensures ValidDate(t)
  {
    WeekdayStep(DayNumber(tm));
  }

  lemma {:induction false} NextDayOk(tm: Tm)
    requires ValidDate(tm)
    ensures ValidDate(NextDay(tm)) && DayNumber(NextDay(tm)) == DayNumber(tm) + 1
  {
    var t := NextDay(tm);
    if tm.mday == MonthLen(tm.mon + 1, Leap(tm)) && tm.mon == 11 {
      MonthsMakeYear(Leap(tm));
      YearStep(1900 + tm.year);
    }
    DateMoved(tm, t, 1);
  }

  lemma {:induction false} PrevDayOk(tm: Tm)
    requires ValidDate(tm)
    ensures ValidDate(PrevDay(tm)) && DayNumber(PrevDay(tm)) == DayNumber(tm) - 1
  {
    var t := PrevDay(tm);
    if tm.mday == 1 && tm.mon == 0 {
      MonthsMakeYear(Leap(t));
      YearStep(1900 + t.year);
    }
    DateMoved(tm, t, -1);
  }

  // ---- The shift ----

  /** C division and remainder, which round toward zero. */
  function Quot(a: int, b: int): int
    requires b > 0
  {
    if a >= 0 then a / b else -(-a / b)
  }

  function Rem(a: int, b: int): int
    requires b > 0
  {
    a - b * Quot(a, b)
  }

  /** Minutes since midnight after the shift, which may leave the day. */
  function ShiftedMinutes(tm: Tm, tzoffset: int): int {
    tm.hour * 60 + tm.min + Quot(tzoffset - tm.gmtoff, 60)
  }

  lemma {:induction false} HoursAndMinutes(off: int)
    ensures Quot(off, 3600) * 60 + Quot(Rem(off, 3600), 60) == Quot(off, 60)
    ensures -60 < Quot(Rem(off, 3600), 60) < 60
  {
    var n := if off >= 0 then off else -off;
    assert n / 3600 * 60 + n % 3600 / 60 == n / 60;
  }

  /** The difference is in whole minutes and moves the time of day by at most one day. */
  predicate Shiftable(tm: Tm, tzoffset: int) {
    (tzoffset - tm.gmtoff) % 60 == 0 && -1440 <= ShiftedMinutes(tm, tzoffset) < 2880
  }

  /** The time of day after the shift: one carry from the minutes, hours not yet brought into the day. */
  function LocalTime(tm: Tm, tzoffset: int): Tm {
    var off := tzoffset - tm.gmtoff;
    var min := tm.min + Quot(Rem(off, 3600), 60);
    var carry := if min < 0 then -1 else if min > 59 then 1 else 0;
    tm.(gmtoff := tzoffset, hour := tm.hour + Quot(off, 3600) + carry, min := min - 60 * carry)
  }

  /** Hours and minutes always add up; for minutes in range the minutes stay in range. */
  lemma {:induction false} LocalTimeIs(tm: Tm, tzoffset: int)
    ensures var t := LocalTime(tm, tzoffset);
            && t.hour * 60 + t.min == ShiftedMinutes(tm, tzoffset)
            && (0 <= tm.min < 60 ==> 0 <= t.min < 60 && t.hour == ShiftedMinutes(tm, tzoffset) / 60)
  {
    HoursAndMinutes(tzoffset - tm.gmtoff);
  }

  /** What the shift computes, as a step of at most one day. */
  function Shifted(tm: Tm, tzoffset: int): Tm {
    var t := LocalTime(tm, tzoffset);
    if t.hour < 0 then PrevDay(t.(hour := t.hour + 24))
    else if t.hour > 23 then NextDay(t.(hour := t.hour - 24))
    else t
  }

  /** Two offsets apart by whole minutes are apart by sixty times the minutes counted. */
  lemma {:induction false} WholeMinutes(off: int)
    ensures off % 60 == 0 <==> off == 60 * Quot(off, 60)
  {
  }

  /** The days a time of day is carried by: one back, one forward or none. */
  function DaysCarried(hour: int): int {
    if hour < 0 then -1 else if hour > 23 then 1 else 0
  }

  lemma {:induction false} HourInDay(m: int)
    ensures 0 <= m / 60 - 24 * DaysCarried(m / 60) < 24 <==> -1440 <= m < 2880
  {
  }

  /** The result is `k` days away, with the hour brought that many days back. */
  ghost predicate MovedBy(tm: Tm, t: Tm, r: Tm, k: int) {
    && ValidDate(tm) && ValidDate(r) && DayNumber(r) == DayNumber(tm) + k
    && r.hour == t.hour - 24 * k && r.min == t.min && r.sec == t.sec && r.gmtoff == t.gmtoff
  }

  lemma {:induction false} MovedBack(tm: Tm, t: Tm)
    requires ValidDate(tm) && t == tm.(gmtoff := t.gmtoff, hour := t.hour, min := t.min)
    ensures MovedBy(tm, t, PrevDay(t.(hour := t.hour + 24)), -1)
  {
    LocalDate(tm, t);
    PrevDayOk(t.(hour := t.hour + 24));
  }

  lemma {:induction false} MovedForward(tm: Tm, t: Tm)
    requires ValidDate(tm) && t == tm.(gmtoff := t.gmtoff, hour := t.hour, min := t.min)
    ensures MovedBy(tm, t, NextDay(t.(hour := t.hour - 24)), 1)
  {
    LocalDate(tm, t);
    NextDayOk(t.(hour := t.hour - 24));
  }

  lemma {:induction false} ShiftedMoves(tm: Tm, tzoffset: int)
    requires ValidDate(tm)
    ensures var t := LocalTime(tm, tzoffset);
            MovedBy(tm, t, Shifted(tm, tzoffset), DaysCarried(t.hour))
  {
    var t := LocalTime(tm, tzoffset);
    if t.hour < 0 {
      MovedBack(tm, t);
    } else if t.hour > 23 {
      MovedForward(tm, t);
    } else {
      LocalDate(tm, t);
    }
  }

  /** The result is a valid date-time exactly when the time of day moves by at most one day. */
  lemma {:induction false} ShiftedValid(tm: Tm, tzoffset: int)
    requires ValidTm(tm)
    ensures ValidTm(Shifted(tm, tzoffset)) <==> -1440 <= ShiftedMinutes(tm, tzoffset) < 2880
  {
    LocalTimeIs(tm, tzoffset);
    ShiftedMoves(tm, tzoffset);
    HourInDay(ShiftedMinutes(tm, tzoffset));
  }

  /** The result denotes the same instant exactly when the difference is in whole minutes. */
  lemma {:induction false} ShiftedInstant(tm: Tm, tzoffset: int)
    requires ValidTm(tm)
    ensures 0 <= Shifted(tm, tzoffset).mon < 12
    ensures Instant(Shifted(tm, tzoffset)) == Instant(tm) <==> (tzoffset - tm.gmtoff) % 60 == 0
  {
    LocalTimeIs(tm, tzoffset);
    ShiftedMoves(tm, tzoffset);
    InstantMoved(tm, tzoffset, Shifted(tm, tzoffset), DaysCarried(LocalTime(tm, tzoffset).hour));
    WholeMinutes(tzoffset - tm.gmtoff);
  }

  /**
   * For a valid date-time the result is a valid date-time for the same instant exactly when the difference
   * of the offsets is in whole minutes and moves the time of day by at most one day.
   */
  lemma {:induction false} ShiftedSameInstant(tm: Tm, tzoffset: int)
    requires ValidTm(tm)
    ensures ValidTm(Shifted(tm, tzoffset)) && Instant(Shifted(tm, tzoffset)) == Instant(tm) <==> Shiftable(tm, tzoffset)
  {
    ShiftedValid(tm, tzoffset);
    ShiftedInstant(tm, tzoffset);
  }

  /** The date does not depend on the time of day. */
  lemma {:induction false} LocalDate(tm: Tm, t: Tm)
    requires ValidDate(tm) && t == tm.(gmtoff := t.gmtoff, hour := t.hour, min := t.min)
    ensures ValidDate(t) && DayNumber(t) == DayNumber(tm)
    ensures forall h :: ValidDate(t.(hour := h)) && DayNumber(t.(hour := h)) == DayNumber(tm)
  {
  }

  /** A result `k` days and the shifted minutes away denotes an instant off by the seconds dropped. */
  lemma {:induction false} InstantMoved(tm: Tm, tzoffset: int, r: Tm, k: int)
    requires 0 <= tm.mon < 12 && 0 <= r.mon < 12
    requires DayNumber(r) == DayNumber(tm) + k && r.sec == tm.sec && r.gmtoff == tzoffset
    requires r.hour * 60 + r.min + k * 1440 == ShiftedMinutes(tm, tzoffset)
    ensures Instant(r) - Instant(tm) == 60 * Quot(tzoffset - tm.gmtoff, 60) - (tzoffset - tm.gmtoff)
  {
  }

  /** Less than a day apart is always shiftable: every whole-minute difference under 24 hours. */
  lemma {:induction false} UnderADayShiftable(tm: Tm, tzoffset: int)
    requires ValidTm(tm) && (tzoffset - tm.gmtoff) % 60 == 0 && -DAY < tzoffset - tm.gmtoff < DAY
    ensures Shiftable(tm, tzoffset)
  {
    WholeMinutes(tzoffset - tm.gmtoff);
  }

  /** Late on New Year's Day of any year a date-time cannot be moved by 26 hours: the hour leaves the clock. */
  lemma {:induction false} TwentySixHoursFails(year: int)
    ensures var tm := Tm(year, 0, 1, 23, 0, 0, Weekday(DaysBeforeYear(1900 + year)), 0, -12 * 3600);
            && ValidTm(tm) && ShiftedMinutes(tm, 14 * 3600) == 2940
            && !Shiftable(tm, 14 * 3600) && !ValidTm(Shifted(tm, 14 * 3600))
  {
    var tm := Tm(year, 0, 1, 23, 0, 0, Weekday(DaysBeforeYear(1900 + year)), 0, -12 * 3600);
    ShiftedValid(tm, 14 * 3600);
  }

  /** The first part of the shift: minutes and hours. */
  method CarryMinutes(input: Tm, tzoffset: int) returns (tm: Tm)
    ensures tm == LocalTime(input, tzoffset)
  {
    tm := input.(gmtoff := tzoffset);
    var secOffset := -(input.gmtoff - tzoffset);
    var hours, minOffset := Quot(secOffset, 3600), Quot(Rem(secOffset, 3600), 60);
    tm := tm.(hour := tm.hour + hours, min := tm.min + minOffset);
    if tm.min < 0 {
      tm := tm.(hour := tm.hour - 1, min := tm.min + 60);
    } else if tm.min > 59 {
      tm := tm.(hour := tm.hour + 1, min := tm.min - 60);
    }
  }

  /** The last part of the shift: months and years. */
  method CarryMonth(t: Tm) returns (tm: Tm)
    ensures tm == CarryDay(t)
  {
    tm := t;
    if tm.mon < 0 || tm.mon >= 12 {
      return;
    }
    if tm.mday < 1 {
      tm := tm.(mon := tm.mon - 1);
      if tm.mon < 0 {
        tm := tm.(year := tm.year - 1, mon := 11);
        tm := tm.(yday := 364 + if IsLeapYear(1900 + tm.year) then 1 else 0);
      }
      tm := tm.(mday := MonthDays(tm.mon + 1, 1900 + tm.year));
    } else if tm.mday > MonthDays(tm.mon + 1, 1900 + tm.year) {
      tm := tm.(mday := 1, mon := tm.mon + 1);
      if tm.mon > 11 {
        tm := tm.(year := tm.year + 1, mon := 0, yday := 0);
      }
    }
  }

  /** get_tm_at_tzoffset, field by field. */
  method GetTmAtTzOffset(input: Tm, tzoffset: int) returns (tm: Tm)
    ensures tm == if tzoffset == input.gmtoff then input else Shifted(input, tzoffset)
    ensures 0 <= input.hour < 24 && 0 <= input.min < 60 ==> tm == Shifted(input, tzoffset)
  {
    tm := input;
    if tzoffset == input.gmtoff {
      return;
    }
    tm := CarryMinutes(input, tzoffset);
    if tm.hour < 0 {
      tm := tm.(mday := tm.mday - 1, hour := tm.hour + 24, wday := tm.wday - 1);
      if tm.wday < 0 {
        tm := tm.(wday := 6);
      }
      tm := tm.(yday := tm.yday - 1);
    } else if tm.hour > 23 {
      tm := tm.(mday := tm.mday + 1, hour := tm.hour - 24, wday := tm.wday + 1);
      if tm.wday > 6 {
        tm := tm.(wday := 0);
      }
      tm := tm.(yday := tm.yday + 1);
    } else {
      return;
    }
    tm := CarryMonth(tm);
  }
}
