// ISO 8601 week numbers.
module IsoWeeks {

  // ----- The calendar -------------------------------------------------------

  // The proleptic Gregorian calendar, with a year 0 before year 1.
  predicate Leap(year: int)
  {
    year % 4 == 0 && (year % 100 != 0 || year % 400 == 0)
  }

  function DaysIn(year: int): int
  {
    if Leap(year) then 366 else 365
  }

  // Days are counted from 1 January of year 1, which is a Monday.
  function FirstDay(year: int): int
    decreases if year >= 1 then year else 2 - year
  {
    if year == 1 then 0
    else if year > 1 then FirstDay(year - 1) + DaysIn(year - 1)
    else FirstDay(year + 1) - DaysIn(year)
  }

  // Sunday is 0, as in the time structure of C.
  function Weekday(day: int): int
  {
    (day + 1) % 7
  }

  const THURSDAY := 4

  // The Thursday of a day's week, which runs from Monday to Sunday.
  function ThursdayOf(day: int): (t: int)
    ensures Weekday(t) == THURSDAY && -3 <= t - day <= 3
    ensures Weekday(day) != 0 ==> t - day == THURSDAY - Weekday(day)
  {
    day - day % 7 + 3
  }

  // How many Thursdays there are from one day up to another.
  function Thursdays(start: int, end: int): (n: nat)
    decreases end - start
  {
    if end <= start then 0
    else Thursdays(start, end - 1) + if Weekday(end - 1) == THURSDAY then 1 else 0
  }

  // ----- The formulas -------------------------------------------------------

  // Division of the source's integers rounds towards zero.
  function Quotient(a: int, b: int): int
    requires b > 0
  {
    if a >= 0 then a / b else -(-a / b)
  }

  function Remainder(a: int, b: int): int
    requires b > 0
  {
    a - b * Quotient(a, b)
  }

  const DAYS_PER_WEEK := 7

  function YearShift(year: int): int
  {
    Remainder(year + Quotient(year, 4) - Quotient(year, 100) + Quotient(year, 400), DAYS_PER_WEEK)
  }

  function IsoYearWeeks(year: int): int
  {
    52 + if YearShift(year) == 4 || YearShift(year - 1) == 3 then 1 else 0
  }

  function IsoWeekNum(yday: int, wday: int): int
  {
    Quotient(yday + 11 - (if wday == 0 then DAYS_PER_WEEK else wday), DAYS_PER_WEEK)
  }

  function IsoWeekYear(year: int, yday: int, wday: int): int
  {
    var w := IsoWeekNum(yday, wday);
    if w < 1 then year - 1 else if w > IsoYearWeeks(year) then year + 1 else year
  }

  function IsoWeekOfYear(year: int, yday: int, wday: int): int
  {
    var w := IsoWeekNum(yday, wday);
    if w < 1 then IsoYearWeeks(year - 1) else if w > IsoYearWeeks(year) then 1 else w
  }

  // ----- The formulas are the calendar's ------------------------------------

  lemma {:induction false} FirstDayClosedForm(year: int)
    requires year >= -1
    ensures var y := year - 1; FirstDay(year) == 365 * y + y / 4 - y / 100 + y / 400
    decreases if year >= 1 then year else 2 - year
  {
    if year > 1 {
      FirstDayClosedForm(year - 1);
      LeapDays(year - 1);
    } else if year < 1 {
      FirstDayClosedForm(year + 1);
      LeapDays(year);
    }
  }

  // A quotient grows by one at each multiple of the divisor.
  lemma LeapDays(y: int)
    ensures y / 4 - y / 100 + y / 400 == (y - 1) / 4 - (y - 1) / 100 + (y - 1) / 400 + DaysIn(y) - 365
  {
    QuotientSteps(y, 4);
    QuotientSteps(y, 100);
    QuotientSteps(y, 400);
    HundredIsMultipleOfFour(y);
    FourHundredIsMultipleOfHundred(y);
    Leaps(y % 4 == 0, y % 100 == 0, y % 400 == 0, Leap(y));
  }

  lemma Leaps(by4: bool, by100: bool, by400: bool, leap: bool)
    requires (by400 ==> by100) && (by100 ==> by4) && (leap <==> by4 && (!by100 || by400))
    ensures (if by4 then 1 else 0) - (if by100 then 1 else 0) + (if by400 then 1 else 0) == if leap then 1 else 0
  {
  }

  lemma HundredIsMultipleOfFour(y: int)
    ensures y % 100 == 0 ==> y % 4 == 0
  {
    if y % 100 == 0 { assert y == 4 * (25 * (y / 100)); }
  }

  lemma FourHundredIsMultipleOfHundred(y: int)
    ensures y % 400 == 0 ==> y % 100 == 0
  {
    if y % 400 == 0 { assert y == 100 * (4 * (y / 400)); }
  }

  lemma QuotientSteps(y: int, d: int)
    requires d == 4 || d == 100 || d == 400
    ensures y / d == (y - 1) / d + if y % d == 0 then 1 else 0
  {
  }

  lemma {:induction false} ThursdaysClosedForm(start: int, end: int)
    requires start <= end
    ensures Thursdays(start, end) == (end + 3) / 7 - (start + 3) / 7
    decreases end - start
  {
    if start < end { ThursdaysClosedForm(start, end - 1); }
  }

  // The weekday on which a year ends, as the source computes it.
  lemma ShiftIsLastWeekday(year: int)
    requires year >= 0
    ensures YearShift(year) == Weekday(FirstDay(year + 1) - 1)
  {
    hide FirstDay, Weekday, Remainder;
    FirstDayClosedForm(year + 1);
    var k := year / 4 - year / 100 + year / 400;
    SameWeekday(FirstDay(year + 1), 52 * year, year + k);
  }

  lemma SameWeekday(day: int, weeks: int, rest: nat)
    requires day == 7 * weeks + rest
    ensures Weekday(day - 1) == Remainder(rest, 7)
  {
  }

  // A year of 53 weeks begins or ends with a Thursday.
  lemma LongYear(first: int, days: int)
    requires days == 365 || days == 366
    ensures Thursdays(first, first + days)
      == 52 + if Weekday(first) == THURSDAY || Weekday(first + days - 1) == THURSDAY then 1 else 0
  {
    ThursdaysClosedForm(first, first + days);
  }

  lemma NextFirstDay(year: int)
    ensures FirstDay(year + 1) == FirstDay(year) + DaysIn(year)
  {
  }

  // A year has as many weeks as Thursdays.
  lemma WeeksAreThursdays(year: int)
    requires year >= -1
    ensures IsoYearWeeks(year) == Thursdays(FirstDay(year), FirstDay(year + 1))
  {
    hide YearShift, FirstDay, Thursdays, Weekday;
    LongYear(FirstDay(year), DaysIn(year));
    NextFirstDay(year);
    AroundYearZero();
    if year >= 0 { ShiftIsLastWeekday(year); }
    if year > 0 { ShiftIsLastWeekday(year - 1); }
    AfterWednesday(FirstDay(year));
    if year < 0 { NegativeShift(year); }
    if year <= 0 { NegativeShift(year - 1); }
  }

  lemma AfterWednesday(day: int)
    ensures Weekday(day - 1) == 3 <==> Weekday(day) == THURSDAY
  {
  }

  lemma FirstDaysAroundZero()
    ensures FirstDay(0) == -366 && FirstDay(-1) == -731 && FirstDay(-2) == -1096
  {
    assert FirstDay(0) == -366;
    assert FirstDay(-1) == -731;
  }

  lemma AroundYearZero()
    ensures Weekday(FirstDay(-1)) == 5 && Weekday(FirstDay(0)) == 6
    ensures Weekday(FirstDay(0) - 1) == 5
  {
    hide FirstDay;
    FirstDaysAroundZero();
  }

  // The remainder of a sum that is not positive is not positive.
  lemma NegativeShift(year: int)
    requires year < 0
    ensures YearShift(year) <= 0
  {
  }

  lemma WeekNumOfThursday(first: int, yday: nat)
    requires yday < 366
    ensures var t := ThursdayOf(first + yday);
      var w := IsoWeekNum(yday, Weekday(first + yday));
      w == (t - first) / 7 + 1 && (w < 1 <==> t < first)
      && (t >= first ==> w == Thursdays(first, t + 1))
  {
    var t := ThursdayOf(first + yday);
    WeekNumClosedForm(first, yday);
    if t >= first { ThursdaysUpTo(first, t); }
  }

  lemma WeekNumClosedForm(first: int, yday: nat)
    requires yday < 366
    ensures var t := ThursdayOf(first + yday);
      var w := IsoWeekNum(yday, Weekday(first + yday));
      w == (t - first) / 7 + 1 && (w < 1 <==> t < first)
  {
  }

  lemma ThursdaysUpTo(first: int, t: int)
    requires first <= t && Weekday(t) == THURSDAY
    ensures Thursdays(first, t + 1) == (t - first) / 7 + 1
  {
    ThursdaysClosedForm(first, t + 1);
  }

  // The week belongs to the year in which its Thursday lies, and its number
  // counts the Thursdays of that year.
  predicate IsWeekOfThursday(year: int, yday: nat, wday: int)
  {
    var t := ThursdayOf(FirstDay(year) + yday);
    var y := IsoWeekYear(year, yday, wday);
    && FirstDay(y) <= t < FirstDay(y + 1)
    && IsoWeekOfYear(year, yday, wday) == Thursdays(FirstDay(y), t + 1)
  }

  // Years that begin or end with a Thursday have 53 weeks.
  predicate BoundedByThursday(year: int)
  {
    Weekday(FirstDay(year)) == THURSDAY || Weekday(FirstDay(year + 1) - 1) == THURSDAY
  }

  // The week of a date is right from year 0 on; and before that, unless it is
  // the last week of a year that begins or ends with a Thursday.
  lemma WeekIsThatOfThursday(year: int, yday: nat, wday: int)
    requires yday < DaysIn(year) && wday == Weekday(FirstDay(year) + yday)
    ensures IsWeekOfThursday(year, yday, wday)
      <==> year >= 0 || (var w := IsoWeekNum(yday, wday);
                         if w < 1 then !BoundedByThursday(year - 1) else w == 53 ==> !BoundedByThursday(year))
  {
    if year >= 0 { WeekFromYearZero(year, yday, wday); } else { WeekBeforeYearZero(year, yday, wday); }
  }

  lemma WeekFromYearZero(year: int, yday: nat, wday: int)
    requires year >= 0 && yday < DaysIn(year) && wday == Weekday(FirstDay(year) + yday)
    ensures IsWeekOfThursday(year, yday, wday)
  {
    hide IsoYearWeeks, IsoWeekNum, FirstDay, Thursdays, ThursdayOf, Weekday, Leap;
    var first, next := FirstDay(year), FirstDay(year + 1);
    var t := ThursdayOf(first + yday);
    WeekNumOfThursday(first, yday);
    WeeksAreThursdays(year);
    NextFirstDay(year);
    if t < first {
      WeeksAreThursdays(year - 1);
      NextFirstDay(year - 1);
      LastThursday(FirstDay(year - 1), t, first);
    } else if t < next {
      LastThursday(first, t, next);
    } else {
      WeekOfNextYear(first, next, t);
      NextFirstDay(year + 1);
    }
  }

  lemma WeekBeforeYearZero(year: int, yday: nat, wday: int)
    requires year < 0 && yday < DaysIn(year) && wday == Weekday(FirstDay(year) + yday)
    ensures IsWeekOfThursday(year, yday, wday)
      <==> var w := IsoWeekNum(yday, wday);
           if w < 1 then !BoundedByThursday(year - 1) else w == 53 ==> !BoundedByThursday(year)
  {
    hide IsoYearWeeks, IsoWeekNum, FirstDay, Thursdays, ThursdayOf, Weekday, Leap;
    var first, next := FirstDay(year), FirstDay(year + 1);
    var t := ThursdayOf(first + yday);
    WeekNumOfThursday(first, yday);
    NegativeYearsHave52Weeks(year);
    NegativeYearsHave52Weeks(year - 1);
    NextFirstDay(year);
    NextFirstDay(year - 1);
    LongYear(first, DaysIn(year));
    LongYear(FirstDay(year - 1), DaysIn(year - 1));
    if t < first {
      LastThursday(FirstDay(year - 1), t, first);
    } else if t < next {
      LastThursday(first, t, next);
    } else {
      WeekOfNextYear(first, next, t);
      NextFirstDay(year + 1);
    }
  }

  // Up to a Thursday less than a week before the end, all Thursdays are
  // counted; up to an earlier one, fewer.
  lemma LastThursday(first: int, t: int, end: int)
    requires first <= t < end && Weekday(t) == THURSDAY
    ensures Thursdays(first, t + 1) <= Thursdays(first, end)
    ensures end <= t + 7 ==> Thursdays(first, t + 1) == Thursdays(first, end)
  {
    ThursdaysClosedForm(first, t + 1);
    ThursdaysClosedForm(first, end);
  }

  lemma WeekOfNextYear(first: int, next: int, t: int)
    requires first <= next <= t < next + 7 && Weekday(t) == THURSDAY
    ensures Thursdays(first, t + 1) == Thursdays(first, next) + 1
    ensures Thursdays(next, t + 1) == 1
  {
    ThursdaysClosedForm(first, t + 1);
    ThursdaysClosedForm(first, next);
    ThursdaysClosedForm(next, t + 1);
  }

  // A day lies in one year only, so that the year above is determined.
  lemma {:induction false} YearsDoNotOverlap(y: int, y': int)
    requires y < y'
    ensures FirstDay(y + 1) <= FirstDay(y')
    decreases y' - y
  {
    if y + 1 < y' {
      YearsDoNotOverlap(y, y' - 1);
      NextFirstDay(y' - 1);
    }
  }

  // Before year 0 the remainders are never positive, and no year is taken to
  // have 53 weeks: the number is right unless a Thursday begins or ends the year.
  lemma NegativeYearsHave52Weeks(year: int)
    requires year < 0
    ensures IsoYearWeeks(year) == 52
    ensures IsoYearWeeks(year) == Thursdays(FirstDay(year), FirstDay(year + 1))
      <==> !BoundedByThursday(year)
  {
    hide YearShift, FirstDay, Thursdays, Weekday;
    LongYear(FirstDay(year), DaysIn(year));
    NextFirstDay(year);
    NegativeShift(year);
    NegativeShift(year - 1);
  }

  // 1 January of year -1 is a Friday; its week is week 53 of year -2.
  lemma YearBeforeZeroFails()
    ensures Weekday(FirstDay(-1)) == 5
    ensures var t := ThursdayOf(FirstDay(-1));
      && FirstDay(-2) <= t < FirstDay(-1) && Thursdays(FirstDay(-2), t + 1) == 53
      && IsoWeekYear(-1, 0, 5) == -2 && IsoWeekOfYear(-1, 0, 5) == 52
  {
    hide FirstDay;
    FirstDaysAroundZero();
    ThursdaysClosedForm(-1096, -731);
  }
}
