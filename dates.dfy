/** Calendar dates as the number of days since 1970-01-01 (proleptic
    Gregorian calendar), with the conversions to and from a year, a month and
    a day of the month, and the day of the week numbered Monday = 1 through
    Sunday = 7. */
module Dates {

  /** A calendar date, counted in days from 1970-01-01 (which is day 0). */
  type EpochDay = int

  type Month = m: int | 1 <= m <= 12 witness 1

  type DayOfWeek = d: int | 1 <= d <= 7 witness 1

  const JANUARY: Month := 1
  const JULY: Month := 7
  const SEPTEMBER: Month := 9

  const MONDAY: DayOfWeek := 1
  const FRIDAY: DayOfWeek := 5
  const SATURDAY: DayOfWeek := 6
  const SUNDAY: DayOfWeek := 7

  /** A year, a month and a day of the month; not necessarily a real date. */
  datatype Civil = Civil(year: int, month: int, day: int)

  predicate IsLeapYear(y: int)
  {
    y % 4 == 0 && (y % 100 != 0 || y % 400 == 0)
  }

  function DaysInMonth(y: int, m: int): int
  {
    if m == 2 then (if IsLeapYear(y) then 29 else 28)
    else if m == 4 || m == 6 || m == 9 || m == 11 then 30
    else 31
  }

  predicate ValidCivil(c: Civil)
  {
    1 <= c.month <= 12 && 1 <= c.day <= DaysInMonth(c.year, c.month)
  }

  // The conversions follow days_from_civil and civil_from_days of
  // H. Hinnant's "chrono-Compatible Low-Level Date Algorithms": days are
  // counted in 400-year eras of 146097 days, each made of March-based years
  // (year yoe of an era runs from March 1 to the end of the next February,
  // so that a leap day is always the last day of a year).

  function MarchMonth(m: int): int
  {
    if m > 2 then m - 3 else m + 9
  }

  function CivilMonth(mp: int): int
  {
    if mp < 10 then mp + 3 else mp - 9
  }

  function MarchYear(c: Civil): int
  {
    if c.month <= 2 then c.year - 1 else c.year
  }

  function MarchMonthStart(mp: int): int
  {
    (153 * mp + 2) / 5
  }

  function MarchMonthLength(mp: int, leap: bool): int
  {
    if mp == 11 then (if leap then 29 else 28)
    else if mp == 1 || mp == 3 || mp == 6 || mp == 8 then 30
    else 31
  }

  function YearStart(yoe: int): int
  {
    365 * yoe + yoe / 4 - yoe / 100
  }

  function MarchYearLength(yoe: int): int
  {
    if IsLeapYear(yoe + 1) then 366 else 365
  }

  function YearOfEra(doe: int): int
  {
    (doe - doe / 1460 + doe / 36524 - doe / 146096) / 365
  }

  function MarchMonthOfDay(doy: int): int
  {
    (5 * doy + 2) / 153
  }

  function FromEraDay(era: int, doe: int): EpochDay
  {
    era * 146097 + doe - 719468
  }

  function DaysFromCivil(c: Civil): EpochDay
  {
    var y := MarchYear(c);
    FromEraDay(y / 400, YearStart(y % 400) + MarchMonthStart(MarchMonth(c.month)) + c.day - 1)
  }

  function FromMonthDay(y: int, mp: int, d: int): Civil
  {
    var m := CivilMonth(mp);
    Civil(if m <= 2 then y + 1 else y, m, d)
  }

  function FromYearDay(y: int, doy: int): Civil
  {
    var mp := MarchMonthOfDay(doy);
    FromMonthDay(y, mp, doy - MarchMonthStart(mp) + 1)
  }

  function FromDayOfEra(era: int, doe: int): Civil
  {
    var yoe := YearOfEra(doe);
    FromYearDay(era * 400 + yoe, doe - YearStart(yoe))
  }

  function CivilFromDays(z: EpochDay): Civil
  {
    FromDayOfEra((z + 719468) / 146097, (z + 719468) % 146097)
  }

  lemma YearOfEraRecovers(yoe: int, doy: int)
    requires 0 <= yoe < 400 && 0 <= doy < MarchYearLength(yoe)
    ensures YearOfEra(YearStart(yoe) + doy) == yoe
    ensures 0 <= YearStart(yoe) + doy < 146097
  {
    var c, q, r := yoe / 100, (yoe % 100) / 4, yoe % 4;
    assert yoe == 100 * c + 4 * q + r;
    assert yoe / 4 == 25 * c + q;
    assert YearStart(yoe) == 36524 * c + 1461 * q + 365 * r;
    MarchYearLengthOf(c, q, r);
    YearOfEraOfParts(c, q, r, doy);
  }

  // YearOfEra on a day written as century, four-year cycle, year and day
  lemma YearOfEraOfParts(c: int, q: int, r: int, doy: int)
    requires 0 <= c <= 3 && 0 <= q <= 24 && 0 <= r <= 3
    requires 0 <= doy < (if r == 3 && (q < 24 || c == 3) then 366 else 365)
    ensures YearOfEra(36524 * c + 1461 * q + 365 * r + doy) == 100 * c + 4 * q + r
    ensures 0 <= 36524 * c + 1461 * q + 365 * r + doy < 146097
  {
    var doe := 36524 * c + 1461 * q + 365 * r + doy;
    var k := if r == 3 && doy >= 365 - 24 * c - q then 1 else 0;
    var edge := if doe == 146096 then 1 else 0;
    assert doe / 1460 == 25 * c + q + k by {
      assert doe == 1460 * (25 * c + q) + (24 * c + q + 365 * r + doy);
    }
    assert doe / 36524 == c + edge;
    assert doe / 146096 == edge;
    assert doe - doe / 1460 + doe / 36524 - doe / 146096 == 36500 * c + 1460 * q + 365 * r + doy - k - edge + edge;
  }

  lemma MarchYearLengthOf(c: int, q: int, r: int)
    requires 0 <= c <= 3 && 0 <= q <= 24 && 0 <= r <= 3
    ensures MarchYearLength(100 * c + 4 * q + r) ==
      if r == 3 && (q < 24 || c == 3) then 366 else 365
  {
    var n := 100 * c + 4 * q + r + 1;
    assert n % 4 == 0 <==> r == 3;
    assert r == 3 ==> (n % 100 == 0 <==> q == 24);
    assert r == 3 && q == 24 ==> (n % 400 == 0 <==> c == 3);
  }

  lemma YearOfEraBounds(doe: int)
    requires 0 <= doe < 146097
    ensures 0 <= YearOfEra(doe) < 400
    ensures 0 <= doe - YearStart(YearOfEra(doe)) < MarchYearLength(YearOfEra(doe))
  {
    var c := if doe / 36524 < 3 then doe / 36524 else 3;
    var e := doe - 36524 * c;
    var q := e / 1461;
    var f := e - 1461 * q;
    var r := if f / 365 < 3 then f / 365 else 3;
    var doy := f - 365 * r;
    assert 0 <= c <= 3 && 0 <= e <= 36524;
    assert 0 <= q <= 24 && 0 <= f <= 1460;
    assert 0 <= r <= 3 && 0 <= doy;
    var yoe := 100 * c + 4 * q + r;
    assert yoe / 4 == 25 * c + q;
    assert yoe / 100 == c;
    assert YearStart(yoe) == 36524 * c + 1461 * q + 365 * r;
    MarchYearLengthOf(c, q, r);
    assert doy < MarchYearLength(yoe);
    YearOfEraRecovers(yoe, doy);
  }

  lemma MarchMonthOfDayRecovers(mp: int, d: int, leap: bool)
    requires 0 <= mp < 12
    requires 1 <= d <= MarchMonthLength(mp, leap)
    ensures MarchMonthOfDay(MarchMonthStart(mp) + d - 1) == mp
  {
  }

  lemma MarchMonthOfDayBounds(doy: int, leap: bool)
    requires 0 <= doy < (if leap then 366 else 365)
    ensures 0 <= MarchMonthOfDay(doy) < 12
    ensures 1 <= doy - MarchMonthStart(MarchMonthOfDay(doy)) + 1 <= MarchMonthLength(MarchMonthOfDay(doy), leap)
  {
  }

  lemma MarchMonthLengthIsDaysInMonth(mp: int, year: int)
    requires 0 <= mp < 12
    ensures MarchMonthLength(mp, IsLeapYear(year)) == DaysInMonth(year, CivilMonth(mp))
  {
  }

  lemma ShiftMod4(n: int, k: int)
    ensures (4 * k + n) % 4 == n % 4
  {
  }

  lemma ShiftMod100(n: int, k: int)
    ensures (100 * k + n) % 100 == n % 100
  {
  }

  lemma ShiftMod400(n: int, k: int)
    ensures (400 * k + n) % 400 == n % 400
  {
  }

  lemma LeapYearPeriodic(era: int, n: int)
    ensures IsLeapYear(era * 400 + n) == IsLeapYear(n)
  {
    var y := era * 400 + n;
    ShiftMod4(n, 100 * era);
    ShiftMod100(n, 4 * era);
    ShiftMod400(n, era);
  }

  lemma EraSplit(era: int, doe: int)
    requires 0 <= doe < 146097
    ensures (FromEraDay(era, doe) + 719468) / 146097 == era
    ensures (FromEraDay(era, doe) + 719468) % 146097 == doe
  {
  }

  // The March-based year-of-era and day-of-year of a valid date are in range.
  lemma MarchFieldsInRange(c: Civil)
    requires ValidCivil(c)
    ensures 0 <= MarchYear(c) % 400 < 400
    ensures CivilMonth(MarchMonth(c.month)) == c.month
    ensures MarchMonthOfDay(MarchMonthStart(MarchMonth(c.month)) + c.day - 1) == MarchMonth(c.month)
    ensures 0 <= MarchMonthStart(MarchMonth(c.month)) + c.day - 1 < MarchYearLength(MarchYear(c) % 400)
  {
    var y := MarchYear(c);
    var era, yoe := y / 400, y % 400;
    var mp := MarchMonth(c.month);
    LeapYearPeriodic(era, yoe + 1);
    assert c.month <= 2 ==> c.year == era * 400 + yoe + 1;
    MarchMonthLengthIsDaysInMonth(mp, c.year);
    MarchMonthOfDayRecovers(mp, c.day, IsLeapYear(c.year));
  }

  lemma CivilRoundTrip(c: Civil)
    requires ValidCivil(c)
    ensures CivilFromDays(DaysFromCivil(c)) == c
  {
    var y := MarchYear(c);
    var era, yoe := y / 400, y % 400;
    var mp := MarchMonth(c.month);
    var doy := MarchMonthStart(mp) + c.day - 1;
    MarchFieldsInRange(c);
    YearOfEraRecovers(yoe, doy);
    var doe := YearStart(yoe) + doy;
    EraSplit(era, doe);
    assert DaysFromCivil(c) == FromEraDay(era, doe);
    assert CivilFromDays(DaysFromCivil(c)) == FromDayOfEra(era, doe);
    assert era * 400 + yoe == y;
    assert FromDayOfEra(era, doe) == FromYearDay(y, doy);
    assert FromYearDay(y, doy) == FromMonthDay(y, mp, c.day);
  }

  lemma DaysRoundTrip(z: EpochDay)
    ensures ValidCivil(CivilFromDays(z))
    ensures DaysFromCivil(CivilFromDays(z)) == z
  {
    var era, doe := (z + 719468) / 146097, (z + 719468) % 146097;
    YearOfEraBounds(doe);
    var yoe := YearOfEra(doe);
    var doy := doe - YearStart(yoe);
    var mp := MarchMonthOfDay(doy);
    var d := doy - MarchMonthStart(mp) + 1;
    LeapYearPeriodic(era, yoe + 1);
    MarchMonthOfDayBounds(doy, IsLeapYear(yoe + 1));
    var y := era * 400 + yoe;
    var c := FromMonthDay(y, mp, d);
    assert CivilFromDays(z) == c;
    MarchMonthLengthIsDaysInMonth(mp, c.year);
    assert c.month == 2 ==> c.year == era * 400 + yoe + 1;
    assert ValidCivil(c);
    assert MarchYear(c) == y;
    assert y / 400 == era && y % 400 == yoe;
    assert MarchMonth(c.month) == mp;
    assert DaysFromCivil(c) == FromEraDay(era, YearStart(yoe) + doy);
  }

  /** The date of a year, month and day, as LocalDate.of builds it; the
      Java method throws on a day that does not exist, which here is a
      precondition. */
  function LocalDateOf(year: int, month: int, day: int): EpochDay
    requires ValidCivil(Civil(year, month, day))
  {
    DaysFromCivil(Civil(year, month, day))
  }

  /** LocalDateOf builds the date whose fields are the ones given. */
  lemma LocalDateOfFields(date: EpochDay, year: int, month: int, day: int)
    requires ValidCivil(Civil(year, month, day)) && date == LocalDateOf(year, month, day)
    ensures YearOf(date) == year && MonthOf(date) == month && DayOfMonthOf(date) == day
  {
    CivilRoundTrip(Civil(year, month, day));
  }

  function YearOf(date: EpochDay): int
  {
    CivilFromDays(date).year
  }

  function MonthOf(date: EpochDay): Month
  {
    DaysRoundTrip(date);
    CivilFromDays(date).month
  }

  function DayOfMonthOf(date: EpochDay): int
  {
    CivilFromDays(date).day
  }

  /** Day 0, 1970-01-01, was a Thursday. */
  function DayOfWeekOf(date: EpochDay): DayOfWeek
  {
    (date + 3) % 7 + 1
  }

  /** Every date is the date of its own year, month and day. */
  lemma DateOfItsFields(date: EpochDay)
    ensures ValidCivil(Civil(YearOf(date), MonthOf(date), DayOfMonthOf(date)))
    ensures LocalDateOf(YearOf(date), MonthOf(date), DayOfMonthOf(date)) == date
  {
    DaysRoundTrip(date);
  }

  /** Within one month the dates are consecutive days. */
  lemma LaterInMonth(year: int, month: int, day: int, k: int)
    requires ValidCivil(Civil(year, month, day)) && ValidCivil(Civil(year, month, day + k))
    ensures LocalDateOf(year, month, day + k) == LocalDateOf(year, month, day) + k
  {
  }

  /** The days of the week follow each other, Sunday before Monday. */
  lemma DayOfWeekSucceeds(date: EpochDay)
    ensures DayOfWeekOf(date + 1) == if DayOfWeekOf(date) == SUNDAY then MONDAY else DayOfWeekOf(date) + 1
    ensures DayOfWeekOf(date + 7) == DayOfWeekOf(date)
  {
  }

  /** The dates of a month are exactly the DaysInMonth days from its 1st. */
  lemma InMonthIff(year: int, month: Month, k: int)
    ensures var date := LocalDateOf(year, month, 1) + k;
      YearOf(date) == year && MonthOf(date) == month <==> 0 <= k < DaysInMonth(year, month)
  {
    var date := LocalDateOf(year, month, 1) + k;
    if YearOf(date) == year && MonthOf(date) == month {
      DateInMonthIsDayInMonth(year, month, k);
    }
    if 0 <= k < DaysInMonth(year, month) {
      DayInMonthIsInMonth(year, month, k);
    }
  }

  lemma DayInMonthIsInMonth(year: int, month: Month, k: int)
    requires 0 <= k < DaysInMonth(year, month)
    ensures YearOf(LocalDateOf(year, month, 1) + k) == year
    ensures MonthOf(LocalDateOf(year, month, 1) + k) == month
  {
    var date := LocalDateOf(year, month, 1) + k;
    LaterInMonth(year, month, 1, k);
    LocalDateOfFields(date, year, month, 1 + k);
  }

  lemma DateInMonthIsDayInMonth(year: int, month: Month, k: int)
    requires YearOf(LocalDateOf(year, month, 1) + k) == year
    requires MonthOf(LocalDateOf(year, month, 1) + k) == month
    ensures 0 <= k < DaysInMonth(year, month)
  {
    var date := LocalDateOf(year, month, 1) + k;
    DateOfItsFields(date);
    DayFromFirst(year, month, DayOfMonthOf(date));
  }

  lemma DayFromFirst(year: int, month: Month, day: int)
    requires ValidCivil(Civil(year, month, day))
    ensures 0 <= day - 1 < DaysInMonth(year, month)
    ensures LocalDateOf(year, month, day) == LocalDateOf(year, month, 1) + (day - 1)
  {
    LaterInMonth(year, month, 1, day - 1);
  }

  /** The day number of a date from March on, written out: the era's first
      day, the March-based year's first day, the month's first day and the
      day. */
  lemma LocalDateOfFromMarch(year: int, month: int, day: int, date: EpochDay)
    requires 3 <= month <= 12 && 1 <= day <= DaysInMonth(year, month)
    requires date == (year / 400) * 146097 + YearStart(year % 400) + (153 * (month - 3) + 2) / 5 + day - 1 - 719468
    ensures LocalDateOf(year, month, day) == date
  {
  }

  /** The same for January and February, which belong to the March-based
      year before. */
  lemma LocalDateOfBeforeMarch(year: int, month: int, day: int, date: EpochDay)
    requires 1 <= month <= 2 && 1 <= day <= DaysInMonth(year, month)
    requires date == ((year - 1) / 400) * 146097 + YearStart((year - 1) % 400) + (153 * (month + 9) + 2) / 5 + day - 1 - 719468
    ensures LocalDateOf(year, month, day) == date
  {
  }
  /** The year of the next day is the same year or the next one. */
  lemma NextDayYear(date: EpochDay)
    ensures YearOf(date + 1) == YearOf(date) || YearOf(date + 1) == YearOf(date) + 1
  {
    DateOfItsFields(date);
    var year, month, day := NextDay(YearOf(date), MonthOf(date), DayOfMonthOf(date));
    LocalDateOfFields(date + 1, year, month, day);
  }

  /** A later date is never in an earlier year. */
  lemma {:induction false} YearOfMonotone(earlier: EpochDay, later: EpochDay)
    requires earlier <= later
    ensures YearOf(earlier) <= YearOf(later)
    decreases later - earlier
  {
    if earlier < later {
      YearOfMonotone(earlier, later - 1);
      NextDayYear(later - 1);
    }
  }

  /** The same, for all pairs of dates at once. */
  lemma YearOfIsMonotone()
    ensures forall earlier: EpochDay, later: EpochDay :: earlier <= later ==> YearOf(earlier) <= YearOf(later)
  {
    forall earlier: EpochDay, later: EpochDay | earlier <= later
      ensures YearOf(earlier) <= YearOf(later)
    {
      YearOfMonotone(earlier, later);
    }
  }

  /** The fields of the day after a date: the next day of the month, the 1st
      of the next month, or January 1 of the next year. */
  lemma NextDay(year: int, month: int, day: int) returns (year': int, month': int, day': int)
    requires ValidCivil(Civil(year, month, day))
    ensures ValidCivil(Civil(year', month', day'))
    ensures LocalDateOf(year', month', day') == LocalDateOf(year, month, day) + 1
    ensures year' == year || (year' == year + 1 && month == 12 && day == 31)
  {
    if day < DaysInMonth(year, month) {
      year', month', day' := year, month, day + 1;
      LaterInMonth(year, month, day, 1);
    } else if month == 2 {
      year', month', day' := year, 3, 1;
      EndOfFebruary(year);
    } else if month < 12 {
      year', month', day' := year, month + 1, 1;
      EndOfMonth(year, month);
    } else {
      year', month', day' := year + 1, 1, 1;
      NextYear(year);
    }
  }

  /** The day after the last of February is March 1. */
  lemma EndOfFebruary(year: int)
    ensures LocalDateOf(year, 2, DaysInMonth(year, 2)) + 1 == LocalDateOf(year, 3, 1)
  {
    var y := year - 1;
    var last := DaysInMonth(year, 2);
    LocalDateOfBeforeMarch(year, 2, last, FromEraDay(y / 400, YearStart(y % 400)) + 337 + last - 1);
    LocalDateOfFromMarch(year, 3, 1, FromEraDay(year / 400, YearStart(year % 400)));
    MarchYearStep(y);
    MarchYearLengthOfYear(y);
  }

  /** The length of a March-based year depends on whether the calendar year
      it ends in is a leap year. */
  lemma MarchYearLengthOfYear(y: int)
    ensures MarchYearLength(y % 400) == if IsLeapYear(y + 1) then 366 else 365
  {
    LeapYearPeriodic(y / 400, y % 400 + 1);
    assert y / 400 * 400 + (y % 400 + 1) == y + 1;
  }

  /** The day after the last of any other month before December is the 1st
      of the next month. */
  lemma EndOfMonth(year: int, month: int)
    requires 1 <= month < 12 && month != 2
    ensures LocalDateOf(year, month, DaysInMonth(year, month)) + 1 == LocalDateOf(year, month + 1, 1)
  {
    var last := DaysInMonth(year, month);
    if month == 1 {
      LocalDateOfBeforeMarch(year, 1, 31, ((year - 1) / 400) * 146097 + YearStart((year - 1) % 400) + 306 + 30 - 719468);
      LocalDateOfBeforeMarch(year, 2, 1, ((year - 1) / 400) * 146097 + YearStart((year - 1) % 400) + 337 - 719468);
    } else {
      var base := (year / 400) * 146097 + YearStart(year % 400) - 719468;
      MonthStartStep(month - 3);
      LocalDateOfFromMarch(year, month, last, base + (153 * (month - 3) + 2) / 5 + last - 1);
      LocalDateOfFromMarch(year, month + 1, 1, base + (153 * (month - 2) + 2) / 5);
    }
  }

  /** Between March and December each month starts where the one before it
      ends. */
  lemma MonthStartStep(mp: int)
    requires 0 <= mp < 9
    ensures (153 * (mp + 1) + 2) / 5 == (153 * mp + 2) / 5 + (if mp == 1 || mp == 3 || mp == 6 || mp == 8 then 30 else 31)
  {
  }

  /** The day after December 31 is January 1 of the next year. */
  lemma NextYear(year: int)
    ensures LocalDateOf(year, 12, 31) + 1 == LocalDateOf(year + 1, 1, 1)
  {
  }

  /** A March-based year is followed directly by the next one, across an
      era boundary too. */
  lemma MarchYearStep(y: int)
    ensures FromEraDay(y / 400, YearStart(y % 400)) + MarchYearLength(y % 400) ==
      FromEraDay((y + 1) / 400, YearStart((y + 1) % 400))
  {
    var era, yoe := y / 400, y % 400;
    assert y == 400 * era + yoe;
    if yoe < 399 {
      assert (y + 1) / 400 == era && (y + 1) % 400 == yoe + 1;
      YearStartStep(yoe);
    } else {
      assert (y + 1) / 400 == era + 1 && (y + 1) % 400 == 0;
    }
  }

  lemma YearStartStep(yoe: int)
    requires 0 <= yoe < 399
    ensures YearStart(yoe + 1) == YearStart(yoe) + MarchYearLength(yoe)
  {
    var q4, r4 := yoe / 4, yoe % 4;
    var q100, r100 := yoe / 100, yoe % 100;
    assert yoe == 4 * q4 + r4 && yoe == 100 * q100 + r100;
    if r4 == 3 {
      assert (yoe + 1) / 4 == q4 + 1 && (yoe + 1) % 4 == 0;
    } else {
      assert (yoe + 1) / 4 == q4 && (yoe + 1) % 4 != 0;
    }
    if r100 == 99 {
      assert (yoe + 1) / 100 == q100 + 1 && (yoe + 1) % 100 == 0;
    } else {
      assert (yoe + 1) / 100 == q100 && (yoe + 1) % 100 != 0;
    }
  }
}
