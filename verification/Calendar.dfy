/**
 The proleptic Gregorian calendar as ECMAScript dates compute it in UTC: an instant is a number of
 milliseconds since 1 January 1970. Months are numbered through, month 12 * y + m being month m
 (0 to 11) of year y; a year and month read off a date and given back are this one number.
 */
module Calendar {

  import opened Entities

  const DAY_MS: int := 86_400_000

  function Day(t: Time): int { t / 86_400_000 }

  function TimeInDay(t: Time): (r: int)
    ensures 0 <= r < DAY_MS
  {
    t % 86_400_000
  }

  function At(day: int, time: int): Time { day * 86_400_000 + time }

  lemma DayAt(day: int, time: int)
    requires 0 <= time < DAY_MS
    ensures Day(At(day, time)) == day && TimeInDay(At(day, time)) == time
  {}

  lemma AtDay(t: Time)
    ensures At(Day(t), TimeInDay(t)) == t
  {}

  /** 0 is Sunday; 1 January 1970 was a Thursday. */
  function Weekday(day: int): (w: int)
    ensures 0 <= w <= 6
  {
    (day + 4) % 7
  }

  /** Weeks start on Sunday and are numbered through. */
  function Week(day: int): int { (day + 4) / 7 }

  predicate Leap(y: int) { y % 4 == 0 && (y % 100 != 0 || y % 400 == 0) }

  function MonthLength(month: int): (n: int)
    ensures 28 <= n <= 31
  {
    var m := month % 12;
    if m == 1 then (if Leap(month / 12) then 29 else 28)
    else if m == 3 || m == 5 || m == 8 || m == 10 then 30
    else 31
  }

  /** The day number of the first of a month: months laid end to end from January 1970. */
  function MonthStart(month: int): int
    decreases if month >= 23640 then month - 23640 else 23640 - month
  {
    if month == 23640 then 0
    else if month > 23640 then MonthStart(month - 1) + MonthLength(month - 1)
    else MonthStart(month + 1) - MonthLength(month)
  }

  lemma MonthStep(month: int)
    ensures MonthStart(month + 1) == MonthStart(month) + MonthLength(month)
  {}

  lemma StepInYear(y: int, m: int)
    requires 0 <= m < 12
    ensures MonthStart(12 * y + m + 1) == MonthStart(12 * y + m) +
            if m == 1 then (if Leap(y) then 29 else 28) else if m == 3 || m == 5 || m == 8 || m == 10 then 30 else 31
  {
    hide MonthStart;
    MonthStep(12 * y + m);
    assert (12 * y + m) % 12 == m && (12 * y + m) / 12 == y;
  }

  /** Twelve months make a common year or a leap year. */
  lemma YearLength(y: int)
    ensures MonthStart(12 * y + 12) == MonthStart(12 * y) + if Leap(y) then 366 else 365
  {
    hide MonthStart, Leap;
    StepInYear(y, 0);
    StepInYear(y, 1);
    StepInYear(y, 2);
    StepInYear(y, 3);
    StepInYear(y, 4);
    StepInYear(y, 5);
    StepInYear(y, 6);
    StepInYear(y, 7);
    StepInYear(y, 8);
    StepInYear(y, 9);
    StepInYear(y, 10);
    StepInYear(y, 11);
  }

  lemma {:induction false} MonthsApart(a: int, b: int)
    requires a <= b
    ensures MonthStart(a) + 28 * (b - a) <= MonthStart(b)
    decreases b - a
  {
    if a < b {
      MonthsApart(a, b - 1);
      MonthStep(b - 1);
    }
  }

  function FindMonth(day: int, month: int): (r: int)
    ensures MonthStart(r) <= day < MonthStart(r) + MonthLength(r)
    decreases if MonthStart(month) > day then MonthStart(month) - day else 0,
              if MonthStart(month) + MonthLength(month) <= day then day - MonthStart(month) else 0
  {
    if MonthStart(month) > day then
      MonthStep(month - 1);
      FindMonth(day, month - 1)
    else if MonthStart(month) + MonthLength(month) <= day then
      MonthStep(month);
      FindMonth(day, month + 1)
    else month
  }

  /** The month a day falls in. */
  function MonthOf(day: int): (r: int)
    ensures MonthStart(r) <= day < MonthStart(r) + MonthLength(r)
  {
    FindMonth(day, 23640)
  }

  lemma MonthOfIs(day: int, month: int)
    requires MonthStart(month) <= day < MonthStart(month) + MonthLength(month)
    ensures MonthOf(day) == month
  {
    var r := MonthOf(day);
    if r < month {
      MonthsApart(r + 1, month);
      MonthStep(r);
    } else if month < r {
      MonthsApart(month + 1, r);
      MonthStep(month);
    }
  }

  function DayOfMonth(day: int): (d: int)
    ensures 1 <= d <= 31
  {
    day - MonthStart(MonthOf(day)) + 1
  }

  /** The day number of a date in this month; the date may lie outside the month. */
  function MakeDay(month: int, date: int): int {
    MonthStart(month) + date - 1
  }

  /** Years 0 to 99. */
  predicate TwoDigitYear(month: int) { 0 <= month < 1200 }

  /** Date.UTC reads a year from 0 to 99 as 1900 to 1999. */
  function UtcMonth(month: int): int {
    if TwoDigitYear(month) then month + 22_800 else month
  }

  /** Date.UTC of this month's year and month, with months more added to the latter. */
  function DateUtc(month: int, months: int, date: int): Time {
    At(MakeDay(UtcMonth(month) + months, date), 0)
  }

  function SetUtcDate(t: Time, date: int): Time {
    At(MakeDay(MonthOf(Day(t)), date), TimeInDay(t))
  }

  /** setUTCMonth of the date's own month and months more. */
  function AddUtcMonths(t: Time, months: int): Time {
    At(MakeDay(MonthOf(Day(t)) + months, DayOfMonth(Day(t))), TimeInDay(t))
  }

  /** A date built from a month and a day within it reads back as that month and day. */
  lemma MakeDayReads(month: int, date: int)
    requires 1 <= date <= MonthLength(month)
    ensures MonthOf(MakeDay(month, date)) == month && DayOfMonth(MakeDay(month, date)) == date
  {
    MonthOfIs(MakeDay(month, date), month);
  }

  lemma DayReads(day: int)
    ensures MakeDay(MonthOf(day), DayOfMonth(day)) == day && DayOfMonth(day) <= MonthLength(MonthOf(day))
  {}

  /** Leap years before y: every fourth, but for centuries not divisible by 400. */
  function LeapYears(y: int): int { (y + 3) / 4 - (y + 99) / 100 + (y + 399) / 400 }

  lemma LeapStep(y: int)
    ensures LeapYears(y + 1) == LeapYears(y) + if Leap(y) then 1 else 0
  {
    Quarters(y);
    Centuries(y);
    CenturiesAreQuarters(y);
    FourCenturies(y);
  }

  lemma Quarters(y: int)
    ensures (y + 1 + 3) / 4 == (y + 3) / 4 + if y % 4 == 0 then 1 else 0
  {}

  lemma DivideBy100(x: int, q: int, r: int)
    requires x == 100 * q + r && 0 <= r < 100
    ensures x / 100 == q && x % 100 == r
  {}

  lemma DivideBy400(x: int, q: int, r: int)
    requires x == 400 * q + r && 0 <= r < 400
    ensures x / 400 == q && x % 400 == r
  {}

  lemma Centuries(y: int)
    ensures (y + 1 + 99) / 100 == (y + 99) / 100 + if y % 100 == 0 then 1 else 0
  {
    var q, r := y / 100, y % 100;
    DivideBy100(y + 100, q + 1, r);
    if r == 0 { DivideBy100(y + 99, q, 99); } else { DivideBy100(y + 99, q + 1, r - 1); }
  }

  lemma CenturiesAreQuarters(y: int)
    ensures y % 100 == 0 ==> y % 4 == 0
  {
    if y % 100 == 0 {
      var q := y / 100;
      assert y == 4 * (25 * q);
    }
  }

  lemma FourCenturies(y: int)
    ensures (y + 1 + 399) / 400 == (y + 399) / 400 + if y % 400 == 0 then 1 else 0
    ensures y % 400 == 0 ==> y % 100 == 0
  {
    var q, r := y / 400, y % 400;
    DivideBy400(y + 400, q + 1, r);
    if r == 0 {
      DivideBy400(y + 399, q, 399);
      DivideBy100(y, 4 * q, 0);
    } else {
      DivideBy400(y + 399, q + 1, r - 1);
    }
  }

  lemma {:induction false} YearStart(y: int)
    ensures MonthStart(12 * y) == 365 * y + LeapYears(y) - 719_528
    decreases if y >= 1970 then y - 1970 else 1970 - y
  {
    hide MonthStart, LeapYears, Leap;
    if y == 1970 {
      Epoch();
    } else if y > 1970 {
      YearStart(y - 1);
      YearLength(y - 1);
      LeapStep(y - 1);
    } else {
      YearStart(y + 1);
      YearLength(y);
      LeapStep(y);
    }
  }

  lemma Epoch()
    ensures MonthStart(23640) == 0 && LeapYears(1970) == 478
  {}

  /** The day numbers of the firsts of a year's months. */
  function Firsts(y: int): seq<int> {
    [MonthStart(12 * y), MonthStart(12 * y + 1), MonthStart(12 * y + 2), MonthStart(12 * y + 3),
     MonthStart(12 * y + 4), MonthStart(12 * y + 5), MonthStart(12 * y + 6), MonthStart(12 * y + 7),
     MonthStart(12 * y + 8), MonthStart(12 * y + 9), MonthStart(12 * y + 10), MonthStart(12 * y + 11)]
  }

  /** Dates everybody knows: the months of 2023 and of 2024, a leap year, by their days since 1 January 1970. */
  lemma KnownMonths()
    ensures Firsts(2023) == [19_358, 19_389, 19_417, 19_448, 19_478, 19_509,
                             19_539, 19_570, 19_601, 19_631, 19_662, 19_692]
    ensures Firsts(2024) == [19_723, 19_754, 19_783, 19_814, 19_844, 19_875,
                             19_905, 19_936, 19_967, 19_997, 20_028, 20_058]
  {
    TwelveMonths(2023);
    TwelveMonths(2024);
    hide MonthStart, LeapYears;
    YearStart(2023);
    YearStart(2024);
    KnownLeapYears();
  }

  /** 1970 began on a Thursday, 2024 on a Monday, Sunday being 0; 1900 was no leap year and 2000 was one. */
  lemma KnownDays()
    ensures Weekday(0) == 4 && Weekday(19_723) == 1
    ensures MonthLength(12 * 1900 + 1) == 28 && MonthLength(12 * 2000 + 1) == 29
  {}

  /** Date.UTC(50, 0, 1) is 1 January 1950, and Date.UTC(100, 0, 1) is in the year 100. */
  lemma KnownUtc()
    ensures DateUtc(12 * 50, 0, 1) == -7_305 * 86_400_000 && MonthOf(Day(DateUtc(1200, 0, 1))) == 1200
  {
    hide MonthStart, MonthOf, LeapYears;
    YearStart(1950);
    KnownLeapYears();
    DayAt(MonthStart(1200), 0);
    MakeDayReads(1200, 1);
  }

  /** Date.UTC takes the years 0 to 99, and no others, for those from 1900 to 1999. */
  lemma UtcYears(month: int)
    ensures MonthOf(Day(DateUtc(month, 0, 1))) == if 0 <= month / 12 <= 99 then month + 12 * 1900 else month
  {
    hide MonthStart, MonthOf;
    var read := if 0 <= month / 12 <= 99 then month + 12 * 1900 else month;
    DayAt(MonthStart(read), 0);
    MakeDayReads(read, 1);
  }

  lemma KnownLeapYears()
    ensures LeapYears(2023) == 491 && LeapYears(2024) == 491 && LeapYears(1950) == 473
  {}

  lemma TwelveMonths(y: int)
    ensures var s, l := MonthStart(12 * y), if Leap(y) then 1 else 0;
            && MonthStart(12 * y + 1) == s + 31 && MonthStart(12 * y + 2) == s + 59 + l
            && MonthStart(12 * y + 3) == s + 90 + l && MonthStart(12 * y + 4) == s + 120 + l
            && MonthStart(12 * y + 5) == s + 151 + l && MonthStart(12 * y + 6) == s + 181 + l
            && MonthStart(12 * y + 7) == s + 212 + l && MonthStart(12 * y + 8) == s + 243 + l
            && MonthStart(12 * y + 9) == s + 273 + l && MonthStart(12 * y + 10) == s + 304 + l
            && MonthStart(12 * y + 11) == s + 334 + l
  {
    hide MonthStart, Leap;
    StepInYear(y, 0);
    StepInYear(y, 1);
    StepInYear(y, 2);
    StepInYear(y, 3);
    StepInYear(y, 4);
    StepInYear(y, 5);
    StepInYear(y, 6);
    StepInYear(y, 7);
    StepInYear(y, 8);
    StepInYear(y, 9);
    StepInYear(y, 10);
  }

  /** The calendar repeats every 400 years. */
  lemma {:induction false} FourHundredYears(month: int)
    ensures MonthStart(month + 4800) == MonthStart(month) + 146_097
    decreases if month >= 23640 then month - 23640 else 23640 - month
  {
    hide MonthStart, MonthLength, LeapYears;
    if month == 23640 {
      YearStart(1970);
      YearStart(2370);
      LeapYearsIn400();
    } else if month > 23640 {
      FourHundredYears(month - 1);
      MonthStep(month - 1);
      MonthStep(month + 4799);
      SameLength(month - 1);
    } else {
      FourHundredYears(month + 1);
      MonthStep(month);
      MonthStep(month + 4800);
      SameLength(month);
    }
  }

  lemma LeapYearsIn400()
    ensures LeapYears(2370) == LeapYears(1970) + 97
  {}

  lemma SameLength(month: int)
    ensures MonthLength(month + 4800) == MonthLength(month)
  {
    hide Leap;
    var y, m := month / 12, month % 12;
    assert month + 4800 == 12 * (y + 400) + m;
    assert (month + 4800) / 12 == y + 400 && (month + 4800) % 12 == m;
    LeapIn400(y);
  }

  lemma LeapIn400(y: int)
    ensures Leap(y + 400) <==> Leap(y)
  {
    DivideBy100(y + 400, y / 100 + 4, y % 100);
    DivideBy400(y + 400, y / 400 + 1, y % 400);
    assert (y + 400) % 4 == y % 4;
  }

  /** Within years 0 to 99 and 1900 to 1999 months start alike, but for the leap day of year 0. */
  lemma {:induction false} MonthsAlike(y: int, m: int)
    requires 0 <= y <= 99 && 0 <= m <= 11
    ensures MonthStart(12 * (y + 1900) + m) - MonthStart(12 * (y + 1900)) ==
            MonthStart(12 * y + m) - MonthStart(12 * y) - if y == 0 && m >= 2 then 1 else 0
    decreases m
  {
    hide MonthStart, Leap;
    if m > 0 {
      MonthsAlike(y, m - 1);
      StepInYear(y, m - 1);
      StepInYear(y + 1900, m - 1);
      LeapAlike(y);
    }
  }

  lemma LeapAlike(y: int)
    requires 0 <= y <= 99
    ensures Leap(y + 1900) <==> Leap(y) && y != 0
    ensures Leap(0)
  {}

  /** Reading a year from 0 to 99 as one from 1900 to 1999 never moves by whole weeks. */
  lemma NineteenCenturies(month: int)
    requires TwoDigitYear(month)
    ensures MonthStart(month + 22_800) - MonthStart(month) in {693_960, 693_961}
  {
    hide MonthStart, LeapYears;
    var y, m := month / 12, month % 12;
    assert month == 12 * y + m && month + 22_800 == 12 * (y + 1900) + m;
    YearStart(y);
    YearStart(y + 1900);
    MonthsAlike(y, m);
    LeapYearsBetween(y);
  }

  lemma LeapYearsBetween(y: int)
    requires 0 <= y <= 99
    ensures LeapYears(y + 1900) - LeapYears(y) == if y == 0 then 461 else 460
  {
    assert (y + 1903) / 4 == (y + 3) / 4 + 475;
    assert (y + 1999) / 100 == (y + 99) / 100 + 19;
    assert (y + 2299) / 400 == 5 && (y + 399) / 400 == if y == 0 then 0 else 1;
  }

  /** Rebuilding midnight from year, month and day through Date.UTC is exact except in years 0 to 99. */
  lemma MidnightThroughDateUtc(day: int)
    ensures DateUtc(MonthOf(day), 0, DayOfMonth(day)) == At(day, 0) <==> !TwoDigitYear(MonthOf(day))
  {
    hide MonthStart, FindMonth, MonthLength, MonthOf;
    DayReads(day);
    MonthsApart(MonthOf(day), MonthOf(day) + 22_800);
  }
}
