/**
 Calendar dates in the business timezone. A zone is any function from instants to its offset from UTC;
 an instant's wall clock is written as the UTC instant that reads the same. The two-step conversion
 from a wall clock to an instant is shown right exactly when such an instant exists, for any zone whose
 offset changes at most once within a day either side.
 */
module BusinessTime {
  import opened Wrappers
  import opened Entities
  import opened Calendar

  /** Milliseconds east of UTC. */
  type Zone = Time -> int

  /** Offsets under a day, in whole seconds. */
  ghost predicate RealZone(z: Zone) {
    forall t :: -DAY_MS < z(t) < DAY_MS && z(t) % 1000 == 0
  }

  /** A date on a calendar, its year and month numbered through. */
  datatype CalendarDate = CalendarDate(month: int, day: int)

  predicate RealDate(d: CalendarDate) { 1 <= d.day <= MonthLength(d.month) }

  /** A date as written: a typed one has its year in four digits, a computed one is printed without leading zeros. */
  datatype DateText = DateText(date: CalendarDate, padded: bool)

  /** Only a year of four digits reads as an ISO date. */
  predicate Readable(d: DateText) { (if d.padded then 0 else 12_000) <= d.date.month < 120_000 }

  /** The same of a date printed by the code. */
  predicate FourDigitYear(d: CalendarDate) { Readable(DateText(d, false)) }

  function YearOf(d: CalendarDate): int { d.month / 12 }

  /** A date typed in four digits reads from the year 0 to the year 9999, a printed one from the year 1000. */
  lemma YearsRead(d: CalendarDate)
    ensures Readable(DateText(d, true)) <==> 0 <= YearOf(d) <= 9999
    ensures FourDigitYear(d) <==> 1000 <= YearOf(d) <= 9999
  {}

  function DayNumber(d: CalendarDate): int { MakeDay(d.month, d.day) }

  function DateOf(day: int): CalendarDate { CalendarDate(MonthOf(day), DayOfMonth(day)) }

  /** Dates and day numbers are the same thing. */
  lemma DayIsADate(day: int)
    ensures RealDate(DateOf(day)) && DayNumber(DateOf(day)) == day
  {}

  lemma DateIsADay(d: CalendarDate)
    requires RealDate(d)
    ensures DateOf(DayNumber(d)) == d
  {
    MakeDayReads(d.month, d.day);
  }

  // ----- Calendar arithmetic -----

  /** That many days on, counted from the date as Date.UTC reads it. */
  function AddCalendarDays(d: CalendarDate, days: int): CalendarDate {
    DateOf(MakeDay(UtcMonth(d.month), d.day) + days)
  }

  /** The source's edit of a local date. */
  method ShiftDate(date: CalendarDate, days: int) returns (r: CalendarDate)
    ensures r == AddCalendarDays(date, days)
  {
    hide MonthStart, FindMonth, MonthLength, MonthOf, UtcMonth, Day, At, TimeInDay, DayOfMonth;
    var shifted := DateUtc(date.month, 0, date.day);
    ghost var day := MakeDay(UtcMonth(date.month), date.day);
    DayAt(day, 0);
    DayReads(day);
    shifted := SetUtcDate(shifted, DayOfMonth(Day(shifted)) + days);
    DayAt(day + days, 0);
    r := DateOf(Day(shifted));
  }

  /** Exactly that many days on, except in years 0 to 99, which are taken for 1900 to 1999. */
  lemma AddsExactlyThatManyDays(d: CalendarDate, days: int)
    requires RealDate(d)
    ensures AddCalendarDays(d, days) == DateOf(DayNumber(d) + days) <==> !TwoDigitYear(d.month)
  {
    hide MonthStart, FindMonth, MonthLength, MonthOf, DateOf;
    if TwoDigitYear(d.month) {
      MonthsApart(d.month, d.month + 22_800);
      DayIsADate(MakeDay(UtcMonth(d.month), d.day) + days);
      DayIsADate(DayNumber(d) + days);
    }
  }

  /** Steps add up, as long as they do not stop in years 0 to 99. */
  lemma DaysAddUp(d: CalendarDate, a: int, b: int)
    requires RealDate(d) && !TwoDigitYear(d.month) && !TwoDigitYear(AddCalendarDays(d, a).month)
    ensures AddCalendarDays(AddCalendarDays(d, a), b) == AddCalendarDays(d, a + b)
    ensures DayNumber(AddCalendarDays(d, a)) == DayNumber(d) + a
    ensures AddCalendarDays(AddCalendarDays(d, a), -a) == d
  {
    hide AddCalendarDays, DateOf, DayNumber, RealDate, TwoDigitYear;
    AddsExactlyThatManyDays(d, a);
    AddsExactlyThatManyDays(d, a + b);
    DayIsADate(DayNumber(d) + a);
    DateIsADay(d);
    AddsExactlyThatManyDays(AddCalendarDays(d, a), b);
    AddsExactlyThatManyDays(AddCalendarDays(d, a), -a);
  }

  // ----- The zone -----

  /** What the clock on the wall reads. */
  function Shown(z: Zone, t: Time): Time { t + z(t) }

  /** A formatted year carries no era: years before 1 are printed as 1, 2 and so on, backwards. */
  function PrintedMonth(month: int): int { if month >= 12 then month else 12 * (1 - month / 12) + month % 12 }

  function ToBusinessDate(z: Zone, t: Time): CalendarDate {
    var d := DateOf(Day(Shown(z, t)));
    d.(month := PrintedMonth(d.month))
  }

  /** The printed date has the clock's own day and month, and its year counted without an era. */
  lemma BusinessDateShows(z: Zone, t: Time)
    ensures var shown, d := DateOf(Day(Shown(z, t))), ToBusinessDate(z, t);
            && d.day == shown.day && d.month % 12 == shown.month % 12
            && YearOf(d) == if YearOf(shown) >= 1 then YearOf(shown) else 1 - YearOf(shown)
  {}

  /** Read off a formatted clock, which has no milliseconds, and put back together by Date.UTC. */
  function ZoneOffsetMs(z: Zone, t: Time): int {
    var day, time := Day(Shown(z, t)), TimeInDay(Shown(z, t));
    At(MakeDay(UtcMonth(PrintedMonth(MonthOf(day))), DayOfMonth(day)), time - time % 1000) - t
  }

  function Clock(hour: int, minute: int): int { hour * 3_600_000 + minute * 60_000 }

  /** None is the invalid date that an unreadable date text gives. */
  function FromBusinessDate(z: Zone, d: DateText, hour: int, minute: int): Option<Time> {
    if !Readable(d) then None
    else
      var wallClock := At(DayNumber(d.date), Clock(hour, minute));
      var firstGuess := wallClock - ZoneOffsetMs(z, wallClock);
      Some(wallClock - ZoneOffsetMs(z, firstGuess))
  }

  function EndOfBusinessDay(z: Zone, date: CalendarDate): Option<Time> {
    match FromBusinessDate(z, DateText(AddCalendarDays(date, 1), false), 0, 0)
    case None => None
    case Some(t) => Some(t - 1)
  }

  function OffsetFromAnchor(z: Zone, anchor: Time, offsetDays: int, hour: int): Option<Time> {
    FromBusinessDate(z, DateText(AddCalendarDays(ToBusinessDate(z, anchor), offsetDays), false), hour, 0)
  }

  /** Within a day of this wall clock the zone changes its offset at most once, at x. */
  ghost predicate OneChangeNear(z: Zone, wall: Time, x: Time, a: int, b: int) {
    && -DAY_MS < a < DAY_MS && -DAY_MS < b < DAY_MS
    && forall t :: wall - DAY_MS <= t <= wall + DAY_MS ==> z(t) == if t < x then a else b
  }

  ghost predicate SomeInstantShows(z: Zone, wall: Time) {
    exists t :: Shown(z, t) == wall
  }

  function TwoSteps(z: Zone, wall: Time): Time {
    wall - z(wall - z(wall))
  }

  lemma LaterMonth(day: int, month: int)
    ensures MonthOf(day) >= month <==> day >= MonthStart(month)
  {
    hide FindMonth;
    var r := MonthOf(day);
    MonthStep(r);
    if r >= month { MonthsApart(month, r); } else { MonthsApart(r + 1, month); }
  }

  /**
   On whole seconds the offset read off the clock is the zone's, exactly where the clock shows the year 100 or a
   later one.
  */
  lemma OffsetIsReadIff(z: Zone, t: Time)
    requires RealZone(z) && t % 1000 == 0
    ensures ZoneOffsetMs(z, t) == z(t) <==> MonthOf(Day(Shown(z, t))) >= 1200
  {
    hide MonthStart, MonthOf, MonthLength, FindMonth;
    assert z(t) % 1000 == 0;
    var day, time := Day(Shown(z, t)), TimeInDay(Shown(z, t));
    AtDay(Shown(z, t));
    assert time % 1000 == 0 by { assert Shown(z, t) % 1000 == 0; }
    DayReads(day);
    var month, read := MonthOf(day), UtcMonth(PrintedMonth(MonthOf(day)));
    assert month < 1200 ==> read > month;
    if read > month { MonthsApart(month, read); }
  }

  lemma WholeSecond(z: Zone, t: Time)
    requires RealZone(z) && t % 1000 == 0
    ensures (t - z(t)) % 1000 == 0
  {
    assert z(t) % 1000 == 0;
  }

  /** Instants less than two days from a wall clock in or after February of the year 100 show years from 100 on. */
  lemma ShowsLaterYear(z: Zone, date: CalendarDate, time: int, t: Time)
    requires RealZone(z) && RealDate(date) && date.month > 1200 && 0 <= time < DAY_MS
    requires -DAY_MS < t - At(DayNumber(date), time) < DAY_MS
    ensures MonthOf(Day(Shown(z, t))) >= 1200
  {
    hide MonthStart, MonthLength, MonthOf, FindMonth;
    assert -DAY_MS < z(t) < DAY_MS;
    MonthStep(1200);
    MonthsApart(1201, date.month);
    assert Day(Shown(z, t)) >= DayNumber(date) - 2;
    LaterMonth(Day(Shown(z, t)), 1200);
  }

  lemma WholeMinute(day: int, hour: int, minute: int)
    ensures At(day, Clock(hour, minute)) % 1000 == 0
  {
    assert At(day, Clock(hour, minute)) == 1000 * (86_400 * day + 3_600 * hour + 60 * minute);
  }

  lemma TwoStepsIsFromBusinessDate(z: Zone, d: DateText, hour: int, minute: int)
    requires RealZone(z) && RealDate(d.date) && Readable(d) && d.date.month > 1200 && 0 <= hour <= 23
             && 0 <= minute <= 59
    ensures FromBusinessDate(z, d, hour, minute) == Some(TwoSteps(z, At(DayNumber(d.date), Clock(hour, minute))))
  {
    hide DayNumber, At, ZoneOffsetMs, Readable, RealDate, MonthOf, Day, Shown;
    var wall := At(DayNumber(d.date), Clock(hour, minute));
    WholeMinute(DayNumber(d.date), hour, minute);
    WholeSecond(z, wall);
    assert -DAY_MS < z(wall) < DAY_MS;
    hide RealZone;
    ShowsLaterYear(z, d.date, Clock(hour, minute), wall);
    OffsetIsReadIff(z, wall);
    ShowsLaterYear(z, d.date, Clock(hour, minute), wall - z(wall));
    OffsetIsReadIff(z, wall - z(wall));
  }

  /** Near one change of offset, an instant shows this wall clock unless the clocks jumped over it. */
  lemma ShownUnlessSkipped(z: Zone, wall: Time, x: Time, a: int, b: int)
    requires RealZone(z) && OneChangeNear(z, wall, x, a, b)
    ensures SomeInstantShows(z, wall) <==> !(x + a <= wall < x + b)
    ensures forall t :: Shown(z, t) == wall ==> (t == wall - a && t < x) || (t == wall - b && t >= x)
  {
    forall t | Shown(z, t) == wall ensures (t == wall - a && t < x) || (t == wall - b && t >= x) {
      assert -DAY_MS < z(t) < DAY_MS;
    }
    assert -DAY_MS < z(wall - DAY_MS) < DAY_MS && -DAY_MS < z(wall + DAY_MS) < DAY_MS && -DAY_MS < z(wall) < DAY_MS;
    if !(x + a <= wall < x + b) {
      var t := wall - z(wall - z(wall));
      assert -DAY_MS < z(wall - z(wall)) < DAY_MS;
      assert Shown(z, t) == wall;
    }
  }

  /**
   The two steps find an instant that shows the wall clock exactly when there is one. When the clocks
   went back and two do, the one before the change is found if the wall clock, read as UTC, is before it.
   */
  lemma TwoStepsFindIt(z: Zone, wall: Time, x: Time, a: int, b: int)
    requires RealZone(z) && OneChangeNear(z, wall, x, a, b)
    ensures Shown(z, TwoSteps(z, wall)) == wall <==> SomeInstantShows(z, wall)
    ensures x + b <= wall < x + a ==> TwoSteps(z, wall) == wall - if wall < x then a else b
  {
    ShownUnlessSkipped(z, wall, x, a, b);
    assert -DAY_MS < z(wall) < DAY_MS;
    assert -DAY_MS < z(wall - z(wall)) < DAY_MS;
  }

  /**
   The same for any zone: with offsets no more than d apart and steady within d of an instant showing this
   clock, that one is found and is the only one.
   */
  lemma SteadyZoneIsExact(z: Zone, wall: Time, t: Time, d: int)
    requires Shown(z, t) == wall
    requires forall u, v :: -d <= z(u) - z(v) <= d
    requires forall u :: t - d <= u <= t + d ==> z(u) == z(t)
    ensures TwoSteps(z, wall) == t
    ensures forall u :: Shown(z, u) == wall ==> u == t
  {
    assert -d <= z(wall) - z(t) <= d;
    forall u | Shown(z, u) == wall ensures u == t {
      assert -d <= z(u) - z(t) <= d;
    }
  }

  lemma FromBusinessDateIsRight(z: Zone, d: DateText, hour: int, minute: int, x: Time, a: int, b: int)
    requires RealZone(z) && RealDate(d.date) && Readable(d) && d.date.month > 1200 && 0 <= hour <= 23
             && 0 <= minute <= 59
    requires OneChangeNear(z, At(DayNumber(d.date), 3_600_000 * hour + 60_000 * minute), x, a, b)
    ensures FromBusinessDate(z, d, hour, minute).Some?
    ensures var t := FromBusinessDate(z, d, hour, minute).value;
            ToBusinessDate(z, t) == d.date && TimeInDay(Shown(z, t)) == 3_600_000 * hour + 60_000 * minute
            <==> SomeInstantShows(z, At(DayNumber(d.date), 3_600_000 * hour + 60_000 * minute))
  {
    ClockIs(hour, minute);
    hide Clock;
    hide RealDate, DayNumber, TwoSteps, FromBusinessDate, Readable, ToBusinessDate, At, Day, TimeInDay, Shown, RealZone,
         OneChangeNear, SomeInstantShows;
    var wall := At(DayNumber(d.date), Clock(hour, minute));
    TwoStepsIsFromBusinessDate(z, d, hour, minute);
    TwoStepsFindIt(z, wall, x, a, b);
    var t := TwoSteps(z, wall);
    TwoStepsNear(z, wall);
    ShowsDate(z, d.date, Clock(hour, minute), t);
  }

  lemma TwoStepsNear(z: Zone, wall: Time)
    requires RealZone(z)
    ensures -DAY_MS < TwoSteps(z, wall) - wall < DAY_MS
  {
    assert -DAY_MS < z(wall - z(wall)) < DAY_MS;
  }

  /** From the year 100 on, the date and time shown are this date and time exactly when the clock shows them. */
  lemma ShowsDate(z: Zone, date: CalendarDate, time: int, t: Time)
    requires RealZone(z) && RealDate(date) && date.month > 1200 && 0 <= time < DAY_MS
    requires -DAY_MS < t - At(DayNumber(date), time) < DAY_MS
    ensures ToBusinessDate(z, t) == date && TimeInDay(Shown(z, t)) == time <==> Shown(z, t) == At(DayNumber(date), time)
  {
    hide RealDate, DayNumber, MonthOf, DayOfMonth, At, Day, TimeInDay, Shown, RealZone;
    ShowsLaterYear(z, date, time, t);
    DayAt(DayNumber(date), time);
    DayIsADate(Day(Shown(z, t)));
    DateIsADay(date);
    AtDay(Shown(z, t));
  }

  /** An offset from an anchor keeps only the anchor's business date, moves it by whole days, and sets the hour. */
  lemma OffsetFromAnchorIsRight(z: Zone, anchor: Time, offsetDays: int, hour: int, x: Time, a: int, b: int)
    requires RealZone(z) && 0 <= hour <= 23 && MonthOf(Day(Shown(z, anchor))) >= 1200
    requires FourDigitYear(DateOf(Day(Shown(z, anchor)) + offsetDays))
    requires OneChangeNear(z, At(Day(Shown(z, anchor)) + offsetDays, 3_600_000 * hour), x, a, b)
    ensures OffsetFromAnchor(z, anchor, offsetDays, hour).Some?
    ensures var t := OffsetFromAnchor(z, anchor, offsetDays, hour).value;
            Day(Shown(z, t)) == Day(Shown(z, anchor)) + offsetDays && TimeInDay(Shown(z, t)) == 3_600_000 * hour
            <==> SomeInstantShows(z, At(Day(Shown(z, anchor)) + offsetDays, 3_600_000 * hour))
  {
    hide *;
    ClockIs(hour, 0);
    var day := Day(Shown(z, anchor));
    DayIsADate(day);
    DayIsADate(day + offsetDays);
    DatePlus(z, anchor, offsetDays);
    ClockInDay(hour);
    FromPrinted(z, DateOf(day + offsetDays), hour, x, a, b);
    OffsetIs(z, anchor, offsetDays, hour, DateOf(day + offsetDays));
  }

  lemma ClockIs(hour: int, minute: int)
    ensures Clock(hour, minute) == 3_600_000 * hour + 60_000 * minute
  {}

  lemma ClockInDay(hour: int)
    requires 0 <= hour <= 23
    ensures 0 <= Clock(hour, 0) < DAY_MS
  {}

  lemma OffsetIs(z: Zone, anchor: Time, offsetDays: int, hour: int, date: CalendarDate)
    requires AddCalendarDays(ToBusinessDate(z, anchor), offsetDays) == date
    ensures OffsetFromAnchor(z, anchor, offsetDays, hour) == FromBusinessDate(z, DateText(date, false), hour, 0)
  {}

  lemma DatePlus(z: Zone, anchor: Time, offsetDays: int)
    requires MonthOf(Day(Shown(z, anchor))) >= 1200
    ensures AddCalendarDays(ToBusinessDate(z, anchor), offsetDays) == DateOf(Day(Shown(z, anchor)) + offsetDays)
  {
    hide Day, Shown, MonthOf, DayOfMonth, AddCalendarDays, RealDate;
    var day := Day(Shown(z, anchor));
    DayIsADate(day);
    AddsExactlyThatManyDays(DateOf(day), offsetDays);
  }

  /** What a printed date and an hour are turned into shows them exactly when some instant does. */
  lemma FromPrinted(z: Zone, date: CalendarDate, hour: int, x: Time, a: int, b: int)
    requires RealZone(z) && RealDate(date) && FourDigitYear(date) && 0 <= hour <= 23
    requires OneChangeNear(z, At(DayNumber(date), Clock(hour, 0)), x, a, b)
    ensures FromBusinessDate(z, DateText(date, false), hour, 0).Some?
    ensures var t := FromBusinessDate(z, DateText(date, false), hour, 0).value;
            Day(Shown(z, t)) == DayNumber(date) && TimeInDay(Shown(z, t)) == Clock(hour, 0)
            <==> SomeInstantShows(z, At(DayNumber(date), Clock(hour, 0)))
  {
    hide RealDate, DayNumber, TwoSteps, FromBusinessDate, At, Day, TimeInDay, Shown, RealZone, OneChangeNear,
         SomeInstantShows;
    var wall := At(DayNumber(date), Clock(hour, 0));
    TwoStepsIsFromBusinessDate(z, DateText(date, false), hour, 0);
    TwoStepsFindIt(z, wall, x, a, b);
    DayAt(DayNumber(date), Clock(hour, 0));
    AtDay(Shown(z, TwoSteps(z, wall)));
  }

  // ----- The end of a day -----

  /** The next midnight is on the clock exactly once. */
  ghost predicate OneMidnight(z: Zone, midnight: Time) {
    SomeInstantShows(z, midnight) && forall t, u :: Shown(z, t) == midnight && Shown(z, u) == midnight ==> t == u
  }

  /** The cut at e parts the instants of the day and before from those of later days. */
  ghost predicate EndsTheDay(z: Zone, date: CalendarDate, e: Time) {
    forall t :: t <= e <==> Day(Shown(z, t)) <= DayNumber(date)
  }

  /**
   How the clock may treat the next midnight when its offset goes from a to b at x. Jumping over it is
   harmless only if the jump starts from midnight itself, east of UTC or on it; going back to show it
   twice is harmless only if the clock falls back to midnight itself, west of UTC.
   */
  predicate MidnightIsHarmless(midnight: Time, x: Time, a: int, b: int) {
    && (x + a <= midnight < x + b ==> midnight == x + a && a >= 0)
    && (x + b <= midnight < x + a ==> midnight == x + b && b < 0)
  }

  /** The computed end of this day is an instant, and ends it. */
  ghost predicate EndIsRight(z: Zone, date: CalendarDate) {
    EndOfBusinessDay(z, date).Some? && EndsTheDay(z, date, EndOfBusinessDay(z, date).value)
  }

  /**
   Of every date that can be typed, the computed end is its last moment if and only if the next day has a
   year of four digits without leading zeros and the change of offset is harmless.
   */
  lemma EndOfBusinessDayIsItsLastMoment(z: Zone, date: CalendarDate, x: Time, a: int, b: int)
    requires RealZone(z) && RealDate(date) && 0 <= YearOf(date) <= 9999
    requires OneChangeNear(z, At(DayNumber(date) + 1, 0), x, a, b)
    ensures EndIsRight(z, date)
            <==> && 1000 <= YearOf(DateOf(DayNumber(date) + 1)) <= 9999
                 && MidnightIsHarmless(At(DayNumber(date) + 1, 0), x, a, b)
  {
    YearsRead(DateOf(DayNumber(date) + 1));
    hide *;
    NextYear(date);
    if TwoDigitYear(date.month) {
      EndNineteenCenturiesLate(z, date);
    } else if FourDigitYear(DateOf(DayNumber(date) + 1)) {
      EndOfDayIs(z, date);
      CutAtMidnight(z, At(DayNumber(date) + 1, 0), x, a, b);
      CutIsEnd(z, date, TwoSteps(z, At(DayNumber(date) + 1, 0)));
      EndIs(z, date);
    } else {
      NoEnd(z, date);
    }
  }

  lemma EndIs(z: Zone, date: CalendarDate)
    ensures EndIsRight(z, date)
            <==> EndOfBusinessDay(z, date).Some? && EndsTheDay(z, date, EndOfBusinessDay(z, date).value)
  {}

  /** The day after one in years 0 to 99 is not in the year 1000 or later. */
  lemma NextYear(date: CalendarDate)
    requires RealDate(date)
    ensures TwoDigitYear(date.month) ==> !FourDigitYear(DateOf(DayNumber(date) + 1))
  {
    hide MonthOf, MonthStart, MonthLength, FindMonth;
    if TwoDigitYear(date.month) {
      MonthStep(date.month);
      MonthsApart(date.month + 1, 12_000);
      LaterMonth(DayNumber(date) + 1, 12_000);
    }
  }

  /** A date in years 0 to 99 is taken for one in the twentieth century. */
  lemma EndNineteenCenturiesLate(z: Zone, date: CalendarDate)
    requires RealZone(z) && RealDate(date) && TwoDigitYear(date.month)
    ensures EndOfBusinessDay(z, date).Some? && Day(Shown(z, EndOfBusinessDay(z, date).value)) > DayNumber(date)
    ensures !EndIsRight(z, date)
  {
    hide MakeDay, RealDate, TwoSteps, RealZone, FromBusinessDate, AddCalendarDays, TwoDigitYear, EndOfBusinessDay,
         DayNumber, Day;
    var next := MakeDay(date.month + 22_800, date.day) + 1;
    TwentiethCentury(date);
    EndInTwentiethCentury(z, date);
    TwoStepsNear(z, At(next, 0));
    var e := EndOfBusinessDay(z, date).value;
    OffsetBound(z, e);
    DayBefore(Shown(z, e), DayNumber(date) + 1);
    assert e <= e;
  }

  lemma EndInTwentiethCentury(z: Zone, date: CalendarDate)
    requires RealZone(z) && RealDate(date) && TwoDigitYear(date.month)
    ensures EndOfBusinessDay(z, date) == Some(TwoSteps(z, At(MakeDay(date.month + 22_800, date.day) + 1, 0)) - 1)
  {
    hide MakeDay, MonthOf, DayOfMonth, RealDate, TwoSteps, RealZone, FromBusinessDate, At, DayNumber, Clock;
    var next := MakeDay(date.month + 22_800, date.day) + 1;
    TwentiethCentury(date);
    DayIsADate(next);
    ClockZero();
    TwoStepsIsFromBusinessDate(z, DateText(DateOf(next), false), 0, 0);
  }

  lemma OffsetBound(z: Zone, t: Time)
    requires RealZone(z)
    ensures -DAY_MS < z(t) < DAY_MS
  {}

  lemma TwentiethCentury(date: CalendarDate)
    requires RealDate(date) && TwoDigitYear(date.month)
    ensures var next := MakeDay(date.month + 22_800, date.day) + 1;
            next > DayNumber(date) + 5 && 22_800 <= MonthOf(next) <= 24_000
  {
    hide MonthOf, MonthStart, MonthLength, FindMonth;
    var next := MakeDay(date.month + 22_800, date.day) + 1;
    MonthsApart(date.month, date.month + 22_800);
    MonthStep(date.month);
    MonthStep(date.month + 22_800);
    MonthsApart(22_800, date.month + 22_800);
    LaterMonth(next, 22_800);
    MonthsApart(date.month + 22_801, 24_000);
    MonthStep(24_000);
    LaterMonth(next, 24_001);
  }

  /** A year printed with fewer than four digits, or with five, is not read back. */
  lemma NoEnd(z: Zone, date: CalendarDate)
    requires RealDate(date) && !TwoDigitYear(date.month) && !FourDigitYear(DateOf(DayNumber(date) + 1))
    ensures EndOfBusinessDay(z, date).None? && !EndIsRight(z, date)
  {
    hide RealDate, DateOf, DayNumber, TwoDigitYear;
    AddsExactlyThatManyDays(date, 1);
  }

  /** In particular it is right wherever midnight is on the clock once, as long as the next day can be read back. */
  lemma EndOfBusinessDayWithOneMidnight(z: Zone, date: CalendarDate, x: Time, a: int, b: int)
    requires RealZone(z) && RealDate(date) && 0 <= YearOf(date) <= 9999
    requires OneChangeNear(z, At(DayNumber(date) + 1, 0), x, a, b) && OneMidnight(z, At(DayNumber(date) + 1, 0))
    ensures EndIsRight(z, date) <==> 1000 <= YearOf(DateOf(DayNumber(date) + 1)) <= 9999
  {
    hide TwoSteps, DayNumber, At, EndIsRight, RealZone, OneChangeNear, OneMidnight, RealDate, FourDigitYear, DateOf;
    EndOfBusinessDayIsItsLastMoment(z, date, x, a, b);
    OneMidnightIsHarmless(z, At(DayNumber(date) + 1, 0), x, a, b);
  }

  lemma OneMidnightIsHarmless(z: Zone, midnight: Time, x: Time, a: int, b: int)
    requires RealZone(z) && OneChangeNear(z, midnight, x, a, b) && OneMidnight(z, midnight)
    ensures MidnightIsHarmless(midnight, x, a, b)
  {
    ShownUnlessSkipped(z, midnight, x, a, b);
    if x + b <= midnight < x + a { TwoClocks(z, midnight, x, a, b); }
  }

  lemma EndOfDayIs(z: Zone, date: CalendarDate)
    requires RealZone(z) && RealDate(date) && !TwoDigitYear(date.month) && FourDigitYear(DateOf(DayNumber(date) + 1))
    ensures EndOfBusinessDay(z, date) == Some(TwoSteps(z, At(DayNumber(date) + 1, 0)) - 1)
  {
    hide RealZone, RealDate, DateOf, DayNumber, TwoSteps, At, Clock, FromBusinessDate, AddCalendarDays;
    AddsExactlyThatManyDays(date, 1);
    DayIsADate(DayNumber(date) + 1);
    TwoStepsIsFromBusinessDate(z, DateText(DateOf(DayNumber(date) + 1), false), 0, 0);
    ClockZero();
  }

  lemma ClockZero()
    ensures Clock(0, 0) == 0
  {}

  lemma DayBefore(t: Time, day: int)
    ensures Day(t) < day <==> t < At(day, 0)
  {}

  /** The two steps give a cut. */
  ghost predicate CutsAt(z: Zone, midnight: Time, cut: Time) {
    forall t :: t < cut <==> Shown(z, t) < midnight
  }

  lemma CutIsEnd(z: Zone, date: CalendarDate, cut: Time)
    ensures EndsTheDay(z, date, cut - 1) <==> CutsAt(z, At(DayNumber(date) + 1, 0), cut)
  {
    hide DayNumber, At, Day, Shown;
    forall t ensures Day(Shown(z, t)) <= DayNumber(date) <==> Shown(z, t) < At(DayNumber(date) + 1, 0) {
      DayBefore(Shown(z, t), DayNumber(date) + 1);
    }
    if EndsTheDay(z, date, cut - 1) {
      forall t ensures t < cut <==> Shown(z, t) < At(DayNumber(date) + 1, 0) {
        assert t <= cut - 1 <==> Day(Shown(z, t)) <= DayNumber(date);
      }
    }
    if CutsAt(z, At(DayNumber(date) + 1, 0), cut) {
      forall t ensures t <= cut - 1 <==> Day(Shown(z, t)) <= DayNumber(date) {
        assert t < cut <==> Shown(z, t) < At(DayNumber(date) + 1, 0);
      }
    }
  }

  lemma CutAtMidnight(z: Zone, midnight: Time, x: Time, a: int, b: int)
    requires RealZone(z) && OneChangeNear(z, midnight, x, a, b)
    ensures CutsAt(z, midnight, TwoSteps(z, midnight)) <==> MidnightIsHarmless(midnight, x, a, b)
  {
    var cut := TwoSteps(z, midnight);
    assert -DAY_MS < z(midnight) < DAY_MS && -DAY_MS < z(midnight - z(midnight)) < DAY_MS;
    if MidnightIsHarmless(midnight, x, a, b) {
      forall t ensures t < cut <==> Shown(z, t) < midnight { assert -DAY_MS < z(t) < DAY_MS; }
    } else {
      // one of these four moments is on the wrong side of the cut
      assert !(x - 1 < cut <==> Shown(z, x - 1) < midnight) || !(x < cut <==> Shown(z, x) < midnight)
             || Shown(z, cut - 1) >= midnight || Shown(z, cut) < midnight;
    }
  }

  lemma TwoClocks(z: Zone, wall: Time, x: Time, a: int, b: int)
    requires RealZone(z) && OneChangeNear(z, wall, x, a, b) && x + b <= wall < x + a
    ensures Shown(z, wall - a) == wall && Shown(z, wall - b) == wall && a != b
  {
    assert -DAY_MS < z(wall) < DAY_MS && -DAY_MS < z(wall - DAY_MS) < DAY_MS && -DAY_MS < z(wall + DAY_MS) < DAY_MS;
  }

  /**
   Where clocks west of UTC jump from midnight to one, the day is ended an hour early: its last hour counts as
   the next day.
  */
  lemma MidnightJumpEndsTheDayEarly(date: CalendarDate)
    requires RealDate(date) && !TwoDigitYear(date.month) && FourDigitYear(DateOf(DayNumber(date) + 1))
    ensures var midnight := At(DayNumber(date) + 1, 0);
            var z := (t: Time) => if t < midnight + 18_000_000 then -18_000_000 else -14_400_000;
            RealZone(z) && !MidnightIsHarmless(midnight, midnight + 18_000_000, -18_000_000, -14_400_000)
            && EndOfBusinessDay(z, date) == Some(midnight + 14_400_000 - 1)
            && Day(Shown(z, midnight + 18_000_000 - 1)) == DayNumber(date)
  {
    hide DateOf, RealDate, DayNumber, EndOfBusinessDay, FourDigitYear, At, Day;
    var midnight := At(DayNumber(date) + 1, 0);
    var z := (t: Time) => if t < midnight + 18_000_000 then -18_000_000 else -14_400_000;
    EndOfDayIs(z, date);
    DayBefore(midnight - 1, DayNumber(date) + 1);
    DayBefore(midnight - 1, DayNumber(date));
    DayStart(DayNumber(date));
  }

  lemma DayStart(day: int)
    ensures At(day + 1, 0) == At(day, 0) + DAY_MS
  {}
}
