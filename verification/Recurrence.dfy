/**
 The pure recurrence arithmetic: stepping by days, weeks, months and years, the weekly "repeat on"
 enumeration, end conditions, the lead window, and the two walks that stop at the first sequence
 number beyond it. The walks are exact because anchors strictly increase.
 */
module Recurrence {
  import opened Wrappers
  import opened Entities
  import opened Calendar
  import opened WeeklySchedule

  datatype Unit = DayUnit | WeekUnit | MonthUnit | YearUnit

  datatype RecurrenceType = NoRecurrence | Fixed | RelativeToCompletion

  datatype EndType = Never | OnDate | AfterOccurrences

  datatype Config = Config(
    recurrenceType: RecurrenceType, intervalCount: Option<nat>, intervalUnit: Option<Unit>, weekdays: seq<int>,
    anchorDate: Option<Time>, endType: EndType, endDate: Option<Time>, maxOccurrences: Option<int>)

  datatype Failure = NotFixed | Incomplete | SeqOutOfRange

  const WALK_CAP: nat := 100_000
  const GHOST_HORIZON: nat := 24

  function AddDays(t: Time, days: int): Time { t + days * 86_400_000 }

  function Min(a: int, b: int): int { if a <= b then a else b }

  /** The month length the clamp really reads: Date.UTC's two-digit years again. */
  function LengthReadFor(month: int): int { MonthLength(UtcMonth(month)) }

  /** That many months on, on the same day of the month or the last one there is, at the same time. */
  function AddMonths(t: Time, months: int): Time {
    var target := MonthOf(Day(t)) + months;
    At(MakeDay(target, Min(DayOfMonth(Day(t)), LengthReadFor(target))), TimeInDay(t))
  }

  function AddInterval(t: Time, u: Unit, count: int): Time {
    match u
    case DayUnit => AddDays(t, count)
    case WeekUnit => AddDays(t, count * 7)
    case MonthUnit => AddMonths(t, count)
    case YearUnit => AddMonths(t, count * 12)
  }

  // ----- Month arithmetic never drifts -----

  lemma OnTheFirst(t: Time, month: int)
    ensures var d := At(MakeDay(month, 1), TimeInDay(t));
            MonthOf(Day(d)) == month && DayOfMonth(Day(d)) == 1 && TimeInDay(d) == TimeInDay(t)
  {
    hide MonthStart, FindMonth, MonthLength, MonthOf, MakeDay, DayOfMonth;
    DayAt(MakeDay(month, 1), TimeInDay(t));
    MakeDayReads(month, 1);
  }

  lemma LastDayThroughDateUtc(month: int)
    ensures DayOfMonth(Day(DateUtc(month, 1, 0))) == LengthReadFor(month)
  {
    hide MonthStart, FindMonth, MonthLength, MonthOf, DayOfMonth;
    var m := UtcMonth(month);
    MonthStep(m);
    assert MakeDay(m + 1, 0) == MakeDay(m, MonthLength(m));
    DayAt(MakeDay(m + 1, 0), 0);
    MakeDayReads(m, MonthLength(m));
  }

  /** The source's edits of a local date: to the first, on by the months, and to the clamped day. */
  method StepMonths(t: Time, months: int) returns (d: Time)
    ensures d == AddMonths(t, months)
  {
    hide MonthStart, FindMonth, MonthLength, MonthOf, MakeDay, DayOfMonth, At, Day, TimeInDay, LengthReadFor;
    d := t;
    var day := DayOfMonth(Day(d));
    d := SetUtcDate(d, 1);
    OnTheFirst(t, MonthOf(Day(t)));
    d := AddUtcMonths(d, months);
    OnTheFirst(t, MonthOf(Day(t)) + months);
    var daysInMonth := DayOfMonth(Day(DateUtc(MonthOf(Day(d)), 1, 0)));
    LastDayThroughDateUtc(MonthOf(Day(d)));
    d := SetUtcDate(d, Min(day, daysInMonth));
  }

  method StepInterval(t: Time, u: Unit, count: int) returns (d: Time)
    ensures d == AddInterval(t, u, count)
  {
    hide AddMonths;
    match u {
      case DayUnit => d := AddDays(t, count);
      case WeekUnit => d := AddDays(t, count * 7);
      case MonthUnit => d := StepMonths(t, count);
      case YearUnit => d := StepMonths(t, count * 12);
    }
  }

  lemma LengthReadIsRight(month: int)
    ensures LengthReadFor(month) <= MonthLength(month)
    ensures LengthReadFor(month) == MonthLength(month) <==> month != 1
  {}

  /** Adding months lands exactly that many months on, at the same time of day, on a clamped day. */
  lemma AddMonthsLands(t: Time, months: int)
    ensures var r, target := AddMonths(t, months), MonthOf(Day(t)) + months;
            && MonthOf(Day(r)) == target
            && TimeInDay(r) == TimeInDay(t)
            && DayOfMonth(Day(r)) == Min(DayOfMonth(Day(t)), LengthReadFor(target))
  {
    hide MonthStart, FindMonth, MonthLength, MonthOf, DayOfMonth, MakeDay, Day, At, TimeInDay, LengthReadFor;
    var target := MonthOf(Day(t)) + months;
    var date := Min(DayOfMonth(Day(t)), LengthReadFor(target));
    LengthReadIsRight(target);
    LengthsArePositive(target);
    DayAt(MakeDay(target, date), TimeInDay(t));
    MakeDayReads(target, date);
  }

  lemma LengthsArePositive(month: int)
    ensures LengthReadFor(month) >= 28
  {}

  lemma ClampIsRight(target: int, day: int)
    ensures Min(day, LengthReadFor(target)) == Min(day, MonthLength(target)) <==> !(target == 1 && day >= 29)
  {
    LengthReadIsRight(target);
    assert MonthLength(1) == 29 && LengthReadFor(1) == 28;
  }

  /**
   The clamp is to the length of the month landed in, for every date but one family: the 29th and
   later stepping into February of year 0 lands on the 28th.
   */
  lemma AddMonthsClamps(t: Time, months: int)
    ensures var target := MonthOf(Day(t)) + months;
            DayOfMonth(Day(AddMonths(t, months))) == Min(DayOfMonth(Day(t)), MonthLength(target))
            <==> !(target == 1 && DayOfMonth(Day(t)) >= 29)
  {
    AddMonthsLands(t, months);
    ClampIsRight(MonthOf(Day(t)) + months, DayOfMonth(Day(t)));
  }

  /** A step from the anchor lands on the anchor's own day wherever the month is long enough, however far. */
  lemma MonthStepsNeverDrift(t: Time, months: int)
    requires MonthLength(MonthOf(Day(t)) + months) >= DayOfMonth(Day(t)) && MonthOf(Day(t)) + months != 1
    ensures DayOfMonth(Day(AddMonths(t, months))) == DayOfMonth(Day(t))
  {
    AddMonthsLands(t, months);
    AddMonthsClamps(t, months);
  }

  lemma AddMonthsIncreases(t: Time, a: int, b: int)
    requires a < b
    ensures AddMonths(t, a) < AddMonths(t, b)
  {
    AddMonthsLands(t, a);
    AddMonthsLands(t, b);
    LaterMonthIsLater(AddMonths(t, a), AddMonths(t, b));
  }

  lemma LaterMonthIsLater(s: Time, t: Time)
    requires MonthOf(Day(s)) < MonthOf(Day(t))
    ensures s < t
  {
    var a, b := MonthOf(Day(s)), MonthOf(Day(t));
    MonthStep(a);
    MonthsApart(a + 1, b);
    assert Day(s) < Day(t);
  }

  // ----- How soon a number of months may pass -----

  /** The days in a run of months. */
  function RunDays(month: int, months: nat): int { MonthStart(month + months) - MonthStart(month) }

  /** Of the 29th or a later day stepping into February of year 0, which is read as 28 days long. */
  predicate ShortStep(months: nat, days: int) {
    MonthLength(1 - months) >= 29 && RunDays(2 - months, months) - 1 <= days
  }

  /**
   From some moment that many months take no more than these days: the clamp never makes a step shorter than
   some run of whole months, but for one into February of year 0.
   */
  lemma MonthsTakeAtLeast(t: Time, months: nat, days: int)
    requires months >= 1 && AddMonths(t, months) <= t + days * 86_400_000
    ensures || (exists month :: RunDays(month, months) <= days)
            || (ShortStep(months, days) && AddMonths(t, months) >= At(MonthStart(1) + 27, 0))
  {
    hide MonthStart, MonthLength, FindMonth, MonthOf, DayOfMonth;
    var month, d := MonthOf(Day(t)), DayOfMonth(Day(t));
    var target := month + months;
    AddMonthsLands(t, months);
    StepDays(t, months, days);
    LengthReadIsRight(target);
    DayReads(Day(t));
    MonthStep(month);
    MonthStep(target);
    if d <= LengthReadFor(target) {
      assert RunDays(month, months) <= days;
    } else if target != 1 {
      assert month + 1 + months == target + 1;
      assert RunDays(month + 1, months) <= days;
    } else {
      LengthsArePositive(1);
      FebruaryOfYearZero();
      assert 2 - months + months == 2;
      DayReads(Day(AddMonths(t, months)));
    }
  }

  lemma FebruaryOfYearZero()
    ensures LengthReadFor(1) == 28 && MonthLength(1) == 29
  {}

  /** A step of months counted in days. */
  lemma StepDays(t: Time, months: nat, days: int)
    ensures var month, d := MonthOf(Day(t)), DayOfMonth(Day(t));
            AddMonths(t, months) <= t + days * 86_400_000
            <==> MakeDay(month + months, Min(d, LengthReadFor(month + months))) - Day(t) <= days
  {
    hide MonthStart, MonthLength, FindMonth, MonthOf, DayOfMonth, LengthReadFor, MakeDay;
    AtDay(t);
  }

  /** From the first of a month, months take exactly the days of their run. */
  lemma FromTheFirst(month: int, months: nat)
    ensures AddMonths(At(MonthStart(month), 0), months) == At(MonthStart(month), 0)
            + RunDays(month, months) * 86_400_000
    ensures AddMonths(At(MonthStart(month), 0), months) == At(MonthStart(month + months), 0)
  {
    hide MonthStart, MonthLength, FindMonth, MonthOf, DayOfMonth;
    var t := At(MonthStart(month), 0);
    DayAt(MonthStart(month), 0);
    LengthsArePositive(month + months);
    FirstReads(month);
  }

  lemma FirstReads(month: int)
    ensures MonthOf(MonthStart(month)) == month && DayOfMonth(MonthStart(month)) == 1
  {
    hide MonthStart, FindMonth, MonthOf, DayOfMonth;
    MakeDayReads(month, 1);
  }

  /** And from the last day of the month that many before February of year 0, a day less than the run. */
  lemma IntoFebruaryOfYearZero(months: nat)
    requires MonthLength(1 - months) >= 29
    ensures var t := At(MonthStart(2 - months) - 1, 0);
            && AddMonths(t, months) == t + (RunDays(2 - months, months) - 1) * 86_400_000
            && AddMonths(t, months) == At(MonthStart(1) + 27, 0)
  {
    hide MonthStart, MonthLength, FindMonth, MonthOf, DayOfMonth;
    var month := 1 - months;
    MonthStep(month);
    MonthStep(1);
    FebruaryOfYearZero();
    MakeDayReads(month, MonthLength(month));
    assert MakeDay(month, MonthLength(month)) == MonthStart(2 - months) - 1;
    DayAt(MonthStart(2 - months) - 1, 0);
  }

  /** Every run recurs as early as one likes. */
  lemma EarlierRun(month: int, months: nat, before: Time) returns (early: int)
    ensures RunDays(early, months) == RunDays(month, months) && At(MonthStart(early + months), 0) <= before
    decreases if At(MonthStart(month + months), 0) > before then At(MonthStart(month + months), 0) - before else 0
  {
    hide MonthStart;
    early := month;
    if At(MonthStart(month + months), 0) > before {
      FourHundredYears(month - 4800);
      FourHundredYears(month - 4800 + months);
      assert month - 4800 + months == month + months - 4800;
      early := EarlierRun(month - 4800, months, before);
    }
  }

  // ----- Fixed schedules -----

  predicate Complete(cfg: Config) {
    && cfg.recurrenceType == Fixed
    && cfg.anchorDate.Some? && cfg.intervalUnit.Some? && cfg.intervalCount.Some? && cfg.intervalCount.value != 0
  }

  predicate ByWeekday(cfg: Config)
    requires Complete(cfg)
  {
    cfg.intervalUnit.value == WeekUnit && |cfg.weekdays| > 0
  }

  /** The anchor of sequence number n, or why the source throws. */
  ghost function FixedAnchor(cfg: Config, n: int): Result<Time, Failure> {
    if cfg.recurrenceType != Fixed then Err(NotFixed)
    else if !Complete(cfg) then Err(Incomplete)
    else if ByWeekday(cfg) then
      match WeeklyDate(cfg.anchorDate.value, cfg.intervalCount.value, cfg.weekdays, n)
      case Some(t) => Ok(t)
      case None => Err(SeqOutOfRange)
    else Ok(AddInterval(cfg.anchorDate.value, cfg.intervalUnit.value, cfg.intervalCount.value * (n - 1)))
  }

  /** r is that many months after a: in that month, on a's day or the last one read for it, at a's time of day. */
  predicate MonthsLater(a: Time, months: int, r: Time) {
    var target := MonthOf(Day(a)) + months;
    && MonthOf(Day(r)) == target && TimeInDay(r) == TimeInDay(a)
    && DayOfMonth(Day(r)) == Min(DayOfMonth(Day(a)), if target == 1 then 28 else MonthLength(target))
  }

  /** r is that many of these units after a. */
  predicate UnitsLater(a: Time, u: Unit, count: int, r: Time) {
    match u
    case DayUnit => r - a == count * 86_400_000
    case WeekUnit => r - a == count * 604_800_000
    case MonthUnit => MonthsLater(a, count, r)
    case YearUnit => MonthsLater(a, 12 * count, r)
  }

  /** Adding an interval gives just the moment that many units later. */
  lemma IntervalIsThatLong(a: Time, u: Unit, count: int, r: Time)
    ensures UnitsLater(a, u, count, r) <==> r == AddInterval(a, u, count)
  {
    hide AddMonths, MonthOf, DayOfMonth, Day, TimeInDay, MonthLength;
    match u
    case DayUnit =>
    case WeekUnit =>
    case MonthUnit => MonthsAreThatLong(a, count, r);
    case YearUnit => MonthsAreThatLong(a, count * 12, r);
  }

  lemma MonthsAreThatLong(a: Time, months: int, r: Time)
    ensures MonthsLater(a, months, r) <==> r == AddMonths(a, months)
  {
    var b := AddMonths(a, months);
    hide MonthStart, FindMonth;
    hide AddMonths, MonthOf, DayOfMonth, Day, TimeInDay, MonthLength, LengthReadFor;
    var target := MonthOf(Day(a)) + months;
    AddMonthsLands(a, months);
    LengthReadIsRight(target);
    if target == 1 { FebruaryOfYearZero(); }
    assert MonthsLater(a, months, b);
    if MonthsLater(a, months, r) { SameReading(r, b); }
  }

  /** A month, a day of it and a time of day are one moment. */
  lemma SameReading(a: Time, b: Time)
    requires MonthOf(Day(a)) == MonthOf(Day(b)) && DayOfMonth(Day(a)) == DayOfMonth(Day(b))
             && TimeInDay(a) == TimeInDay(b)
    ensures a == b
  {
    hide MonthOf, DayOfMonth, MonthStart;
    DayReads(Day(a));
    DayReads(Day(b));
    AtDay(a);
    AtDay(b);
  }

  /** Number n of a schedule without weekdays lies exactly n - 1 intervals after the anchor date. */
  predicate IsNthAnchor(cfg: Config, n: int, anchor: Time)
    requires Complete(cfg)
  {
    UnitsLater(cfg.anchorDate.value, cfg.intervalUnit.value, (n - 1) * cfg.intervalCount.value, anchor)
  }

  lemma NthAnchor(cfg: Config, n: int)
    requires Complete(cfg) && (cfg.intervalUnit == Some(WeekUnit) ==> cfg.weekdays == [])
    ensures FixedAnchor(cfg, n).Ok? && IsNthAnchor(cfg, n, FixedAnchor(cfg, n).value)
  {
    hide AddInterval, UnitsLater;
    IntervalIsThatLong(cfg.anchorDate.value, cfg.intervalUnit.value, cfg.intervalCount.value * (n - 1),
                       FixedAnchor(cfg, n).value);
  }

  /**
   With weekdays, number 1 is the anchor date, and number n the (n - 1)-th selected day of a visited week after it,
   at its time of day; where none of them is a day of the week it is weekly steps again.
  */
  lemma NthWeekdayAnchor(cfg: Config, n: int)
    requires Complete(cfg) && cfg.intervalUnit == Some(WeekUnit) && cfg.weekdays != [] && 1 <= n <= 200_000
    ensures FixedAnchor(cfg, n).Ok?
    ensures n == 1 ==> FixedAnchor(cfg, n).value == cfg.anchorDate.value
    ensures (forall w :: w in cfg.weekdays ==> !(0 <= w <= 6)) ==> IsNthAnchor(cfg, n, FixedAnchor(cfg, n).value)
    ensures n > 1 && (exists w :: w in cfg.weekdays && 0 <= w <= 6)
            && !TwoDigitYear(MonthOf(Day(cfg.anchorDate.value))) ==>
              var a, r := cfg.anchorDate.value, FixedAnchor(cfg, n).value;
              IsNthDay(Day(a), cfg.intervalCount.value, cfg.weekdays, n - 1, Day(r)) && TimeInDay(r) == TimeInDay(a)
  {
    hide IsNthDay, SelectedDays, StartOfUtcDay, MonthOf;
    var a, count := cfg.anchorDate.value, cfg.intervalCount.value;
    AnchorsIncrease(cfg, n, n);
    AnyOfTheWeek(cfg.weekdays);
    if SelectedDays(cfg.weekdays) != [] && n > 1 && !TwoDigitYear(MonthOf(Day(a))) {
      WeeklyIsTheEnumeration(a, count, cfg.weekdays);
      assert IsRight(a, count, cfg.weekdays, n);
    }
  }

  lemma AnyOfTheWeek(weekdays: seq<int>)
    ensures SelectedDays(weekdays) == [] <==> forall w :: w in weekdays ==> !(0 <= w <= 6)
  {
    if SelectedDays(weekdays) != [] { assert SelectedDays(weekdays)[0] in SelectedDays(weekdays); }
  }

  /** It throws for a schedule that is not Fixed, is incomplete, or has weekdays and a number out of range. */
  predicate WhyNoAnchor(cfg: Config, n: int, r: Result<Time, Failure>) {
    && (r == Err(NotFixed) <==> cfg.recurrenceType != Fixed)
    && (r == Err(Incomplete) <==>
          cfg.recurrenceType == Fixed
          && (cfg.anchorDate.None? || cfg.intervalUnit.None? || cfg.intervalCount.None?
              || cfg.intervalCount.value == 0))
    && (r == Err(SeqOutOfRange) ==> cfg.intervalUnit == Some(WeekUnit) && cfg.weekdays != [] && !(1 <= n <= 200_000))
  }

  lemma NoAnchorMeans(cfg: Config, n: int)
    ensures WhyNoAnchor(cfg, n, FixedAnchor(cfg, n))
  {
    if Complete(cfg) && ByWeekday(cfg) && 1 <= n <= 200_000 { NthWeekdayAnchor(cfg, n); }
  }

  method FixedAnchorForSeq(cfg: Config, n: int) returns (r: Result<Time, Failure>)
    ensures r == FixedAnchor(cfg, n)
    ensures r.Ok? ==> Complete(cfg)
                      && ((cfg.intervalUnit == Some(WeekUnit) ==> cfg.weekdays == []) ==> IsNthAnchor(cfg, n, r.value))
    ensures WhyNoAnchor(cfg, n, r)
  {
    hide UnitsLater;
    NoAnchorMeans(cfg, n);
    if Complete(cfg) && !ByWeekday(cfg) { NthAnchor(cfg, n); }
    if cfg.recurrenceType != Fixed { return Err(NotFixed); }
    if cfg.anchorDate.None? || cfg.intervalUnit.None? || cfg.intervalCount.None? || cfg.intervalCount.value == 0 {
      return Err(Incomplete);
    }
    if cfg.intervalUnit.value == WeekUnit && |cfg.weekdays| > 0 {
      var t := WeeklyByWeekdayDate(cfg.anchorDate.value, cfg.intervalCount.value, cfg.weekdays, n);
      return if t.Some? then Ok(t.value) else Err(SeqOutOfRange);
    }
    var anchor := StepInterval(cfg.anchorDate.value, cfg.intervalUnit.value, cfg.intervalCount.value * (n - 1));
    r := Ok(anchor);
  }

  predicate SeqAllowed(cfg: Config, n: int, anchor: Time) {
    n >= 1 &&
    match cfg.endType
    case AfterOccurrences => cfg.maxOccurrences.Some? && n <= cfg.maxOccurrences.value
    case OnDate => cfg.endDate.Some? && anchor <= cfg.endDate.value
    case Never => true
  }

  /** When an occurrence becomes eligible: its earliest date less the lead time. */
  function EligibleAt(anchor: Time, offsetDays: int, leadDays: int): Time {
    AddDays(anchor, offsetDays) - leadDays * 86_400_000
  }

  predicate IsWithinLeadTime(anchor: Time, leadDays: int, now: Time, offsetDays: int) {
    now >= AddDays(anchor, offsetDays) - leadDays * 86_400_000
  }

  lemma MultiplesIncrease(c: nat, a: int, b: int)
    requires c >= 1 && a < b
    ensures c * a < c * b
  {
    assert c * b - c * a == c * (b - a) && c * (b - a) >= 1;
  }

  /** Every complete schedule has an anchor for each number up to the walks' cap, and anchors strictly increase. */
  lemma AnchorsIncrease(cfg: Config, a: int, b: int)
    requires Complete(cfg) && 1 <= a <= b <= WEEK_CAP
    ensures FixedAnchor(cfg, a).Ok? && FixedAnchor(cfg, b).Ok?
    ensures a < b ==> FixedAnchor(cfg, a).value < FixedAnchor(cfg, b).value
  {
    hide WeeklyOffset, AddMonths, StartOfUtcDay;
    var anchor, count := cfg.anchorDate.value, cfg.intervalCount.value;
    if ByWeekday(cfg) {
      WeeklyInRange(Day(StartOfUtcDay(anchor)), count, cfg.weekdays, a);
      WeeklyInRange(Day(StartOfUtcDay(anchor)), count, cfg.weekdays, b);
      if a < b { WeeklyIncreases(anchor, count, cfg.weekdays, a, b); }
    } else if a < b {
      MultiplesIncrease(count, a - 1, b - 1);
      var m, n := count * (a - 1), count * (b - 1);
      match cfg.intervalUnit.value
      case DayUnit =>
      case WeekUnit =>
      case MonthUnit => AddMonthsIncreases(anchor, m, n);
      case YearUnit => AddMonthsIncreases(anchor, m * 12, n * 12);
    }
  }

  predicate StepsByMonths(cfg: Config)
    requires Complete(cfg)
  {
    cfg.intervalUnit.value == MonthUnit || cfg.intervalUnit.value == YearUnit
  }

  /** Occurrence 1 is the anchor date itself, for every schedule but a monthly one anchored on 29 February of year 0. */
  lemma FirstAnchor(cfg: Config)
    requires Complete(cfg)
    ensures FixedAnchor(cfg, 1) == Ok(cfg.anchorDate.value) <==>
            !(StepsByMonths(cfg) && MonthOf(Day(cfg.anchorDate.value)) == 1
              && DayOfMonth(Day(cfg.anchorDate.value)) >= 29)
  {
    hide AddMonths, MonthStart, FindMonth, MonthLength, MonthOf;
    if StepsByMonths(cfg) { AddNoMonths(cfg.anchorDate.value); }
  }

  lemma AddNoMonths(t: Time)
    ensures AddMonths(t, 0) == t <==> !(MonthOf(Day(t)) == 1 && DayOfMonth(Day(t)) >= 29)
  {
    hide AddMonths, MonthStart, FindMonth, MonthLength, MonthOf;
    AddMonthsLands(t, 0);
    AddMonthsClamps(t, 0);
    DayReads(Day(t));
    DayReads(Day(AddMonths(t, 0)));
    AtDay(t);
    AtDay(AddMonths(t, 0));
    LengthReadIsRight(1);
    DayFits(Day(t));
  }

  lemma DayFits(day: int)
    ensures DayOfMonth(day) <= MonthLength(MonthOf(day))
  {}

  // ----- The walks -----

  /** Sequence number n is scheduled, permitted by the end condition, and inside the lead window. */
  ghost predicate IsScheduled(cfg: Config, n: int) {
    1 <= n <= WALK_CAP && FixedAnchor(cfg, n).Ok? && SeqAllowed(cfg, n, FixedAnchor(cfg, n).value)
  }

  ghost predicate IsDue(cfg: Config, n: int, now: Time, leadDays: int, offsetDays: int) {
    IsScheduled(cfg, n) && IsWithinLeadTime(FixedAnchor(cfg, n).value, leadDays, now, offsetDays)
  }

  /** A series limited to k occurrences has exactly the first k, one with an end date exactly those anchored by then. */
  lemma EndConditions(cfg: Config, n: int)
    requires Complete(cfg)
    ensures cfg.endType == AfterOccurrences && cfg.maxOccurrences.Some? ==>
              (IsScheduled(cfg, n) <==> 1 <= n <= 100_000 && n <= cfg.maxOccurrences.value)
    ensures cfg.endType == OnDate && cfg.endDate.Some? && 1 <= n <= 100_000 ==>
              (IsScheduled(cfg, n) <==> FixedAnchor(cfg, n).Ok? && FixedAnchor(cfg, n).value <= cfg.endDate.value)
    ensures cfg.endType == Never ==> (IsScheduled(cfg, n) <==> 1 <= n <= 100_000)
  {
    hide FixedAnchor;
    if 1 <= n <= WALK_CAP { AnchorsIncrease(cfg, n, n); }
  }

  /** What holds of a number holds of every smaller one: the reason both walks may stop early. */
  lemma EarlierToo(cfg: Config, n: int, m: int)
    requires Complete(cfg) && 1 <= m <= n <= WALK_CAP
    ensures IsScheduled(cfg, n) ==> IsScheduled(cfg, m)
    ensures forall now, lead, off :: IsDue(cfg, n, now, lead, off) ==> IsDue(cfg, m, now, lead, off)
  {
    hide FixedAnchor;
    AnchorsIncrease(cfg, m, n);
  }

  ghost predicate StrictlyAscending(s: seq<nat>) {
    forall i, j :: 0 <= i < j < |s| ==> s[i] < s[j]
  }

  method DueFixedSeqs(cfg: Config, fired: set<nat>, now: Time, leadDays: int, offsetDays: int)
    returns (r: Result<seq<nat>, Failure>)
    ensures cfg.recurrenceType != Fixed ==> r == Ok([])
    ensures cfg.recurrenceType == Fixed ==> (r.Ok? <==> Complete(cfg)) && (r.Err? ==> r == Err(Incomplete))
    // exactly the due, unfired numbers, in order
    ensures Complete(cfg) ==>
              && StrictlyAscending(r.value)
              && forall n: nat :: n in r.value <==> IsDue(cfg, n, now, leadDays, offsetDays) && n !in fired
  {
    hide FixedAnchor, SeqAllowed, IsWithinLeadTime;
    if cfg.recurrenceType != Fixed { return Ok([]); }
    var out := [];
    var n: nat := 1;
    while n <= WALK_CAP
      invariant 1 <= n <= WALK_CAP + 1
      invariant n > 1 ==> Complete(cfg)
      invariant StrictlyAscending(out)
      invariant forall m: nat :: m in out <==> m < n && IsDue(cfg, m, now, leadDays, offsetDays) && m !in fired
    {
      var anchor := FixedAnchorForSeq(cfg, n);
      AnchorOrIncomplete(cfg, n);
      if anchor.Err? { return Err(anchor.error); }
      var allowed := SeqAllowed(cfg, n, anchor.value);
      var within := IsWithinLeadTime(anchor.value, leadDays, now, offsetDays);
      if !allowed || !within {
        assert !IsDue(cfg, n, now, leadDays, offsetDays);
        forall m | m >= n ensures !IsDue(cfg, m, now, leadDays, offsetDays) {
          if m <= WALK_CAP { EarlierToo(cfg, m, n); }
        }
        return Ok(out);
      }
      assert forall i :: 0 <= i < |out| ==> out[i] in out;
      if n !in fired { out := out + [n]; }
      n := n + 1;
    }
    r := Ok(out);
  }

  lemma AnchorOrIncomplete(cfg: Config, n: int)
    requires cfg.recurrenceType == Fixed && 1 <= n <= WALK_CAP
    ensures if Complete(cfg) then FixedAnchor(cfg, n).Ok? else FixedAnchor(cfg, n) == Err(Incomplete)
  {
    hide WeeklyDate, AddInterval;
    if Complete(cfg) { AnchorsIncrease(cfg, n, n); }
  }

  datatype Upcoming = Upcoming(n: nat, anchor: Time)

  /** out lists only scheduled, unfired numbers with their anchors, in order. */
  ghost predicate Lists(cfg: Config, fired: set<nat>, out: seq<Upcoming>) {
    && (forall i, j :: 0 <= i < j < |out| ==> out[i].n < out[j].n)
    && forall i :: 0 <= i < |out| ==>
         IsScheduled(cfg, out[i].n) && out[i].n !in fired && FixedAnchor(cfg, out[i].n) == Ok(out[i].anchor)
  }

  ghost predicate Listed(out: seq<Upcoming>, n: nat) {
    exists i :: 0 <= i < |out| && out[i].n == n
  }

  method UpcomingFixedSeqs(cfg: Config, fired: set<nat>) returns (r: Result<seq<Upcoming>, Failure>)
    ensures cfg.recurrenceType != Fixed ==> r == Ok([])
    ensures cfg.recurrenceType == Fixed ==> (r.Ok? <==> Complete(cfg)) && (r.Err? ==> r == Err(Incomplete))
    ensures Complete(cfg) ==> IsPreview(cfg, fired, r.value)
  {
    hide FixedAnchor, SeqAllowed;
    if cfg.recurrenceType != Fixed { return Ok([]); }
    var out := [];
    var n: nat := 1;
    while n <= WALK_CAP
      invariant 1 <= n <= WALK_CAP + 1
      invariant n > 1 ==> Complete(cfg)
      invariant Lists(cfg, fired, out)
      invariant forall i :: 0 <= i < |out| ==> out[i].n < n
      invariant forall m :: m < n && IsScheduled(cfg, m) && m !in fired ==> Listed(out, m)
      invariant cfg.endType == Never ==> |out| < GHOST_HORIZON
    {
      var anchor := FixedAnchorForSeq(cfg, n);
      AnchorOrIncomplete(cfg, n);
      if anchor.Err? { return Err(anchor.error); }
      var allowed := SeqAllowed(cfg, n, anchor.value);
      if !allowed {
        forall m | m >= n ensures !IsScheduled(cfg, m) {
          if m <= WALK_CAP { EarlierToo(cfg, m, n); }
        }
        return Ok(out);
      }
      if n !in fired {
        ghost var before := out;
        out := out + [Upcoming(n, anchor.value)];
        assert out[|before|].n == n;
        assert forall m :: Listed(before, m) ==> Listed(out, m) by {
          forall m | Listed(before, m) ensures Listed(out, m) {
            var i :| 0 <= i < |before| && before[i].n == m;
            assert out[i].n == m;
          }
        }
        if cfg.endType == Never && |out| >= GHOST_HORIZON { return Ok(out); }
      }
      n := n + 1;
    }
    r := Ok(out);
  }

  /**
   The ghost preview: the smallest scheduled, unfired numbers. Anything left out is later than
   everything listed, and then the series never ends and the horizon is full.
   */
  ghost predicate IsPreview(cfg: Config, fired: set<nat>, out: seq<Upcoming>) {
    && Lists(cfg, fired, out)
    && (cfg.endType == Never ==> |out| <= 24)
    && forall n :: IsScheduled(cfg, n) && n !in fired && !Listed(out, n) ==>
         cfg.endType == Never && |out| == 24 && forall i :: 0 <= i < |out| ==> out[i].n < n
  }
}
