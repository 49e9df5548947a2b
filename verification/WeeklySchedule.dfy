/**
 The weekly "repeat on" enumeration. Occurrence 1 is the anchor itself; after it come the selected
 weekdays of every interval-th week from the anchor's week, counted strictly after the anchor's day.
 */
module WeeklySchedule {
  import opened Wrappers
  import opened Entities
  import opened Calendar

  const WEEK_CAP: nat := 200_000

  /** Keeping the valid weekdays once each, ascending. */
  function SelectedDays(weekdays: seq<int>): (days: seq<int>)
    ensures forall w :: w in days <==> 0 <= w <= 6 && w in weekdays
    ensures forall i, j :: 0 <= i < j < |days| ==> days[i] < days[j]
  {
    SelectedFrom(weekdays, 0)
  }

  function SelectedFrom(weekdays: seq<int>, w: nat): (days: seq<int>)
    requires w <= 7
    ensures forall v :: v in days <==> w <= v <= 6 && v in weekdays
    ensures forall i, j :: 0 <= i < j < |days| ==> days[i] < days[j]
    decreases 7 - w
  {
    if w == 7 then []
    else
      var rest := SelectedFrom(weekdays, w + 1);
      assert forall j :: 0 <= j < |rest| ==> rest[j] in rest;
      if w in weekdays then [w] + rest else rest
  }

  function StartOfUtcDay(t: Time): Time {
    DateUtc(MonthOf(Day(t)), 0, DayOfMonth(Day(t)))
  }

  /** x is a whole number of intervals: 0, i, 2 * i, ... */
  predicate Whole(x: int, i: int)
    requires i >= 1
    decreases x
  {
    if x < i then x == 0 else Whole(x - i, i)
  }

  lemma {:induction false} WholeIsMultiple(x: int, i: int)
    requires i >= 1
    ensures Whole(x, i) <==> x >= 0 && x % i == 0
    decreases x
  {
    if x >= i {
      WholeIsMultiple(x - i, i);
      ModPlusSelf(x - i, i);
    } else if x >= 0 {
      ModSmall(x, i);
    }
  }

  lemma ModSmall(x: int, i: int)
    requires 0 <= x < i
    ensures x % i == x
  {}

  lemma ModPlusSelf(x: int, i: int)
    requires i >= 1 && x >= 0
    ensures (x + i) % i == x % i
  {
    var q, r := x / i, x % i;
    assert x + i == i * (q + 1) + r;
    var q', r' := (x + i) / i, (x + i) % i;
    assert i * (q + 1 - q') == r' - r;
    SmallMultiple(i, q + 1 - q');
  }

  lemma SmallMultiple(i: int, d: int)
    requires i >= 1 && -i < i * d < i
    ensures d == 0
  {}

  /** Days of a week that is a whole number of intervals on from the anchor's week. */
  predicate InVisitedWeek(anchorDay: int, interval: int, d: int)
    requires interval >= 1
  {
    Whole(Week(d) - Week(anchorDay), interval)
  }

  predicate OnSchedule(anchorDay: int, interval: int, weekdays: seq<int>, d: int)
    requires interval >= 1
  {
    Weekday(d) in weekdays && InVisitedWeek(anchorDay, interval, d)
  }

  /** How many schedule days lie in [lo, hi). */
  ghost function CountDays(anchorDay: int, interval: int, weekdays: seq<int>, lo: int, hi: int): nat
    requires interval >= 1
    decreases hi - lo
  {
    if hi <= lo then 0
    else CountDays(anchorDay, interval, weekdays, lo, hi - 1)
         + if OnSchedule(anchorDay, interval, weekdays, hi - 1) then 1 else 0
  }

  /** d is the k-th schedule day strictly after the anchor's day. */
  ghost predicate IsNthDay(anchorDay: int, interval: int, weekdays: seq<int>, k: int, d: int)
    requires interval >= 1
  {
    && d > anchorDay
    && OnSchedule(anchorDay, interval, weekdays, d)
    && CountDays(anchorDay, interval, weekdays, anchorDay + 1, d) == k - 1
  }

  lemma {:induction false} CountMonotone(a: int, i: int, ws: seq<int>, lo: int, hi: int, later: int)
    requires i >= 1 && hi <= later
    ensures CountDays(a, i, ws, lo, hi) <= CountDays(a, i, ws, lo, later)
    decreases later - hi
  {
    if hi < later { CountMonotone(a, i, ws, lo, hi, later - 1); }
  }

  lemma {:induction false} CountGap(a: int, i: int, ws: seq<int>, lo: int, hi: int, later: int)
    requires i >= 1 && hi <= later
    requires forall d :: hi <= d < later ==> !OnSchedule(a, i, ws, d)
    ensures CountDays(a, i, ws, lo, hi) == CountDays(a, i, ws, lo, later)
    decreases later - hi
  {
    if hi < later { CountGap(a, i, ws, lo, hi, later - 1); }
  }

  /** Larger numbers name later days: nothing is skipped, repeated or out of order. */
  lemma NthDaysIncrease(a: int, i: int, ws: seq<int>, k: int, d: int, k': int, d': int)
    requires i >= 1 && IsNthDay(a, i, ws, k, d) && IsNthDay(a, i, ws, k', d')
    ensures k < k' <==> d < d'
    ensures k == k' <==> d == d'
  {
    if d < d' { CountMonotone(a, i, ws, a + 1, d + 1, d'); }
    if d' < d { CountMonotone(a, i, ws, a + 1, d' + 1, d); }
  }

  // ----- One visited week -----

  /** A Sunday the enumeration stops at. */
  predicate IsBase(anchorDay: int, interval: int, base: int)
    requires interval >= 1
  {
    Weekday(base) == 0 && InVisitedWeek(anchorDay, interval, base)
  }

  lemma WithinWeek(base: int, w: int)
    requires Weekday(base) == 0 && 0 <= w <= 6
    ensures Weekday(base + w) == w && Week(base + w) == Week(base)
  {}

  lemma {:induction false} BetweenIsNotWhole(x: int, i: int, off: int)
    requires i >= 1 && Whole(x, i) && 0 < off < i
    ensures !Whole(x + off, i)
    decreases x
  {
    if x >= i { BetweenIsNotWhole(x - i, i, off); }
  }

  lemma NextBase(a: int, i: int, base: int)
    requires i >= 1 && IsBase(a, i, base)
    ensures IsBase(a, i, base + 7 * i)
  {
    assert Week(base + 7 * i) == Week(base) + i;
    assert Week(base) >= Week(a);
  }

  lemma LaterInGap(a: int, i: int, base: int, d: int)
    requires i >= 1 && IsBase(a, i, base) && base + 7 <= d < base + 7 * i
    ensures !InVisitedWeek(a, i, d)
  {
    var x, off := Week(base) - Week(a), Week(d) - Week(base);
    assert 0 < off < i && Week(d) - Week(a) == x + off;
    BetweenIsNotWhole(x, i, off);
  }

  lemma OnScheduleInWeek(a: int, i: int, ws: seq<int>, base: int, d: int)
    requires i >= 1 && IsBase(a, i, base) && base <= d < base + 7 * i
    ensures OnSchedule(a, i, ws, d) <==> d < base + 7 && d - base in SelectedDays(ws)
  {
    hide SelectedDays;
    if d < base + 7 {
      WithinWeek(base, d - base);
    } else {
      LaterInGap(a, i, base, d);
    }
  }

  /** Where the enumeration stands in a week before looking at its j-th selected day. */
  function Reached(days: seq<int>, base: int, j: nat): int
    requires j <= |days|
  {
    base + if j == 0 then 0 else days[j - 1] + 1
  }

  ghost predicate Ascending(days: seq<int>) {
    forall i, j :: 0 <= i < j < |days| ==> days[i] < days[j]
  }

  /** No selected day lies between two neighbours, nor after the last. */
  lemma NothingBetween(days: seq<int>, j: nat, v: int)
    requires Ascending(days) && j <= |days|
    requires (j > 0 ==> days[j - 1] < v) && (j < |days| ==> v < days[j])
    ensures v !in days
  {
  }

  /** From where the enumeration stands up to its next stop nothing is on the schedule. */
  lemma QuietUpTo(a: int, i: int, ws: seq<int>, base: int, j: nat, stop: int)
    requires i >= 1 && IsBase(a, i, base) && j <= |SelectedDays(ws)|
    requires stop == if j < |SelectedDays(ws)| then base + SelectedDays(ws)[j] else base + 7 * i
    ensures var p := Reached(SelectedDays(ws), base, j);
            p <= stop && CountDays(a, i, ws, a + 1, p) == CountDays(a, i, ws, a + 1, stop)
  {
    hide OnSchedule, CountDays, IsBase, SelectedDays;
    var days := SelectedDays(ws);
    var p := Reached(days, base, j);
    assert (j > 0 ==> days[j - 1] in days) && (j < |days| ==> days[j] in days);
    forall e | p <= e < stop ensures !OnSchedule(a, i, ws, e) {
      OnScheduleInWeek(a, i, ws, base, e);
      NothingBetween(days, j, e - base);
    }
    CountGap(a, i, ws, a + 1, p, stop);
  }

  lemma DayAfter(a: int, i: int, ws: seq<int>, base: int, j: nat)
    requires i >= 1 && IsBase(a, i, base) && j < |SelectedDays(ws)|
    ensures var p, d := Reached(SelectedDays(ws), base, j), base + SelectedDays(ws)[j];
            && OnSchedule(a, i, ws, d)
            && CountDays(a, i, ws, a + 1, p) == CountDays(a, i, ws, a + 1, d)
            && CountDays(a, i, ws, a + 1, d + 1) == CountDays(a, i, ws, a + 1, d) + if d > a then 1 else 0
  {
    hide OnSchedule;
    var d := base + SelectedDays(ws)[j];
    assert SelectedDays(ws)[j] in SelectedDays(ws);
    QuietUpTo(a, i, ws, base, j, d);
    OnScheduleInWeek(a, i, ws, base, d);
  }

  // ----- The enumeration -----

  /** Sunday of the anchor's week, c intervals on. */
  function WeekBase(anchorDay: int, interval: int, c: nat): int {
    if c == 0 then anchorDay - Weekday(anchorDay) else WeekBase(anchorDay, interval, c - 1) + 7 * interval
  }

  /** The form the source computes it in. */
  function VisitedSunday(anchorDay: int, interval: int, c: int): int {
    anchorDay - Weekday(anchorDay) + c * interval * 7
  }

  lemma {:induction false} WeekBaseIs(a: int, i: int, c: nat)
    ensures VisitedSunday(a, i, c) == WeekBase(a, i, c)
    decreases c
  {
    if c > 0 {
      WeekBaseIs(a, i, c - 1);
      assert c * i * 7 == (c - 1) * i * 7 + i * 7;
    } else {
      assert c * i * 7 == 0;
    }
  }

  lemma {:induction false} WeekBaseIsBase(a: int, i: int, c: nat)
    requires i >= 1
    ensures IsBase(a, i, WeekBase(a, i, c))
    ensures c >= 1 ==> WeekBase(a, i, c) > a
    decreases c
  {
    if c == 0 {
      assert Week(WeekBase(a, i, 0)) == Week(a);
    } else {
      WeekBaseIsBase(a, i, c - 1);
      NextBase(a, i, WeekBase(a, i, c - 1));
    }
  }

  lemma WeekBaseStep(a: int, i: int, c: nat)
    ensures WeekBase(a, i, c + 1) == WeekBase(a, i, c) + 7 * i
  {}

  lemma {:induction false} WeekBaseIncreases(a: int, i: int, c: nat, c': nat)
    requires i >= 1 && c <= c'
    ensures WeekBase(a, i, c) + 7 * (c' - c) <= WeekBase(a, i, c')
    decreases c' - c
  {
    if c < c' {
      WeekBaseIncreases(a, i, c, c' - 1);
    }
  }

  // ----- The schedule, day by day -----

  /** Weekday w of the week k intervals after the anchor's. */
  predicate IsThatDay(anchorDay: int, interval: int, k: nat, w: int, d: int) {
    d == anchorDay - Weekday(anchorDay) + 7 * interval * k + w
  }

  /** The schedule holds the selected weekdays of every interval-th week from the anchor's on, and no other day. */
  lemma ScheduleIs(a: int, i: int, ws: seq<int>, d: int)
    requires i >= 1
    ensures OnSchedule(a, i, ws, d) <==> exists k: nat, w :: 0 <= w <= 6 && w in ws && IsThatDay(a, i, k, w, d)
  {
    hide Whole, IsThatDay, Week, Weekday;
    if OnSchedule(a, i, ws, d) {
      WholeIsMultiple(Week(d) - Week(a), i);
      var k: nat := (Week(d) - Week(a)) / i;
      WeeksOn(a, i, k, d);
    }
    if k: nat, w :| 0 <= w <= 6 && w in ws && IsThatDay(a, i, k, w, d) {
      VisitedDay(a, i, k, w, d);
    }
  }

  lemma WeeksOn(a: int, i: int, k: nat, d: int)
    requires i >= 1 && Week(d) - Week(a) >= 0 && (Week(d) - Week(a)) % i == 0 && k == (Week(d) - Week(a)) / i
    ensures 0 <= Weekday(d) <= 6 && IsThatDay(a, i, k, Weekday(d), d)
  {
    var apart := Week(d) - Week(a);
    assert apart == i * k;
    WholeWeeks(a, d, apart);
    assert 7 * i * k == 7 * (i * k);
  }

  lemma WholeWeeks(a: int, d: int, apart: int)
    requires Week(d) - Week(a) == apart
    ensures 0 <= Weekday(d) <= 6 && d == a - Weekday(a) + 7 * apart + Weekday(d)
  {}

  lemma VisitedDay(a: int, i: int, k: nat, w: int, d: int)
    requires i >= 1 && 0 <= w <= 6 && IsThatDay(a, i, k, w, d)
    ensures Weekday(d) == w && InVisitedWeek(a, i, d)
  {
    hide Week, Weekday, Whole;
    assert d == VisitedSunday(a, i, k) + w by { assert 7 * i * k == k * i * 7; }
    WeekBaseIs(a, i, k);
    WeekBaseIsBase(a, i, k);
    WithinWeek(WeekBase(a, i, k), w);
  }

  ghost function DaysBetween(a: int, i: int, ws: seq<int>, lo: int, hi: int): set<int>
    requires i >= 1
  {
    set d | lo <= d < hi && OnSchedule(a, i, ws, d)
  }

  lemma {:induction false} CountIsSize(a: int, i: int, ws: seq<int>, lo: int, hi: int)
    requires i >= 1
    ensures CountDays(a, i, ws, lo, hi) == |DaysBetween(a, i, ws, lo, hi)|
    decreases hi - lo
  {
    hide OnSchedule;
    if hi > lo {
      CountIsSize(a, i, ws, lo, hi - 1);
      var last := if OnSchedule(a, i, ws, hi - 1) then {hi - 1} else {};
      assert DaysBetween(a, i, ws, lo, hi) == DaysBetween(a, i, ws, lo, hi - 1) + last;
    }
  }

  /** Number n is the schedule day after the anchor with n - 2 schedule days between the two. */
  lemma NthDayIs(a: int, i: int, ws: seq<int>, n: int, d: int)
    requires i >= 1
    ensures IsNthDay(a, i, ws, n - 1, d) <==>
              d > a && OnSchedule(a, i, ws, d) && |DaysBetween(a, i, ws, a + 1, d)| == n - 2
  {
    CountIsSize(a, i, ws, a + 1, d);
  }

  /** d is the day of sequence number n, within the weeks the enumeration visits before giving up. */
  ghost predicate InRange(anchorDay: int, interval: int, weekdays: seq<int>, n: int, d: int)
    requires interval >= 1
  {
    IsNthDay(anchorDay, interval, weekdays, n - 1, d) && d < WeekBase(anchorDay, interval, WEEK_CAP)
  }

  /** How many days after the anchor's day sequence number n falls, if the enumeration gets there. */
  ghost function WeeklyOffset(anchorDay: int, interval: int, weekdays: seq<int>, n: int): Option<int>
    requires interval >= 1
  {
    if n == 1 then Some(0)
    else if SelectedDays(weekdays) == [] then Some(interval * 7 * (n - 1))
    else if exists d :: InRange(anchorDay, interval, weekdays, n, d) then
      var d :| InRange(anchorDay, interval, weekdays, n, d);
      Some(d - anchorDay)
    else None
  }

  lemma Found(a: int, i: int, ws: seq<int>, n: int, d: int)
    requires i >= 1 && n != 1 && SelectedDays(ws) != [] && InRange(a, i, ws, n, d)
    ensures WeeklyOffset(a, i, ws, n) == Some(d - a)
  {
    hide OnSchedule, WeekBase, CountDays, SelectedDays;
    forall e | InRange(a, i, ws, n, e) ensures e == d { NthDaysIncrease(a, i, ws, n - 1, d, n - 1, e); }
  }

  lemma NotFound(a: int, i: int, ws: seq<int>, n: int)
    requires i >= 1 && n != 1 && SelectedDays(ws) != []
    requires n >= 2 ==> CountDays(a, i, ws, a + 1, WeekBase(a, i, WEEK_CAP)) < n - 1
    ensures WeeklyOffset(a, i, ws, n) == None
  {
    hide OnSchedule, WeekBase;
    forall d ensures !InRange(a, i, ws, n, d) {
      if InRange(a, i, ws, n, d) {
        CountMonotone(a, i, ws, a + 1, d + 1, WeekBase(a, i, WEEK_CAP));
      }
    }
  }

  /** One week of the enumeration: the selected days in order, until the wanted one. */
  method ScanWeek(a: int, i: nat, ws: seq<int>, n: int, base: int, before: nat) returns (count: nat, found: Option<int>)
    requires i >= 1 && n != 1 && IsBase(a, i, base)
    requires before == CountDays(a, i, ws, a + 1, base) && (n >= 2 ==> before < n - 1)
    ensures found.Some? ==> IsNthDay(a, i, ws, n - 1, found.value) && found.value < base + 7
    ensures found.None? ==>
              && count == CountDays(a, i, ws, a + 1, base + 7 * i)
              && (n >= 2 ==> count < n - 1)
              && (base > a && SelectedDays(ws) != [] ==> before < count)
              && before <= count
  {
    hide OnSchedule, IsBase, SelectedDays, CountDays;
    var days := SelectedDays(ws);
    count := before;
    var j: nat := 0;
    while j < |days|
      invariant j <= |days|
      invariant count == CountDays(a, i, ws, a + 1, Reached(days, base, j))
      invariant n >= 2 ==> count < n - 1
      invariant before <= count && (base > a && j > 0 ==> before < count)
    {
      DayAfter(a, i, ws, base, j);
      assert days[j] in days;
      var d := base + days[j];
      if d > a {
        count := count + 1;
        if count == n - 1 { return count, Some(d); }
      }
      j := j + 1;
    }
    QuietUpTo(a, i, ws, base, |days|, base + 7 * i);
    found := None;
  }

  lemma NothingBeforeAnchorWeek(a: int, i: int, ws: seq<int>)
    requires i >= 1
    ensures CountDays(a, i, ws, a + 1, WeekBase(a, i, 0)) == 0
  {}

  lemma FoundInWeek(a: int, i: nat, ws: seq<int>, n: int, c: nat, d: int)
    requires i >= 1 && n != 1 && SelectedDays(ws) != [] && c < WEEK_CAP
    requires IsNthDay(a, i, ws, n - 1, d) && d < WeekBase(a, i, c) + 7
    ensures WeeklyOffset(a, i, ws, n) == Some(d - a)
  {
    hide OnSchedule, IsNthDay, SelectedDays, CountDays, WeekBase, WeeklyOffset;
    WeekBaseIncreases(a, i, c, WEEK_CAP);
    Found(a, i, ws, n, d);
  }

  /** The enumeration itself, in days from the anchor's day. */
  method EnumerateWeeks(a: int, i: nat, ws: seq<int>, n: int) returns (r: Option<int>)
    requires i >= 1 && n != 1 && SelectedDays(ws) != []
    ensures r == WeeklyOffset(a, i, ws, n)
    ensures 1 <= n <= WEEK_CAP ==> r.Some?
  {
    hide *;
    NothingBeforeAnchorWeek(a, i, ws);
    var count: nat := 0;
    var c: nat := 0;
    while c < WEEK_CAP
      invariant c <= WEEK_CAP
      invariant count == CountDays(a, i, ws, a + 1, WeekBase(a, i, c))
      invariant n >= 2 ==> count < n - 1
      invariant c <= count + 1
    {
      var base := VisitedSunday(a, i, c);
      WeekBaseIs(a, i, c);
      WeekBaseIsBase(a, i, c);
      var found;
      count, found := ScanWeek(a, i, ws, n, base, count);
      if found.Some? {
        FoundInWeek(a, i, ws, n, c, found.value);
        return Some(found.value - a);
      }
      WeekBaseStep(a, i, c);
      c := c + 1;
    }
    NotFound(a, i, ws, n);
    r := None;
  }

  /** Sequence number n of the weekly schedule; the anchor's time of day is kept. */
  ghost function WeeklyDate(anchor: Time, interval: nat, weekdays: seq<int>, n: int): Option<Time>
    requires interval >= 1
  {
    match WeeklyOffset(Day(StartOfUtcDay(anchor)), interval, weekdays, n)
    case Some(days) => Some(anchor + days * 86_400_000)
    case None => None
  }

  method WeeklyByWeekdayDate(anchor: Time, interval: nat, weekdays: seq<int>, n: int) returns (r: Option<Time>)
    requires interval >= 1
    ensures r == WeeklyDate(anchor, interval, weekdays, n)
    ensures 1 <= n <= WEEK_CAP ==> r.Some?
  {
    hide StartOfUtcDay, Day, WeeklyOffset, SelectedDays;
    WithoutEnumeration(Day(StartOfUtcDay(anchor)), interval, weekdays, n);
    if n == 1 { return Some(anchor); }
    var days := SelectedDays(weekdays);
    if |days| == 0 {
      var step := interval * 7 * (n - 1);
      return Some(anchor + step * 86_400_000);
    }
    MidnightIsWholeDay(anchor);
    var anchorDay := Day(StartOfUtcDay(anchor));
    var timeOfDay := anchor - StartOfUtcDay(anchor);
    var offset := EnumerateWeeks(anchorDay, interval, weekdays, n);
    if offset.None? { return None; }
    r := Some(At(anchorDay + offset.value, 0) + timeOfDay);
  }

  lemma WithoutEnumeration(a: int, i: nat, ws: seq<int>, n: int)
    requires i >= 1
    ensures n == 1 ==> WeeklyOffset(a, i, ws, n) == Some(0)
    ensures n != 1 && SelectedDays(ws) == [] ==> WeeklyOffset(a, i, ws, n) == Some(i * 7 * (n - 1))
  {
    hide SelectedDays;
  }

  lemma MidnightIsWholeDay(t: Time)
    ensures StartOfUtcDay(t) == At(Day(StartOfUtcDay(t)), 0)
  {
    hide MonthStart, FindMonth, MonthLength, MonthOf;
  }

  // ----- What the enumeration promises -----

  lemma {:induction false} NthExists(a: int, i: int, ws: seq<int>, k: nat, hi: int)
    requires i >= 1 && k >= 1 && CountDays(a, i, ws, a + 1, hi) >= k
    ensures exists d :: d < hi && IsNthDay(a, i, ws, k, d)
    decreases hi - a
  {
    hide OnSchedule;
    if CountDays(a, i, ws, a + 1, hi - 1) >= k {
      NthExists(a, i, ws, k, hi - 1);
    } else {
      assert IsNthDay(a, i, ws, k, hi - 1);
    }
  }

  /** Every visited week after the first holds a schedule day. */
  lemma {:induction false} OneDayAWeek(a: int, i: int, ws: seq<int>, c: nat)
    requires i >= 1 && SelectedDays(ws) != []
    ensures c <= CountDays(a, i, ws, a + 1, WeekBase(a, i, c)) + 1
    decreases c
  {
    hide OnSchedule, WeekBase, IsBase, SelectedDays;
    if c > 1 {
      OneDayAWeek(a, i, ws, c - 1);
      var base, d := WeekBase(a, i, c - 1), WeekBase(a, i, c - 1) + SelectedDays(ws)[0];
      WeekBaseIsBase(a, i, c - 1);
      WeekBaseStep(a, i, c - 1);
      assert SelectedDays(ws)[0] in SelectedDays(ws);
      OnScheduleInWeek(a, i, ws, base, d);
      CountMonotone(a, i, ws, a + 1, base, d);
      CountMonotone(a, i, ws, a + 1, d + 1, base + 7 * i);
    }
  }

  /** No sequence number up to the cap is out of range. */
  lemma WeeklyInRange(a: int, i: nat, ws: seq<int>, n: int)
    requires i >= 1 && 1 <= n <= 200_000
    ensures WeeklyOffset(a, i, ws, n).Some?
  {
    hide OnSchedule, WeekBase, CountDays;
    if n > 1 && SelectedDays(ws) != [] {
      OneDayAWeek(a, i, ws, WEEK_CAP);
      NthExists(a, i, ws, n - 1, WeekBase(a, i, WEEK_CAP));
      var d :| d < WeekBase(a, i, WEEK_CAP) && IsNthDay(a, i, ws, n - 1, d);
      assert InRange(a, i, ws, n, d);
    }
  }

  /** Sequence number n > 1 is the (n - 1)-th selected day after the anchor's own day, at the anchor's time. */
  ghost predicate IsRight(anchor: Time, i: nat, ws: seq<int>, n: int)
    requires i >= 1
  {
    var r := WeeklyDate(anchor, i, ws, n);
    r.Some? && IsNthDay(Day(anchor), i, ws, n - 1, Day(r.value)) && TimeInDay(r.value) == TimeInDay(anchor)
  }

  predicate AllSeven(ws: seq<int>) { forall w :: 0 <= w <= 6 ==> w in ws }

  /** The anchor's midnight is computed in its own year, or every single day is an occurrence anyway. */
  predicate CountsFromTheAnchor(anchor: Time, i: nat, ws: seq<int>) {
    !TwoDigitYear(MonthOf(Day(anchor))) || (i == 1 && AllSeven(ws))
  }

  /** Every number up to the cap is right exactly outside years 0 to 99, but for the schedule of every day. */
  lemma WeeklyIsTheEnumeration(anchor: Time, i: nat, ws: seq<int>)
    requires i >= 1 && SelectedDays(ws) != []
    ensures (forall n :: 2 <= n <= 200_000 ==> IsRight(anchor, i, ws, n)) <==> CountsFromTheAnchor(anchor, i, ws)
  {
    hide IsRight, SelectedDays, AllSeven;
    var a := Day(anchor);
    MidnightMoved(anchor);
    if !TwoDigitYear(MonthOf(a)) {
      forall n | 2 <= n <= WEEK_CAP ensures IsRight(anchor, i, ws, n) { RightAsComputed(anchor, i, ws, n); }
    } else if !AllSeven(ws) {
      var n := SomeWrongWeekday(anchor, i, ws);
    } else if i > 1 {
      var n := SomeWrongGap(anchor, i, ws);
    } else {
      forall n | 2 <= n <= WEEK_CAP ensures IsRight(anchor, i, ws, n) { EveryDay(anchor, ws, n); }
    }
  }

  /** Where a number lands, and how far that is from the day it was counted to. */
  lemma Lands(anchor: Time, i: nat, ws: seq<int>, n: int) returns (d: int)
    requires i >= 1 && 2 <= n <= WEEK_CAP && SelectedDays(ws) != []
    ensures var u := Day(StartOfUtcDay(anchor));
            && InRange(u, i, ws, n, d) && WeeklyDate(anchor, i, ws, n).Some?
            && Day(WeeklyDate(anchor, i, ws, n).value) == Day(anchor) + (d - u)
            && TimeInDay(WeeklyDate(anchor, i, ws, n).value) == TimeInDay(anchor)
  {
    hide OnSchedule, WeekBase, CountDays, SelectedDays, StartOfUtcDay;
    var u := Day(StartOfUtcDay(anchor));
    WeeklyInRange(u, i, ws, n);
    d :| InRange(u, i, ws, n, d) && WeeklyOffset(u, i, ws, n) == Some(d - u);
    DayMoved(anchor, d - u);
  }

  lemma RightAsComputed(anchor: Time, i: nat, ws: seq<int>, n: int)
    requires i >= 1 && 2 <= n <= WEEK_CAP && SelectedDays(ws) != [] && Day(StartOfUtcDay(anchor)) == Day(anchor)
    ensures IsRight(anchor, i, ws, n)
  {
    hide OnSchedule, WeekBase, CountDays, SelectedDays, StartOfUtcDay, WeeklyDate;
    var d := Lands(anchor, i, ws, n);
  }

  // ----- The first occurrences -----

  lemma {:induction false} CountMore(a: int, i: int, ws: seq<int>, lo: int, hi: int, later: int)
    requires i >= 1 && lo <= hi <= later
    ensures CountDays(a, i, ws, lo, later) <= CountDays(a, i, ws, lo, hi) + (later - hi)
    ensures (forall d :: hi <= d < later ==> OnSchedule(a, i, ws, d)) ==>
              CountDays(a, i, ws, lo, later) == CountDays(a, i, ws, lo, hi) + (later - hi)
    decreases later - hi
  {
    hide OnSchedule;
    if hi < later { CountMore(a, i, ws, lo, hi, later - 1); }
  }

  lemma GapAfter(a: int, i: int, ws: seq<int>, base: int)
    requires i >= 1 && IsBase(a, i, base)
    ensures CountDays(a, i, ws, a + 1, base + 7) == CountDays(a, i, ws, a + 1, base + 7 * i)
  {
    hide OnSchedule, IsBase, CountDays, SelectedDays;
    forall d | base + 7 <= d < base + 7 * i ensures !OnSchedule(a, i, ws, d) { OnScheduleInWeek(a, i, ws, base, d); }
    CountGap(a, i, ws, a + 1, base + 7, base + 7 * i);
  }

  lemma AnchorWeek(a: int, i: int)
    requires i >= 1
    ensures IsBase(a, i, WeekBase(a, i, 0)) && IsBase(a, i, WeekBase(a, i, 1))
    ensures WeekBase(a, i, 0) == a - Weekday(a) && WeekBase(a, i, 1) == a - Weekday(a) + 7 * i
    ensures WeekBase(a, i, 1) + 7 < WeekBase(a, i, WEEK_CAP)
  {
    WeekBaseIsBase(a, i, 0);
    WeekBaseIsBase(a, i, 1);
    WeekBaseIncreases(a, i, 1, WEEK_CAP);
  }

  /** A day of the second visited week is an occurrence with a small number. */
  lemma SecondWeek(u: int, i: nat, ws: seq<int>, w: int) returns (n: int)
    requires i >= 1 && 0 <= w <= 6 && w in ws
    ensures 2 <= n <= WEEK_CAP && InRange(u, i, ws, n, WeekBase(u, i, 1) + w)
  {
    hide CountDays, WeekBase, IsBase, InVisitedWeek;
    AnchorWeek(u, i);
    var base, next, d := WeekBase(u, i, 0), WeekBase(u, i, 1), WeekBase(u, i, 1) + w;
    assert OnSchedule(u, i, ws, d) by {
      assert w in SelectedDays(ws);
      OnScheduleInWeek(u, i, ws, next, d);
    }
    GapAfter(u, i, ws, base);
    NothingBeforeAnchor(u, i, ws);
    CountMore(u, i, ws, u + 1, u + 1, base + 7);
    CountMore(u, i, ws, u + 1, next, d);
    n := CountDays(u, i, ws, u + 1, d) + 2;
  }

  lemma NothingBeforeAnchor(a: int, i: int, ws: seq<int>)
    requires i >= 1
    ensures CountDays(a, i, ws, a + 1, a + 1) == 0
  {}

  /** A number counted to this day and moved elsewhere is right only if that is where it belongs. */
  lemma RightOnlyAt(anchor: Time, i: nat, ws: seq<int>, n: int, d: int)
    requires i >= 1 && 2 <= n <= WEEK_CAP && SelectedDays(ws) != [] && InRange(Day(StartOfUtcDay(anchor)), i, ws, n, d)
    ensures IsRight(anchor, i, ws, n)
            <==> IsNthDay(Day(anchor), i, ws, n - 1, Day(anchor) + (d - Day(StartOfUtcDay(anchor))))
  {
    hide OnSchedule, WeekBase, CountDays, SelectedDays, StartOfUtcDay, WeeklyDate;
    var e := Lands(anchor, i, ws, n);
    NthDaysIncrease(Day(StartOfUtcDay(anchor)), i, ws, n - 1, d, n - 1, e);
  }

  lemma WeekdayMoved(d: int, e: int)
    requires e - d in {693_960, 693_961}
    ensures Weekday(d) == (Weekday(e) + 13 - (e - d - 693_960)) % 7
  {}

  predicate Leaves(ws: seq<int>, k: int, w: int) { 0 <= w <= 6 && w in ws && (w + k) % 7 !in ws }

  /**
   Shifting weekdays back by one or by two leads some selected one to an unselected one, unless all or none are
   selected.
  */
  lemma SomeShiftedOut(ws: seq<int>, k: int) returns (w: int)
    requires k in {12, 13} && SelectedDays(ws) != [] && !AllSeven(ws)
    ensures Leaves(ws, k, w)
  {
    hide SelectedDays;
    assert SelectedDays(ws)[0] in SelectedDays(ws);
    assert Leaves(ws, k, 0) || Leaves(ws, k, 1) || Leaves(ws, k, 2) || Leaves(ws, k, 3)
           || Leaves(ws, k, 4) || Leaves(ws, k, 5) || Leaves(ws, k, 6);
    w :| Leaves(ws, k, w);
  }

  lemma SomeWrongWeekday(anchor: Time, i: nat, ws: seq<int>) returns (n: int)
    requires i >= 1 && SelectedDays(ws) != [] && !AllSeven(ws)
    requires Day(StartOfUtcDay(anchor)) - Day(anchor) in {693_960, 693_961}
    ensures 2 <= n <= WEEK_CAP && !IsRight(anchor, i, ws, n)
  {
    hide SelectedDays, AllSeven, StartOfUtcDay, WeekBase, CountDays, InVisitedWeek, IsRight, Day, Weekday;
    var a, u := Day(anchor), Day(StartOfUtcDay(anchor));
    var w := SomeShiftedOut(ws, 13 - (u - a - 693_960));
    n := SecondWeek(u, i, ws, w);
    var d := WeekBase(u, i, 1) + w;
    AnchorWeek(u, i);
    WithinWeek(WeekBase(u, i, 1), w);
    WeekdayMoved(a + (d - u), d);
    RightOnlyAt(anchor, i, ws, n, d);
  }

  /** With all seven days selected, the days left in the anchor's week come one after the other. */
  lemma RestOfWeek(a: int, i: int, ws: seq<int>, k: int)
    requires i >= 1 && AllSeven(ws) && 1 <= k <= 6 - Weekday(a)
    ensures IsNthDay(a, i, ws, k, a + k)
  {
    hide CountDays, WeekBase;
    AnchorWeek(a, i);
    NothingBeforeAnchor(a, i, ws);
    forall d | a < d <= a + k ensures OnSchedule(a, i, ws, d) { EveryDayInWeek(a, i, ws, WeekBase(a, i, 0), d); }
    CountMore(a, i, ws, a + 1, a + 1, a + k);
  }

  lemma EveryDayInWeek(a: int, i: int, ws: seq<int>, base: int, d: int)
    requires i >= 1 && AllSeven(ws) && IsBase(a, i, base) && base <= d < base + 7
    ensures OnSchedule(a, i, ws, d)
  {
    hide SelectedDays;
    assert d - base in SelectedDays(ws);
    OnScheduleInWeek(a, i, ws, base, d);
  }

  /** The next one begins the next visited week. */
  lemma FirstOfNextWeek(a: int, i: int, ws: seq<int>)
    requires i >= 1 && AllSeven(ws)
    ensures IsNthDay(a, i, ws, 7 - Weekday(a), WeekBase(a, i, 1))
  {
    hide CountDays, WeekBase, IsBase, OnSchedule;
    AnchorWeek(a, i);
    NothingBeforeAnchor(a, i, ws);
    var base := WeekBase(a, i, 0);
    forall d | a < d < base + 7 ensures OnSchedule(a, i, ws, d) { EveryDayInWeek(a, i, ws, base, d); }
    CountMore(a, i, ws, a + 1, a + 1, base + 7);
    GapAfter(a, i, ws, base);
    EveryDayInWeek(a, i, ws, WeekBase(a, i, 1), WeekBase(a, i, 1));
  }

  lemma SomeWrongGap(anchor: Time, i: nat, ws: seq<int>) returns (n: int)
    requires i >= 2 && SelectedDays(ws) != [] && AllSeven(ws)
    requires Day(StartOfUtcDay(anchor)) - Day(anchor) in {693_960, 693_961}
    ensures 2 <= n <= WEEK_CAP && !IsRight(anchor, i, ws, n)
  {
    hide SelectedDays, AllSeven, StartOfUtcDay, WeekBase, CountDays, OnSchedule, IsRight, Day;
    var a, u := Day(anchor), Day(StartOfUtcDay(anchor));
    AnchorWeek(a, i);
    AnchorWeek(u, i);
    WeekdaysDiffer(u, a);
    FirstOfNextWeek(u, i, ws);
    FirstOfNextWeek(a, i, ws);
    if Weekday(u) > Weekday(a) {
      var k := 7 - Weekday(u);
      n := k + 1;
      RestOfWeek(a, i, ws, k);
      RightOnlyAt(anchor, i, ws, n, WeekBase(u, i, 1));
      WrongDay(a, i, ws, k, a + k, a + (WeekBase(u, i, 1) - u));
    } else {
      var k := 7 - Weekday(a);
      n := k + 1;
      RestOfWeek(u, i, ws, k);
      RightOnlyAt(anchor, i, ws, n, u + k);
      WrongDay(a, i, ws, k, WeekBase(a, i, 1), a + k);
    }
  }

  lemma WrongDay(a: int, i: int, ws: seq<int>, k: int, d: int, e: int)
    requires i >= 1 && IsNthDay(a, i, ws, k, d) && d != e
    ensures !IsNthDay(a, i, ws, k, e)
  {
    hide OnSchedule, CountDays;
    if IsNthDay(a, i, ws, k, e) { NthDaysIncrease(a, i, ws, k, d, k, e); }
  }

  lemma EveryDay(anchor: Time, ws: seq<int>, n: int)
    requires AllSeven(ws) && SelectedDays(ws) != [] && 2 <= n <= WEEK_CAP
    ensures IsRight(anchor, 1, ws, n)
  {
    hide SelectedDays, AllSeven, StartOfUtcDay, IsRight, Day, IsNthDay, WeekBase;
    var a, u := Day(anchor), Day(StartOfUtcDay(anchor));
    var d := Lands(anchor, 1, ws, n);
    DayByDay(u, ws, n - 1);
    DayByDay(a, ws, n - 1);
    NthDaysIncrease(u, 1, ws, n - 1, d, n - 1, u + n - 1);
    RightOnlyAt(anchor, 1, ws, n, d);
  }

  lemma DayByDay(a: int, ws: seq<int>, k: int)
    requires AllSeven(ws) && k >= 1
    ensures IsNthDay(a, 1, ws, k, a + k)
  {
    hide CountDays;
    NothingBeforeAnchor(a, 1, ws);
    forall d | a < d <= a + k ensures OnSchedule(a, 1, ws, d) {
      WholeIsMultiple(Week(d) - Week(a), 1);
    }
    CountMore(a, 1, ws, a + 1, a + 1, a + k);
  }

  /**
   With one weekday selected, every later occurrence falls on that weekday exactly when the anchor's year
   is not one of those Date.UTC misreads.
   */
  lemma OneWeekdayIff(anchor: Time, i: nat, w: int, n: int)
    requires i >= 1 && 0 <= w <= 6 && 2 <= n <= WEEK_CAP
    ensures WeeklyDate(anchor, i, [w], n).Some?
    ensures Weekday(Day(WeeklyDate(anchor, i, [w], n).value)) == w <==> !TwoDigitYear(MonthOf(Day(anchor)))
  {
    hide WeeklyOffset, StartOfUtcDay, TwoDigitYear, OnSchedule;
    var a, u := Day(anchor), Day(StartOfUtcDay(anchor));
    var d := OnThatWeekday(u, i, w, n);
    DayMoved(anchor, d - u);
    MidnightMoved(anchor);
    WeekdaysDiffer(d, a + d - u);
  }

  lemma OnThatWeekday(u: int, i: nat, w: int, n: int) returns (d: int)
    requires i >= 1 && 0 <= w <= 6 && 2 <= n <= WEEK_CAP
    ensures WeeklyOffset(u, i, [w], n) == Some(d - u) && Weekday(d) == w
  {
    hide WeekBase, CountDays, InVisitedWeek;
    assert w in SelectedDays([w]);
    WeeklyInRange(u, i, [w], n);
    d :| InRange(u, i, [w], n, d) && WeeklyOffset(u, i, [w], n) == Some(d - u);
  }

  lemma DayMoved(t: Time, days: int)
    ensures Day(t + days * 86_400_000) == Day(t) + days
  {}

  lemma WeekdaysDiffer(d: int, e: int)
    ensures d == e ==> Weekday(d) == Weekday(e)
    ensures d - e in {693_960, 693_961} ==> Weekday(d) != Weekday(e)
  {}

  /** How far from its own day an anchor's midnight is computed. */
  lemma MidnightMoved(t: Time)
    ensures var moved := Day(StartOfUtcDay(t)) - Day(t);
            if TwoDigitYear(MonthOf(Day(t))) then moved in {693_960, 693_961} else moved == 0
  {
    hide MonthStart, FindMonth, MonthLength, MonthOf;
    var a := Day(t);
    DayReads(a);
    DayAt(MakeDay(UtcMonth(MonthOf(a)), DayOfMonth(a)), 0);
    if TwoDigitYear(MonthOf(a)) { NineteenCenturies(MonthOf(a)); }
  }

  /** Dates strictly increase with the sequence number, for every anchor. */
  lemma WeeklyIncreases(anchor: Time, i: nat, ws: seq<int>, n: int, n': int)
    requires i >= 1 && 1 <= n < n'
    requires WeeklyDate(anchor, i, ws, n).Some? && WeeklyDate(anchor, i, ws, n').Some?
    ensures WeeklyDate(anchor, i, ws, n).value < WeeklyDate(anchor, i, ws, n').value
  {
    hide OnSchedule, WeekBase, CountDays, StartOfUtcDay, SelectedDays;
    var a := Day(StartOfUtcDay(anchor));
    OffsetsIncrease(a, i, ws, n, n');
  }

  lemma OffsetsIncrease(a: int, i: nat, ws: seq<int>, n: int, n': int)
    requires i >= 1 && 1 <= n < n' && WeeklyOffset(a, i, ws, n).Some? && WeeklyOffset(a, i, ws, n').Some?
    ensures WeeklyOffset(a, i, ws, n).value < WeeklyOffset(a, i, ws, n').value
  {
    hide OnSchedule, WeekBase, CountDays, SelectedDays;
    if SelectedDays(ws) == [] {
      assert i * (n' - n) >= 1;
      assert i * 7 * (n' - 1) - i * 7 * (n - 1) == 7 * (i * (n' - n));
    } else {
      var d' :| InRange(a, i, ws, n', d') && WeeklyOffset(a, i, ws, n') == Some(d' - a);
      if n > 1 {
        var d :| InRange(a, i, ws, n, d) && WeeklyOffset(a, i, ws, n) == Some(d - a);
        NthDaysIncrease(a, i, ws, n - 1, d, n' - 1, d');
      }
    }
  }
}
