/**
 How late the scheduler is, over runs. First, the copies of tasks that recur on completion, which the next
 wake does not look at: just when one is made on time, and a run in which one is almost six hours late.
 Second, what the "ran late" alert is given when every pass runs at its computed wake: under a minute for
 everything but those copies, and but for copies that were deleted since and are made again.
 */
module SchedulerLateness {
  import opened Wrappers
  import opened Entities
  import opened Calendar
  import opened WeeklySchedule
  import opened Recurrence
  import opened SchedulerPass
  import opened SchedulerRuns

  // ----- When such a copy is on time -----

  /** Something the wake looks at is due before x. */
  ghost predicate AskedBefore(db: SchedulerDb, now: Time, otherWakes: seq<Time>, x: Time)
    reads db
  {
    exists c :: db.Asked(now, otherWakes, c) && c < x
  }

  /** What a pass leaves when nothing threw: nothing overdue, and a wake no later than anything it looks at needs. */
  ghost predicate Rested(db: SchedulerDb, now: Time, otherWakes: seq<Time>, w: Time)
    reads db
  {
    && now + MIN_SLEEP <= w <= now + MAX_SLEEP
    && db.NothingOverdue(now) && db.WakeWanted(now, otherWakes, w) && db.WakeInTime(now, otherWakes, w)
    && (forall t, n :: t in db.templates && Unfired(db.occurrences, t, n) ==>
        w <= Max(TemplateEligible(t, n, db.lead), now + MIN_SLEEP))
    && forall s, n :: s in db.sources && UnfiredCopy(db.copies, s, n) ==>
       w <= Max(SourceEligible(s, n, db.lead), now + MIN_SLEEP)
  }

  ghost predicate SoonExactly(db: SchedulerDb, now: Time, otherWakes: seq<Time>, w: Time, e: Time)
    reads db
  {
    w < e + MIN_SLEEP <==> now + MAX_SLEEP < e + MIN_SLEEP || AskedBefore(db, now, otherWakes, e + MIN_SLEEP)
  }

  /**
   The next pass comes in time for an occurrence that becomes eligible at e, which the wake need not know of,
   exactly when the ceiling is that near or something it does look at is.
   */
  lemma WakeIsSoonIff(db: SchedulerDb, now: Time, otherWakes: seq<Time>, w: Time, e: Time)
    requires Rested(db, now, otherWakes, w) && e > now
    requires db.ActiveSound() && forall s :: s in db.sources ==> RecurringRow(s.cfg)
    ensures SoonExactly(db, now, otherWakes, w, e)
  {
    hide TemplateDue, SourceDue, TemplateEligible, SourceEligible, IsScheduled, Eligible;
    if c :| db.Asked(now, otherWakes, c) && c < e + MIN_SLEEP {
      AskedIsMet(db, now, otherWakes, w, c);
    }
  }

  lemma AskedIsMet(db: SchedulerDb, now: Time, otherWakes: seq<Time>, w: Time, c: Time)
    requires Rested(db, now, otherWakes, w) && db.Asked(now, otherWakes, c)
    requires db.ActiveSound() && forall s :: s in db.sources ==> RecurringRow(s.cfg)
    ensures w <= Max(c, now + MIN_SLEEP)
  {
    hide TemplateDue, SourceDue, IsScheduled, Eligible;
    if t :| t in db.templates && db.TemplateAsks(t, now, c) {
      if t.cfg.recurrenceType == Fixed {
        var n :| NextGhost(t.cfg, FiredSeqs(db.occurrences.Keys, t.id), EarliestOffset(t.nodes), now, db.lead, n)
                 && c == TemplateEligible(t, n, db.lead);
        assert Unfired(db.occurrences, t, n);
      }
    } else if s :| s in db.sources && db.SourceAsks(s, now, c) {
      var n :| NextGhost(s.cfg, FiredSeqs(db.copies.Keys, s.id) + {1}, 0, now, db.lead, n)
          && c == SourceEligible(s, n, db.lead);
      assert UnfiredCopy(db.copies, s, n);
    }
  }

  /**
   With nothing else waiting, tasks recurring on completion leave the wake at the ceiling, however soon their
   copies are due.
  */
  lemma RelativeCopiesAskForNothing(db: SchedulerDb, now: Time, w: Time)
    requires db.WakeWanted(now, [], w) && db.templates == [] && db.goals == []
    requires forall s :: s in db.sources ==> s.cfg.recurrenceType == RelativeToCompletion
    ensures w == now + MAX_SLEEP
  {
    forall c ensures !db.Asked(now, [], c) {}
  }

  /** A pass in which nothing throws, and what it leaves. */
  method PassAndRest(db: SchedulerDb, now: Time, otherWakes: seq<Time>)
    requires db.Keyed() && db.ActiveSound()
    modifies db
    ensures db.lastTickAt == Some(now) && db.nextWakeAt.Some? && Rested(db, now, otherWakes, db.nextWakeAt.value)
    ensures db.TemplatesAdded(old(db.occurrences), db.occurrences, now)
            && db.SourcesAdded(old(db.copies), db.copies, now)
    ensures |db.goals| == |old(db.goals)| && forall i :: 0 <= i < |db.goals| ==>
            db.goals[i] == Reviewed(old(db.goals)[i], now)
    // for anything that becomes eligible later the next pass is on time exactly as said
    ensures forall e :: e > now ==> SoonExactly(db, now, otherWakes, db.nextWakeAt.value, e)
  {
    hide TemplateDue, SourceDue, Unfired, UnfiredCopy, TemplateEligible, SourceEligible, RecurringRow, SoonExactly,
         Reviewed;
    var made, after := db.RunScheduler(now, {}, otherWakes);
    assert Rested(db, now, otherWakes, db.nextWakeAt.value);
    forall e | e > now ensures SoonExactly(db, now, otherWakes, db.nextWakeAt.value, e) {
      WakeIsSoonIff(db, now, otherWakes, db.nextWakeAt.value, e);
    }
  }

  /** A task due again a day after it is finished, and finished at that moment. */
  function Daily(finished: Time): Source {
    Source(1, Config(RelativeToCompletion, Some(1), Some(DayUnit), [], Some(finished), Never, None, None), true,
           TaskState(Completed, Some(finished)), finished)
  }

  lemma DailyDue(finished: Time, copies: map<Key, TaskState>, now: Time)
    requires forall n :: (1, n) !in copies
    ensures SourceDue(copies, Daily(finished), now, 0) == if now >= finished + 86_400_000 then {2} else {}
    ensures SourceNextAnchor(copies, Daily(finished), now) == Some(Next(2, finished + 86_400_000, Some(finished)))
  {
    assert FiredSeqs(copies.Keys, 1) == {};
  }

  /** Nothing is due of the one task there is, so nothing is made. */
  lemma NothingMade(db: SchedulerDb, before: map<Key, TaskState>, now: Time)
    requires db.SourcesAdded(before, db.copies, now) && forall s :: s in db.sources ==>
             SourceDue(before, s, now, db.lead) == {}
    ensures db.copies == before
  {
    hide SourceDue;
  }

  /** Only number 2 can be new. */
  lemma OnlyTheSecond(db: SchedulerDb, finished: Time, before: map<Key, TaskState>, now: Time)
    requires db.sources == [Daily(finished)] && db.lead == 0 && (forall n :: (1, n) !in before)
    requires db.SourcesAdded(before, db.copies, now)
    ensures forall n :: (1, n) in db.copies ==> n == 2
  {
    hide SourceDue;
    DailyDue(finished, before, now);
    forall n | (1, n) in db.copies ensures n == 2 {
      var u :| u in db.sources && u.id == 1 && n in SourceDue(before, u, now, db.lead);
    }
  }

  lemma RestedAtCeiling(db: SchedulerDb, now: Time, w: Time)
    requires Rested(db, now, [], w) && db.templates == [] && db.goals == []
    requires forall s :: s in db.sources ==> s.cfg.recurrenceType == RelativeToCompletion
    ensures w == now + MAX_SLEEP
  {
    RelativeCopiesAskForNothing(db, now, w);
  }

  lemma RestedIsClear(db: SchedulerDb, now: Time, otherWakes: seq<Time>, w: Time, s: Source)
    requires Rested(db, now, otherWakes, w) && s in db.sources
    ensures SourceDue(db.copies, s, now, db.lead) == {}
  {
    hide SourceDue;
  }

  lemma PartsOf(db: SchedulerDb, now: Time, items: seq<OverdueItem>) returns (parts: seq<seq<OverdueItem>>)
    requires db.OverdueReport(now, items)
    ensures |parts| == |db.templates| + |db.sources| && items == Flat(parts) + GoalItems(db.goals, now)
    ensures forall i :: 0 <= i < |db.templates| ==> db.TemplateReport(db.templates[i], now, parts[i])
    ensures forall j :: 0 <= j < |db.sources| ==> db.SourceReport(db.sources[j], now, parts[|db.templates| + j])
  {
    hide Flat, GoalItems;
    parts :| |parts| == |db.templates| + |db.sources| && items == Flat(parts) + GoalItems(db.goals, now)
             && (forall i :: 0 <= i < |db.templates| ==> db.TemplateReport(db.templates[i], now, parts[i]))
             && forall j :: 0 <= j < |db.sources| ==> db.SourceReport(db.sources[j], now, parts[|db.templates| + j]);
  }

  /** The report of a database that holds just one task with one copy due. */
  lemma OneItem(db: SchedulerDb, s: Source, now: Time, n: nat, items: seq<OverdueItem>)
    requires db.OverdueReport(now, items) && db.templates == [] && db.sources == [s] && db.goals == []
    requires SourceDue(db.copies, s, now, db.lead) == {n}
    ensures items == [SourceItem(db.copies, s, now, db.lead, db.leadSetAt, n)]
  {
    hide SourceDue, SourceItem, Flat, InOrder;
    var parts := PartsOf(db, now, items);
    FlatOne(parts);
    assert db.SourceReport(db.sources[0], now, parts[|db.templates| + 0]);
    var ns :| InOrder(ns, SourceDue(db.copies, s, now, db.lead)) && |parts[0]| == |ns|
              && forall i :: 0 <= i < |ns| ==>
                 parts[0][i] == SourceItem(db.copies, s, now, db.lead, db.leadSetAt, ns[i]);
    OnlyOne(ns, n);
  }

  lemma FlatOne(parts: seq<seq<OverdueItem>>)
    requires |parts| == 1
    ensures Flat(parts) == parts[0]
  {
    assert parts[..0] == [];
  }

  lemma OnlyOne(ns: seq<nat>, n: nat)
    requires InOrder(ns, {n})
    ensures ns == [n]
  {
    AscendingSize(ns, {n});
    assert ns[0] in ns;
  }

  lemma DailyItem(finished: Time, now: Time)
    requires finished >= 0
    ensures SourceItem(map[], Daily(finished), now, 0, None, 2) == OverdueItem(finished + 86_400_000, finished)
  {
    DailyDue(finished, map[], now);
  }

  /**
   Two passes, the second at the wake the first computed: the one copy waiting is made a millisecond short of
   six hours late, and the scheduler is reported to have run late.
   */
  method ALateCopy(finished: Time) returns (db: SchedulerDb, eligible: Time, madeAt: Time, late: int)
    requires finished >= 0
    ensures eligible == finished + 86_400_000 && (1, 2) in db.copies
    ensures db.lastTickAt == Some(madeAt) && madeAt == eligible + MAX_SLEEP - 1
    ensures late == 21_599_999 > LATE_THRESHOLD == 1_800_000
  {
    hide SourceDue, Rested, SoonExactly, SourceItem, TemplateDue, TemplateItem, Flat, GoalItems, InOrder, Sound;
    eligible := finished + 86_400_000;
    var first := eligible - 1;
    db := new SchedulerDb([], [Daily(finished)], 0, None, map[], map[], []);
    PassAndRest(db, first, []);
    DailyDue(finished, map[], first);
    NothingMade(db, map[], first);
    madeAt := db.nextWakeAt.value;
    RestedAtCeiling(db, first, madeAt);
    DailyDue(finished, map[], madeAt);
    var before := db.MeasureOverdue(madeAt);
    OneItem(db, Daily(finished), madeAt, 2, before.value);
    DailyItem(finished, madeAt);
    late := LateForScheduler(before.value, madeAt, first);
    PassAndRest(db, madeAt, []);
    OnlyTheSecond(db, finished, map[], madeAt);
    RestedIsClear(db, madeAt, [], db.nextWakeAt.value, Daily(finished));
    if (1, 2) !in db.copies { DailyDue(finished, db.copies, madeAt); }
  }

  // ----- A task created already finished -----

  /** The months in an interval counted in them. */
  function IntervalMonths(u: Unit, count: nat): nat { if u == YearUnit then count * 12 else count }

  /**
   At some moment or other the interval is no longer than the lead time. Months are so exactly when some run of
   that many is, but for the one step that is a day short.
   */
  ghost predicate IntervalFits(cfg: Config, lead: int)
    requires RecurringRow(cfg) && (cfg.endType == OnDate ==> cfg.endDate.Some?)
  {
    var count := cfg.intervalCount.value;
    match cfg.intervalUnit.value
    case DayUnit => count <= lead
    case WeekUnit => count * 7 <= lead
    case _ =>
      var months := IntervalMonths(cfg.intervalUnit.value, count);
      || (exists month :: RunDays(month, months) <= lead)
      || (ShortStep(months, lead) && (cfg.endType == OnDate ==> At(MonthStart(1) + 27, 0) <= cfg.endDate.value))
  }

  /** The end condition lets a second occurrence be, at some moment or other. */
  predicate SecondAllowed(cfg: Config) {
    && (cfg.endType == AfterOccurrences ==> cfg.maxOccurrences.Some? && cfg.maxOccurrences.value >= 2)
    && (cfg.endType == OnDate ==> cfg.endDate.Some?)
  }

  /** An interval begun at now is over within the lead time, and its end is allowed. */
  predicate FitsFrom(cfg: Config, lead: int, now: Time)
    requires RecurringRow(cfg)
  {
    var anchor := AddInterval(now, cfg.intervalUnit.value, cfg.intervalCount.value);
    SeqAllowed(cfg, 2, anchor) && anchor <= now + lead * 86_400_000
  }

  lemma FitsWhenSome(cfg: Config, lead: int, now: Time)
    requires RecurringRow(cfg) && FitsFrom(cfg, lead, now)
    ensures SecondAllowed(cfg) && IntervalFits(cfg, lead)
  {
    hide AddMonths, RunDays, ShortStep, MonthStart;
    var count := cfg.intervalCount.value;
    match cfg.intervalUnit.value
    case DayUnit =>
    case WeekUnit =>
    case MonthUnit => MonthsTakeAtLeast(now, count, lead);
    case YearUnit => MonthsTakeAtLeast(now, count * 12, lead);
  }

  lemma SomeWhenFits(cfg: Config, lead: int) returns (now: Time)
    requires RecurringRow(cfg) && SecondAllowed(cfg) && IntervalFits(cfg, lead)
    ensures FitsFrom(cfg, lead, now)
  {
    hide AddMonths, RunDays, MonthStart, MonthLength;
    var count, last := cfg.intervalCount.value, if cfg.endType == OnDate then cfg.endDate.value else 0;
    match cfg.intervalUnit.value
    case DayUnit => now := last - count * 86_400_000;
    case WeekUnit => now := last - count * 7 * 86_400_000;
    case _ =>
      var months: int := IntervalMonths(cfg.intervalUnit.value, count);
      if month :| RunDays(month, months) <= lead {
        var early := EarlierRun(month, months, last);
        now := At(MonthStart(early), 0);
        FromTheFirst(early, months);
      } else {
        now := At(MonthStart(2 - months) - 1, 0);
        IntoFebruaryOfYearZero(months);
      }
  }

  /**
   Nothing records when such a task was finished, so every pass takes it to be finished just then; its series
   never advances, at any pass, exactly when no second occurrence is allowed or the interval, whenever it is
   begun, is longer than the lead time.
   */
  lemma NeverAdvancesIff(s: Source, copies: map<Key, TaskState>, lead: int)
    requires s.isActive && s.cfg.recurrenceType == RelativeToCompletion && RecurringRow(s.cfg)
    requires s.task == TaskState(Completed, None) && (forall n :: (s.id, n) !in copies)
    ensures (forall now :: SourceDue(copies, s, now, lead) == {})
            <==> !(SecondAllowed(s.cfg) && IntervalFits(s.cfg, lead))
  {
    hide AddInterval, SeqAllowed, IntervalFits;
    forall now ensures SourceDue(copies, s, now, lead) == if FitsFrom(s.cfg, lead, now) then {2} else {} {
      assert FiredSeqs(copies.Keys, s.id) == {};
    }
    hide SourceDue, FitsFrom;
    if now :| SourceDue(copies, s, now, lead) != {} { FitsWhenSome(s.cfg, lead, now); }
    if SecondAllowed(s.cfg) && IntervalFits(s.cfg, lead) {
      var now := SomeWhenFits(s.cfg, lead);
      assert SourceDue(copies, s, now, lead) == {2};
    }
  }

  // ----- What the "ran late" alert is given -----

  /** The rows of the tables a pass reads. */
  datatype Stored = Stored(
    templates: seq<Template>, sources: seq<Source>, lead: int, leadSetAt: Option<Time>,
    occurrences: Occurrences, copies: map<Key, TaskState>, goals: seq<Goal>)

  ghost function Tables(db: SchedulerDb): Stored
    reads db
  {
    Stored(db.templates, db.sources, db.lead, db.leadSetAt, db.occurrences, db.copies, db.goals)
  }

  /** Late by less than this, or set up since the last pass and so not counted. */
  predicate LateBelow(item: OverdueItem, last: Time, now: Time, bound: int) {
    item.setUpAt <= last ==> now - Max(item.dueAt, item.setUpAt) < bound
  }

  /** What a pass at last leaves for the next one at now. */
  ghost predicate LeftInTime(a: Stored, last: Time, now: Time) {
    && last + MIN_SLEEP <= now <= last + MAX_SLEEP
    && (forall t :: t in a.templates ==> TemplateLeftInTime(t, a.lead, a.occurrences, last, now))
    && (forall s :: s in a.sources ==> SourceLeftInTime(s, a.lead, a.copies, last, now))
    && forall g :: g in a.goals && g.approved ==> g.deadline > last && now <= Max(g.deadline, last + MIN_SLEEP)
  }

  ghost predicate TemplateLeftInTime(t: Template, lead: int, occurrences: Occurrences, last: Time, now: Time) {
    && (t.isActive ==> Sound(t.cfg)) && TemplateDue(occurrences, t, last, lead) == {}
    && (forall n :: Unfired(occurrences, t, n) ==> now <= Max(TemplateEligible(t, n, lead), last + MIN_SLEEP))
    && var next := RelativeNextAnchor(occurrences, t, last);
       t.isActive && t.cfg.recurrenceType == RelativeToCompletion && next.Some?
         && EligibleAt(next.value.anchor, 0, lead) > last ==>
         now <= Max(EligibleAt(next.value.anchor, 0, lead), last + MIN_SLEEP)
  }

  ghost predicate SourceLeftInTime(s: Source, lead: int, copies: map<Key, TaskState>, last: Time, now: Time) {
    && RecurringRow(s.cfg) && SourceDue(copies, s, last, lead) == {}
    && forall n :: UnfiredCopy(copies, s, n) ==> now <= Max(SourceEligible(s, n, lead), last + MIN_SLEEP)
  }

  lemma RestedLeaves(db: SchedulerDb, last: Time, otherWakes: seq<Time>, now: Time)
    requires Rested(db, last, otherWakes, now)
    requires db.ActiveSound() && forall s :: s in db.sources ==> RecurringRow(s.cfg)
    ensures LeftInTime(Tables(db), last, now)
  {
    hide TemplateDue, SourceDue, Unfired, UnfiredCopy, TemplateEligible, SourceEligible, RelativeNextAnchor, EligibleAt;
    forall t | t in db.templates ensures TemplateLeftInTime(t, db.lead, db.occurrences, last, now) {
      var next := RelativeNextAnchor(db.occurrences, t, last);
      if t.isActive && t.cfg.recurrenceType == RelativeToCompletion && next.Some?
          && EligibleAt(next.value.anchor, 0, db.lead) > last {
        assert db.TemplateAsks(t, last, EligibleAt(next.value.anchor, 0, db.lead));
      }
    }
  }

  // ----- What people do between two passes -----

  /** Saving a template stamps it or its nodes. */
  predicate SavedSince(t: Template, last: Time) {
    t.updatedAt > last || exists n :: n in t.nodes && n.updatedAt > last
  }

  predicate SettingsSavedSince(leadSetAt: Option<Time>, last: Time) {
    leadSetAt.Some? && leadSetAt.value > last
  }

  /**
   A template not saved since: its occurrences stay; those of a Fixed one may be clicked, and root tasks are
   finished, reopened or deleted.
   */
  ghost predicate TemplateKept(a: Stored, b: Stored, t: Template, last: Time) {
    && t in a.templates && (forall n :: (t.id, n) in a.occurrences ==> (t.id, n) in b.occurrences)
    && (t.cfg.recurrenceType != Fixed ==> forall n :: (t.id, n) in b.occurrences ==> (t.id, n) in a.occurrences)
    && forall n :: (t.id, n) in a.occurrences && b.occurrences[(t.id, n)] != a.occurrences[(t.id, n)] ==>
       RootEditedAfter(b.occurrences[(t.id, n)], last)
  }

  /**
   A task whose rule was not saved since, u as it was: the task itself and its copies are finished or reopened,
   copies are deleted, and those of a Fixed rule may be clicked.
   */
  ghost predicate SourceKept(a: Stored, b: Stored, s: Source, u: Source, last: Time) {
    && u in a.sources && s == u.(task := s.task) && (s.task == u.task || EditedAfter(s.task, last))
    && (s.cfg.recurrenceType != Fixed ==> forall n :: (s.id, n) in b.copies ==> (s.id, n) in a.copies)
    && forall n :: (s.id, n) in b.copies && (s.id, n) in a.copies && b.copies[(s.id, n)] != a.copies[(s.id, n)] ==>
       EditedAfter(b.copies[(s.id, n)], last)
  }

  /** Everything people may do to the tables: every change of a definition or a status is stamped, a deletion is not. */
  ghost predicate EditedSince(a: Stored, b: Stored, last: Time) {
    && (b.lead == a.lead || SettingsSavedSince(b.leadSetAt, last))
    && (forall t :: t in b.templates ==> SavedSince(t, last) || TemplateKept(a, b, t, last))
    && (forall s :: s in b.sources ==> s.updatedAt > last || exists u :: SourceKept(a, b, s, u, last))
    && forall g :: g in b.goals ==> g in a.goals || g.updatedAt > last
  }

  // ----- How late one item can be -----

  lemma TemplateItemLate(a: Stored, b: Stored, t: Template, last: Time, now: Time, n: nat)
    requires TemplateLeftInTime(t, a.lead, a.occurrences, last, now) && last + MIN_SLEEP <= now
    requires TemplateKept(a, b, t, last) && a.lead == b.lead && n in TemplateDue(b.occurrences, t, now, b.lead)
    ensures LateBelow(TemplateItem(b.occurrences, t, now, b.lead, b.leadSetAt, n), last, now, MIN_SLEEP)
  {
    hide AddInterval, SeqAllowed, IsScheduled, FixedAnchor, EarliestOffset, SetUpAt;
    if t.cfg.recurrenceType == Fixed {
      DueWhenEligible(t.cfg, n, now, EarliestOffset(t.nodes), b.lead);
      DueWhenEligible(t.cfg, n, last, EarliestOffset(t.nodes), b.lead);
      assert n !in TemplateDue(a.occurrences, t, last, b.lead) && Unfired(a.occurrences, t, n);
    } else {
      SameNumbers(t.id, a.occurrences.Keys, b.occurrences.Keys);
      var latest := LatestSeq(b.occurrences.Keys, t.id);
      if latest.Some? && b.occurrences[(t.id, latest.value)] == a.occurrences[(t.id, latest.value)]
          && b.occurrences[(t.id, latest.value)].value.statusChangedAt.Some? {
        assert RelativeNextAnchor(a.occurrences, t, last) == RelativeNextAnchor(b.occurrences, t, now);
      }
    }
  }

  /** What was saved since, or depends on a lead time saved since, is not counted. */
  lemma NewTemplateItem(b: Stored, t: Template, last: Time, now: Time, n: nat, bound: int)
    requires SavedSince(t, last) || SettingsSavedSince(b.leadSetAt, last)
    requires n in TemplateDue(b.occurrences, t, now, b.lead)
    ensures LateBelow(TemplateItem(b.occurrences, t, now, b.lead, b.leadSetAt, n), last, now, bound)
  {
    hide AddInterval, SeqAllowed, IsScheduled, FixedAnchor, EarliestOffset, RelativeNextAnchor;
  }

  /** The copy was there at the last pass; or the series has gone back to before its then latest copy. */
  ghost predicate Dropped(a: Stored, b: Stored, s: Source, n: nat) {
    if s.cfg.recurrenceType == Fixed then (s.id, n) in a.copies else LatestDropped(s.id, a.copies.Keys, b.copies.Keys)
  }

  function BoundOf(s: Source): int { if s.cfg.recurrenceType == RelativeToCompletion then MAX_SLEEP else MIN_SLEEP }

  lemma SourceItemLate(a: Stored, b: Stored, s: Source, u: Source, last: Time, now: Time, n: nat)
    requires SourceLeftInTime(u, a.lead, a.copies, last, now) && last + MIN_SLEEP <= now <= last + MAX_SLEEP
    requires SourceKept(a, b, s, u, last) && a.lead == b.lead && n in SourceDue(b.copies, s, now, b.lead)
    ensures LateBelow(SourceItem(b.copies, s, now, b.lead, b.leadSetAt, n), last, now, BoundOf(s))
            || Dropped(a, b, s, n)
  {
    hide AddInterval, SeqAllowed, IsScheduled, FixedAnchor;
    if s.cfg.recurrenceType == Fixed {
      DueWhenEligible(s.cfg, n, now, 0, b.lead);
      DueWhenEligible(s.cfg, n, last, 0, b.lead);
      if (s.id, n) !in a.copies {
        assert n !in SourceDue(a.copies, u, last, b.lead) && UnfiredCopy(a.copies, u, n);
      }
    } else if !LatestDropped(s.id, a.copies.Keys, b.copies.Keys) {
      var latestSeq := LatestSeq(b.copies.Keys, s.id);
      var latest := if latestSeq.Some? then b.copies[(s.id, latestSeq.value)] else s.task;
      if (if latestSeq.Some? then a.copies[(s.id, latestSeq.value)] else u.task) == latest
          && latest.statusChangedAt.Some? {
        assert SourceNextAnchor(a.copies, u, last) == SourceNextAnchor(b.copies, s, now);
      }
    }
  }

  lemma NewSourceItem(b: Stored, s: Source, last: Time, now: Time, n: nat, bound: int)
    requires s.updatedAt > last || SettingsSavedSince(b.leadSetAt, last)
    requires n in SourceDue(b.copies, s, now, b.lead)
    ensures LateBelow(SourceItem(b.copies, s, now, b.lead, b.leadSetAt, n), last, now, bound)
  {
    hide AddInterval, SeqAllowed, IsScheduled, FixedAnchor, SourceNextAnchor;
  }

  lemma GoalItemLate(goals: seq<Goal>, last: Time, now: Time, item: OverdueItem)
    requires last + MIN_SLEEP <= now && item in GoalItems(goals, now)
    requires forall g :: g in goals && g.approved && g.updatedAt <= last ==>
             g.deadline > last && now <= Max(g.deadline, last + MIN_SLEEP)
    ensures LateBelow(item, last, now, MIN_SLEEP)
  {
    var g := GoalOf(goals, now, item);
  }

  lemma {:induction false} GoalOf(goals: seq<Goal>, now: Time, item: OverdueItem) returns (g: Goal)
    requires item in GoalItems(goals, now)
    ensures g in goals && GoalOverdue(g, now) && item == OverdueItem(g.deadline, Max(0, g.updatedAt))
    decreases |goals|
  {
    var init := goals[..|goals| - 1];
    if item in GoalItems(init, now) { g := GoalOf(init, now, item); } else { g := goals[|goals| - 1]; }
  }

  lemma {:induction false} PartOf(parts: seq<seq<OverdueItem>>, item: OverdueItem) returns (k: nat)
    requires item in Flat(parts)
    ensures k < |parts| && item in parts[k]
    decreases |parts|
  {
    var init := parts[..|parts| - 1];
    if item in Flat(init) { k := PartOf(init, item); } else { k := |parts| - 1; }
  }

  // ----- How late the whole report is -----

  /** A copy deleted since the last pass, due again, and reported late by the whole time since it first fell due. */
  ghost predicate RemadeLate(a: Stored, b: Stored, s: Source, n: nat, last: Time, now: Time, bound: int) {
    && s in b.sources && n in SourceDue(b.copies, s, now, b.lead) && Dropped(a, b, s, n)
    && !LateBelow(SourceItem(b.copies, s, now, b.lead, b.leadSetAt, n), last, now, bound)
  }

  ghost predicate SomeRemadeLate(a: Stored, b: Stored, last: Time, now: Time, bound: int) {
    exists s, n :: RemadeLate(a, b, s, n, last, now, bound)
  }

  ghost predicate SomeLate(items: seq<OverdueItem>, last: Time, now: Time, bound: int) {
    exists item :: item in items && !LateBelow(item, last, now, bound)
  }

  /** No item about a template is late by the minimum sleep. */
  lemma TemplatePartLate(db: SchedulerDb, a: Stored, last: Time, now: Time, t: Template, part: seq<OverdueItem>)
    requires LeftInTime(a, last, now) && EditedSince(a, Tables(db), last)
    requires t in db.templates && db.TemplateReport(t, now, part)
    ensures !SomeLate(part, last, now, MIN_SLEEP)
  {
    hide TemplateDue, TemplateItem, LateBelow, TemplateLeftInTime, SavedSince, TemplateKept, SourceKept,
         SourceLeftInTime;
    var b := Tables(db);
    var ns :| InOrder(ns, TemplateDue(db.occurrences, t, now, db.lead)) && |part| == |ns|
              && forall i :: 0 <= i < |ns| ==>
                 part[i] == TemplateItem(db.occurrences, t, now, db.lead, db.leadSetAt, ns[i]);
    forall item | item in part ensures LateBelow(item, last, now, MIN_SLEEP) {
      var i :| 0 <= i < |part| && part[i] == item;
      assert ns[i] in ns;
      if SavedSince(t, last) || SettingsSavedSince(b.leadSetAt, last) {
        NewTemplateItem(b, t, last, now, ns[i], MIN_SLEEP);
      } else {
        TemplateKeptIsOld(a, b, t, last);
        TemplateItemLate(a, b, t, last, now, ns[i]);
      }
    }
  }

  lemma TemplateKeptIsOld(a: Stored, b: Stored, t: Template, last: Time)
    requires TemplateKept(a, b, t, last)
    ensures t in a.templates
  {}

  /** The items about one recurring task are late exactly when one of its deleted copies is made again late. */
  lemma SourcePartLate(db: SchedulerDb, a: Stored, last: Time, now: Time, s: Source, part: seq<OverdueItem>, bound: int)
    requires LeftInTime(a, last, now) && EditedSince(a, Tables(db), last)
    requires s in db.sources && db.SourceReport(s, now, part) && bound >= BoundOf(s)
    ensures SomeLate(part, last, now, bound) <==> exists n :: RemadeLate(a, Tables(db), s, n, last, now, bound)
  {
    hide SourceDue, SourceItem, LateBelow, SourceLeftInTime, Dropped, EditedSince, LeftInTime, BoundOf;
    var b := Tables(db);
    var ns :| InOrder(ns, SourceDue(db.copies, s, now, db.lead)) && |part| == |ns|
              && forall i :: 0 <= i < |ns| ==> part[i] == SourceItem(db.copies, s, now, db.lead, db.leadSetAt, ns[i]);
    if SomeLate(part, last, now, bound) {
      var item :| item in part && !LateBelow(item, last, now, bound);
      var i :| 0 <= i < |part| && part[i] == item;
      assert ns[i] in ns;
      LateIsDropped(a, b, s, last, now, ns[i], bound);
      assert RemadeLate(a, b, s, ns[i], last, now, bound);
    }
    if n :| RemadeLate(a, b, s, n, last, now, bound) {
      assert n in ns;
      var i :| 0 <= i < |ns| && ns[i] == n;
      assert part[i] in part;
    }
  }

  lemma LateIsDropped(a: Stored, b: Stored, s: Source, last: Time, now: Time, n: nat, bound: int)
    requires LeftInTime(a, last, now) && EditedSince(a, b, last) && s in b.sources && bound >= BoundOf(s)
    requires n in SourceDue(b.copies, s, now, b.lead)
    requires !LateBelow(SourceItem(b.copies, s, now, b.lead, b.leadSetAt, n), last, now, bound)
    ensures Dropped(a, b, s, n)
  {
    hide SourceDue, SourceItem, SourceLeftInTime, TemplateLeftInTime, TemplateKept, Dropped, SourceKept;
    if s.updatedAt > last || SettingsSavedSince(b.leadSetAt, last) {
      NewSourceItem(b, s, last, now, n, bound);
    } else {
      var u :| SourceKept(a, b, s, u, last);
      SourceKeptIsOld(a, b, s, u, last);
      SourceItemLate(a, b, s, u, last, now, n);
    }
  }

  lemma SourceKeptIsOld(a: Stored, b: Stored, s: Source, u: Source, last: Time)
    requires SourceKept(a, b, s, u, last)
    ensures u in a.sources
  {}

  lemma GoalPartLate(a: Stored, b: Stored, last: Time, now: Time, bound: int)
    requires LeftInTime(a, last, now) && EditedSince(a, b, last) && bound >= MIN_SLEEP
    ensures !SomeLate(GoalItems(b.goals, now), last, now, bound)
  {
    hide GoalItems, TemplateLeftInTime, SourceLeftInTime, TemplateKept, SourceKept, SavedSince;
    forall item | item in GoalItems(b.goals, now) ensures LateBelow(item, last, now, bound) {
      GoalItemLate(b.goals, last, now, item);
    }
  }

  lemma LateLess(part: seq<OverdueItem>, last: Time, now: Time, bound: int, more: int)
    requires SomeLate(part, last, now, more) && bound <= more
    ensures SomeLate(part, last, now, bound)
  {}

  /**
   Whatever was edited since the last pass, what a pass at its wake finds overdue is late by the bound or more
   exactly when a copy deleted since the last pass is to be made again that late.
   */
  lemma ReportLateIff(db: SchedulerDb, a: Stored, last: Time, now: Time, items: seq<OverdueItem>, bound: int)
    requires LeftInTime(a, last, now) && EditedSince(a, Tables(db), last) && db.OverdueReport(now, items)
    requires bound >= MIN_SLEEP && forall s :: s in db.sources ==> BoundOf(s) <= bound
    ensures SomeLate(items, last, now, bound) <==> SomeRemadeLate(a, Tables(db), last, now, bound)
  {
    hide LeftInTime, EditedSince, LateBelow, Flat, GoalItems, RemadeLate, BoundOf, SchedulerDb.OverdueReport,
         SchedulerDb.TemplateReport, SchedulerDb.SourceReport;
    var parts := PartsOf(db, now, items);
    if SomeLate(items, last, now, bound) {
      var item :| item in items && !LateBelow(item, last, now, bound);
      if item in Flat(parts) {
        LatePart(db, a, last, now, parts, item, bound);
      } else {
        GoalPartLate(a, Tables(db), last, now, bound);
      }
    }
    if SomeRemadeLate(a, Tables(db), last, now, bound) {
      var s, n :| RemadeLate(a, Tables(db), s, n, last, now, bound);
      RemadeIsHere(a, Tables(db), s, n, last, now, bound);
      var j :| 0 <= j < |db.sources| && db.sources[j] == s;
      SourcePartLate(db, a, last, now, s, parts[|db.templates| + j], bound);
      var item :| item in parts[|db.templates| + j] && !LateBelow(item, last, now, bound);
      InFlat(parts, |db.templates| + j, item);
    }
  }

  lemma RemadeIsHere(a: Stored, b: Stored, s: Source, n: nat, last: Time, now: Time, bound: int)
    requires RemadeLate(a, b, s, n, last, now, bound)
    ensures s in b.sources
  {}

  lemma LatePart(db: SchedulerDb, a: Stored, last: Time, now: Time, parts: seq<seq<OverdueItem>>, item: OverdueItem,
                 bound: int)
    requires LeftInTime(a, last, now) && EditedSince(a, Tables(db), last) && |parts| == |db.templates| + |db.sources|
    requires forall i :: 0 <= i < |db.templates| ==> db.TemplateReport(db.templates[i], now, parts[i])
    requires forall j :: 0 <= j < |db.sources| ==> db.SourceReport(db.sources[j], now, parts[|db.templates| + j])
    requires bound >= MIN_SLEEP && forall s :: s in db.sources ==> BoundOf(s) <= bound
    requires item in Flat(parts) && !LateBelow(item, last, now, bound)
    ensures SomeRemadeLate(a, Tables(db), last, now, bound)
  {
    hide LeftInTime, EditedSince, LateBelow, Flat, RemadeLate, BoundOf, SchedulerDb.TemplateReport,
         SchedulerDb.SourceReport;
    var k := PartOf(parts, item);
    assert SomeLate(parts[k], last, now, bound);
    if k < |db.templates| {
      LateLess(parts[k], last, now, MIN_SLEEP, bound);
      TemplatePartLate(db, a, last, now, db.templates[k], parts[k]);
    } else {
      var j := k - |db.templates|;
      assert db.SourceReport(db.sources[j], now, parts[|db.templates| + j]) && db.sources[j] in db.sources;
      SourcePartLate(db, a, last, now, db.sources[j], parts[k], bound);
    }
  }

  lemma {:induction false} InFlat(parts: seq<seq<OverdueItem>>, k: nat, item: OverdueItem)
    requires k < |parts| && item in parts[k]
    ensures item in Flat(parts)
    decreases |parts|
  {
    if k < |parts| - 1 { InFlat(parts[..|parts| - 1], k, item); }
  }

  ghost predicate NoneOnCompletion(sources: seq<Source>) {
    forall s :: s in sources ==> s.cfg.recurrenceType != RelativeToCompletion
  }

  /** How late a pass may be reported: a minimum sleep, or the ceiling where tasks recur on completion. */
  ghost function ReportBound(sources: seq<Source>): int { if NoneOnCompletion(sources) then MIN_SLEEP else MAX_SLEEP }

  lemma BoundIs(sources: seq<Source>)
    ensures 0 < MIN_SLEEP <= ReportBound(sources) && forall s :: s in sources ==> BoundOf(s) <= ReportBound(sources)
  {}

  lemma LateMeans(items: seq<OverdueItem>, last: Time, now: Time, bound: int, late: int)
    requires bound > 0
    requires forall i :: i in items && i.setUpAt <= last ==> now - Max(i.dueAt, i.setUpAt) <= late
    requires late > 0 ==> exists i :: i in items && i.setUpAt <= last && late == now - Max(i.dueAt, i.setUpAt)
    ensures late >= bound <==> SomeLate(items, last, now, bound)
  {}

  /** What the alert goes by, read off the rows as they are now. */
  method ReportLateness(db: SchedulerDb, ghost a: Stored, last: Time, now: Time) returns (late: int)
    requires db.Keyed() && db.ActiveSound()
    requires LeftInTime(a, last, now) && EditedSince(a, Tables(db), last)
    ensures var bound := ReportBound(db.sources);
            late >= bound <==> SomeRemadeLate(a, Tables(db), last, now, bound)
  {
    hide *;
    RowsRecur(db);
    var items := Measured(db, now);
    late := LateForScheduler(items, now, last);
    BoundIs(db.sources);
    ReportLateIff(db, a, last, now, items, ReportBound(db.sources));
    LateMeans(items, last, now, ReportBound(db.sources), late);
  }

  method Measured(db: SchedulerDb, now: Time) returns (items: seq<OverdueItem>)
    requires db.Keyed() && db.ActiveSound()
    ensures db.OverdueReport(now, items)
  {
    hide SchedulerDb.OverdueReport, Sound, RecurringRow;
    var r := db.MeasureOverdue(now);
    items := r.value;
  }

  lemma RowsRecur(db: SchedulerDb)
    requires db.Keyed()
    ensures forall s :: s in db.sources ==> RecurringRow(s.cfg)
  {}

  /**
   One pass at the wake the last one computed; edited holds the tables as people have left them by then. It is
   reported late by the bound or more exactly when it makes again, that late, a copy deleted since.
   */
  method PassAtWake(db: SchedulerDb, edited: SchedulerDb, ghost previous: seq<Time>, otherWakes: seq<Time>)
    returns (late: int)
    requires db != edited && db.Keyed() && db.ActiveSound() && edited.Keyed() && edited.ActiveSound()
    requires db.lastTickAt.Some? && db.nextWakeAt.Some?
    requires Rested(db, db.lastTickAt.value, previous, db.nextWakeAt.value)
    requires EditedSince(Tables(db), Tables(edited), db.lastTickAt.value)
    modifies edited
    ensures edited.lastTickAt == db.nextWakeAt && edited.nextWakeAt.Some?
    ensures Rested(edited, edited.lastTickAt.value, otherWakes, edited.nextWakeAt.value)
    ensures var last, now, bound := db.lastTickAt.value, db.nextWakeAt.value, ReportBound(edited.sources);
            && last + MIN_SLEEP <= now <= last + MAX_SLEEP
            && (late >= bound <==> SomeRemadeLate(old(Tables(db)), old(Tables(edited)), last, now, bound))
  {
    hide *;
    var last, now := db.lastTickAt.value, db.nextWakeAt.value;
    RowsRecur(db);
    RestedLeaves(db, last, previous, now);
    LeftSoon(Tables(db), last, now);
    late := ReportLateness(edited, Tables(db), last, now);
    PassAndRest(edited, now, otherWakes);
  }

  lemma LeftSoon(a: Stored, last: Time, now: Time)
    requires LeftInTime(a, last, now)
    ensures last + MIN_SLEEP <= now <= last + MAX_SLEEP
  {}

  /** With no copy deleted nothing is made again. */
  lemma NothingDeletedNothingRemade(a: Stored, b: Stored, last: Time, now: Time, bound: int)
    requires EditedSince(a, b, last) && a.copies.Keys <= b.copies.Keys
    ensures !SomeRemadeLate(a, b, last, now, bound)
  {
    hide SourceItem, LateBelow, TemplateKept, SavedSince, SourceNextAnchor, IsDue;
    if SomeRemadeLate(a, b, last, now, bound) {
      var s, n :| RemadeLate(a, b, s, n, last, now, bound);
      if s.updatedAt > last || SettingsSavedSince(b.leadSetAt, last) {
        NewSourceItem(b, s, last, now, n, bound);
      } else {
        var u :| SourceKept(a, b, s, u, last);
        if s.cfg.recurrenceType != Fixed { SameNumbers(s.id, a.copies.Keys, b.copies.Keys); }
      }
    }
  }

  // ----- Runs -----

  /** What people leave the tables as between two passes, if it could have been done since the first of them. */
  datatype Edits = Edits(
    templates: seq<Template>, sources: seq<Source>, lead: int, leadSetAt: Option<Time>,
    roots: Occurrences, copies: CopyEdits, goals: seq<Goal>)

  /** Edits that keep ids apart and every active schedule complete. */
  ghost predicate SoundEdits(e: Edits) {
    && TemplatesApart(e.templates)
    && SourcesApart(e.sources)
    && (forall s :: s in e.sources ==> RecurringRow(s.cfg))
    && forall t :: t in e.templates && t.isActive ==> Sound(t.cfg)
  }

  /** Templates left as they were or saved since; the others are deleted. */
  function TemplatesEdited(templates: seq<Template>, edits: seq<Template>, last: Time): (r: seq<Template>)
    ensures forall t :: t in r ==> t in edits && (t in templates || SavedSince(t, last))
  {
    if edits == [] then []
    else
      var rest, t := TemplatesEdited(templates, edits[1..], last), edits[0];
      if t in templates || SavedSince(t, last) then [t] + rest else rest
  }

  lemma {:induction false} TemplatesStillApart(templates: seq<Template>, edits: seq<Template>, last: Time)
    requires TemplatesApart(edits)
    ensures TemplatesApart(TemplatesEdited(templates, edits, last))
  {
    if edits != [] {
      var r, rest := TemplatesEdited(templates, edits, last), TemplatesEdited(templates, edits[1..], last);
      TemplatesStillApart(templates, edits[1..], last);
      forall i, j | 0 <= i < j < |r| ensures r[i].id != r[j].id {
        if r == rest {
          assert rest[i].id != rest[j].id;
        } else {
          assert r[j] == rest[j - 1] && rest[j - 1] in edits[1..];
          if i > 0 { assert r[i] == rest[i - 1]; }
        }
      }
    }
  }

  /** The rule of this task is one of these, with at most the task's own status changed since. */
  predicate SameRule(sources: seq<Source>, s: Source, last: Time) {
    exists u :: u in sources && s == u.(task := s.task) && (s.task == u.task || EditedAfter(s.task, last))
  }

  function SourcesEdited(sources: seq<Source>, edits: seq<Source>, last: Time): (r: seq<Source>)
    ensures forall s :: s in r ==> s in edits && (s.updatedAt > last || SameRule(sources, s, last))
  {
    if edits == [] then []
    else
      var rest, s := SourcesEdited(sources, edits[1..], last), edits[0];
      if s.updatedAt > last || SameRule(sources, s, last) then [s] + rest else rest
  }

  lemma {:induction false} SourcesStillApart(sources: seq<Source>, edits: seq<Source>, last: Time)
    requires SourcesApart(edits)
    ensures SourcesApart(SourcesEdited(sources, edits, last))
  {
    if edits != [] {
      var r, rest := SourcesEdited(sources, edits, last), SourcesEdited(sources, edits[1..], last);
      SourcesStillApart(sources, edits[1..], last);
      forall i, j | 0 <= i < j < |r| ensures r[i].id != r[j].id {
        if r == rest {
          assert rest[i].id != rest[j].id;
        } else {
          assert r[j] == rest[j - 1] && rest[j - 1] in edits[1..];
          if i > 0 { assert r[i] == rest[i - 1]; }
        }
      }
    }
  }

  function GoalsEdited(goals: seq<Goal>, edits: seq<Goal>, last: Time): (r: seq<Goal>)
    ensures forall g :: g in r ==> g in goals || g.updatedAt > last
  {
    if edits == [] then []
    else
      var rest, g := GoalsEdited(goals, edits[1..], last), edits[0];
      if g in goals || g.updatedAt > last then [g] + rest else rest
  }

  /** Nothing people may do is left out: tables in which all that is new is stamped become just those. */
  lemma {:induction false} StampedTemplatesStand(templates: seq<Template>, edits: seq<Template>, last: Time)
    requires forall t :: t in edits ==> t in templates || t.updatedAt > last
                                        || exists n :: n in t.nodes && n.updatedAt > last
    ensures TemplatesEdited(templates, edits, last) == edits
  {
    if edits != [] {
      assert edits[0] in edits && edits == [edits[0]] + edits[1..];
      StampedTemplatesStand(templates, edits[1..], last);
    }
  }

  lemma {:induction false} StampedSourcesStand(sources: seq<Source>, edits: seq<Source>, last: Time)
    requires forall s :: s in edits ==> s in sources || s.updatedAt > last
    ensures SourcesEdited(sources, edits, last) == edits
  {
    if edits != [] {
      var s := edits[0];
      assert s in edits && edits == [s] + edits[1..] && s == s.(task := s.task);
      StampedSourcesStand(sources, edits[1..], last);
    }
  }

  lemma {:induction false} StampedGoalsStand(goals: seq<Goal>, edits: seq<Goal>, last: Time)
    requires forall g :: g in edits ==> g in goals || g.updatedAt > last
    ensures GoalsEdited(goals, edits, last) == edits
  {
    if edits != [] {
      assert edits[0] in edits && edits == [edits[0]] + edits[1..];
      StampedGoalsStand(goals, edits[1..], last);
    }
  }

  /** A task whose own status changed since, under a rule that did not, stands as well. */
  lemma ChangedTaskStands(sources: seq<Source>, s: Source, state: TaskState, last: Time)
    requires s in sources && EditedAfter(state, last)
    ensures SourcesEdited(sources, [s.(task := state)], last) == [s.(task := state)]
  {
    var t := s.(task := state);
    assert t == s.(task := t.task);
  }

  /** The database once people have made their edits. */
  method Edited(db: SchedulerDb, e: Edits, last: Time) returns (edited: SchedulerDb)
    requires db.Keyed() && SoundEdits(e)
    ensures fresh(edited) && edited.Keyed() && edited.ActiveSound() && EditedSince(Tables(db), Tables(edited), last)
  {
    hide TemplatesEdited, SourcesEdited, GoalsEdited, RootsEdited, CopiesEdited, EditedSince, RecurringRow, Sound;
    var templates := TemplatesEdited(db.templates, e.templates, last);
    var sources := SourcesEdited(db.sources, e.sources, last);
    TemplatesStillApart(db.templates, e.templates, last);
    SourcesStillApart(db.sources, e.sources, last);
    var saved := e.leadSetAt.Some? && e.leadSetAt.value > last;
    edited := new SchedulerDb(
      templates, sources, if saved then e.lead else db.lead, if saved then e.leadSetAt else db.leadSetAt,
      RootsEdited(templates, db.occurrences, e.roots, last), CopiesEdited(sources, db.copies, e.copies, last),
      GoalsEdited(db.goals, e.goals, last));
    assert Tables(edited).templates == templates && Tables(edited).sources == sources;
    EditsAreSince(Tables(db), Tables(edited), e, last);
  }

  lemma EditsAreSince(a: Stored, b: Stored, e: Edits, last: Time)
    requires TemplatesApart(b.templates)
    requires SourcesApart(b.sources)
    requires b.templates == TemplatesEdited(a.templates, e.templates, last)
    requires b.sources == SourcesEdited(a.sources, e.sources, last)
    requires b.lead == a.lead || SettingsSavedSince(b.leadSetAt, last)
    requires b.occurrences == RootsEdited(b.templates, a.occurrences, e.roots, last)
    requires b.copies == CopiesEdited(b.sources, a.copies, e.copies, last)
    requires b.goals == GoalsEdited(a.goals, e.goals, last)
    ensures EditedSince(a, b, last)
  {
    hide TemplatesEdited, SourcesEdited, GoalsEdited, RootsEdited, CopiesEdited, SavedSince, RootEditedAfter,
         EditedAfter, TemplatesApart, SourcesApart, FixedTemplate, FixedSource;
    forall t | t in b.templates && !SavedSince(t, last) ensures TemplateKept(a, b, t, last) {
      OnlyOneTemplate(b.templates, t);
    }
    forall s | s in b.sources && s.updatedAt <= last ensures exists u :: SourceKept(a, b, s, u, last) {
      var u :| u in a.sources && s == u.(task := s.task) && (s.task == u.task || EditedAfter(s.task, last));
      OnlyOneSource(b.sources, s);
      assert SourceKept(a, b, s, u, last);
    }
  }

  /** Between two passes: what the first left at last, and what the second found at now. */
  datatype Interval = Interval(last: Time, now: Time, left: Stored, found: Stored)

  /** The second pass, at the wake the first computed, is reported that late exactly for a copy deleted in between. */
  ghost predicate ReportedIff(i: Interval, late: int) {
    && i.last + MIN_SLEEP <= i.now <= i.last + MAX_SLEEP && EditedSince(i.left, i.found, i.last)
    && (late >= ReportBound(i.found.sources)
        <==> SomeRemadeLate(i.left, i.found, i.last, i.now, ReportBound(i.found.sources)))
  }

  /** Passes at their computed wakes, with people editing in between: how late each finds the scheduler. */
  method RunAndReport(db: SchedulerDb, start: Time, otherWakes: seq<seq<Time>>, edits: seq<Edits>)
    returns (lates: seq<int>, ghost intervals: seq<Interval>)
    requires db.Keyed() && db.ActiveSound() && |edits| == |otherWakes| && forall e :: e in edits ==> SoundEdits(e)
    modifies db
    ensures |lates| == |intervals| == |otherWakes|
    ensures forall i :: 0 <= i < |lates| ==> ReportedIff(intervals[i], lates[i])
    ensures |intervals| > 0 ==> intervals[0].last == start
    ensures forall i :: 0 < i < |intervals| ==> intervals[i].last == intervals[i - 1].now
  {
    hide *;
    PassAndRest(db, start, []);
    var tables, last := db, start;
    ghost var previous: seq<Time> := [];
    lates, intervals := [], [];
    for i := 0 to |otherWakes|
      invariant |lates| == |intervals| == i
      invariant tables == db || fresh(tables)
      invariant tables.Keyed() && tables.ActiveSound()
      invariant tables.lastTickAt == Some(last) && tables.nextWakeAt.Some?
      invariant Rested(tables, last, previous, tables.nextWakeAt.value)
      invariant forall j :: 0 <= j < i ==> ReportedIff(intervals[j], lates[j])
      invariant last == if i == 0 then start else intervals[i - 1].now
      invariant i > 0 ==> intervals[0].last == start
      invariant forall j :: 0 < j < i ==> intervals[j].last == intervals[j - 1].now
    {
      assert edits[i] in edits;
      var edited := Edited(tables, edits[i], last);
      ghost var interval := Interval(last, tables.nextWakeAt.value, Tables(tables), Tables(edited));
      TablesHold(edited);
      var late := PassAtWake(tables, edited, previous, otherWakes[i]);
      ReportedMeans(interval, late);
      lates, intervals := lates + [late], intervals + [interval];
      last, tables, previous := tables.nextWakeAt.value, edited, otherWakes[i];
    }
  }

  lemma TablesHold(db: SchedulerDb)
    ensures Tables(db).sources == db.sources
  {}

  lemma ReportedMeans(i: Interval, late: int)
    requires i.last + MIN_SLEEP <= i.now <= i.last + MAX_SLEEP && EditedSince(i.left, i.found, i.last)
    requires var bound := ReportBound(i.found.sources);
             late >= bound <==> SomeRemadeLate(i.left, i.found, i.last, i.now, bound)
    ensures ReportedIff(i, late)
  {}

  // ----- A deleted copy -----

  /** Every day from the first of 1970, twice at most, and never saved again. */
  const TWICE: Source :=
    Source(1, Config(Fixed, Some(1), Some(DayUnit), [], Some(0), AfterOccurrences, None, Some(2)), true,
           TaskState(Open, None), 0)

  const SECOND: map<Key, TaskState> := map[(1, 2) := FRESH]

  lemma TwiceDue(now: Time)
    requires now >= DAY_MS
    ensures SourceDue(SECOND, TWICE, now, 0) == {} && SourceDue(map[], TWICE, now, 0) == {2}
    ensures SourceItem(map[], TWICE, now, 0, None, 2) == OverdueItem(DAY_MS, 0)
  {
    hide AddMonths, WeeklyDate;
    forall n: nat ensures n in SourceDue(map[], TWICE, now, 0) <==> n == 2 {}
  }

  lemma DailyWaits(finished: Time, now: Time)
    requires 0 <= finished && finished + DAY_MS <= now
    ensures SourceDue(SECOND, Daily(finished), now, 0) == {} && SourceDue(map[], Daily(finished), now, 0) == {2}
    ensures SourceItem(map[], Daily(finished), now, 0, None, 2) == OverdueItem(finished + DAY_MS, finished)
  {
    assert (1, 2) in SECOND.Keys && FiredSeqs(SECOND.Keys, 1) == {2};
    assert LatestSeq(SECOND.Keys, 1) == Some(2);
    DailyDue(finished, map[], now);
    DailyItem(finished, now);
  }

  /** All that happened between the passes is that the copy was deleted. */
  ghost predicate OnlyDeleted(i: Interval, last: Time, now: Time) {
    && i.last == last && i.now == now && EditedSince(i.left, i.found, last)
    && i.left.copies == SECOND && i.found == i.left.(copies := map[])
  }

  /** Deleting that copy is one of the edits the bounds above speak of. */
  lemma DeletingIsAnEdit(a: Stored, b: Stored, last: Time)
    requires a.sources == b.sources && a.templates == b.templates == [] && a.lead == b.lead && b.copies == map[]
    requires a.goals == b.goals
    ensures EditedSince(a, b, last)
  {
    forall s | s in b.sources ensures SourceKept(a, b, s, s, last) {}
  }

  /** A copy that nothing would make before is due as soon as it is deleted, and the next pass makes it. */
  lemma MadeAgain(s: Source, db: SchedulerDb, now: Time)
    requires s.id == 1 && db.sources == [s] && db.lead == 0 && SourceDue(map[], s, now, 0) == {2}
    requires db.SourcesAdded(map[], db.copies, now) && SourceDue(db.copies, s, now, 0) == {}
    ensures (1, 2) in db.copies
  {
    hide SourceDue;
    assert db.copies.Keys <= {(1, 2)};
  }

  /** How late the second pass is reported when it finds just this copy due, and that it makes it. */
  method PassAndReport(db: SchedulerDb, s: Source, item: OverdueItem, last: Time, now: Time) returns (late: int)
    requires s.id == 1 && RecurringRow(s.cfg) && db.templates == [] && db.sources == [s] && db.goals == []
    requires db.lead == 0 && db.leadSetAt == None && db.copies == map[] && SourceDue(map[], s, now, 0) == {2}
    requires SourceItem(map[], s, now, 0, None, 2) == item && item.setUpAt <= last && item.setUpAt <= item.dueAt <= now
    modifies db
    ensures (1, 2) in db.copies && db.lastTickAt == Some(now) && late == now - item.dueAt
  {
    hide SourceDue, Rested, SoonExactly, SourceItem, RecurringRow;
    var items := db.MeasureOverdue(now);
    OneItem(db, s, now, 2, items.value);
    late := LateForScheduler(items.value, now, last);
    assert item in items.value;
    PassAndRest(db, now, []);
    RestedIsClear(db, now, [], db.nextWakeAt.value, s);
    MadeAgain(s, db, now);
  }

  /** A pass, then the one copy is deleted, then the next pass at its wake: how late it is reported. */
  method DeleteAndReport(s: Source, eligible: Time, setUpAt: Time, start: Time)
    returns (db: SchedulerDb, late: int, ghost i: Interval)
    requires s.id == 1 && RecurringRow(s.cfg) && 0 <= setUpAt <= eligible <= start
    requires SourceDue(SECOND, s, start, 0) == {}
    requires forall now :: now >= start ==> SourceDue(map[], s, now, 0) == {2}
    requires forall now :: now >= start ==> SourceItem(map[], s, now, 0, None, 2) == OverdueItem(eligible, setUpAt)
    ensures fresh(db) && db.sources == [s] && (1, 2) in db.copies
    ensures db.lastTickAt.Some? && start + MIN_SLEEP <= db.lastTickAt.value <= start + MAX_SLEEP
    ensures late == db.lastTickAt.value - eligible && OnlyDeleted(i, start, db.lastTickAt.value)
  {
    hide SourceDue, Rested, SoonExactly, SourceItem, RecurringRow, EditedSince;
    var before := new SchedulerDb([], [s], 0, None, map[], SECOND, []);
    PassAndRest(before, start, []);
    NothingMade(before, SECOND, start);
    var now := before.nextWakeAt.value;
    RestedIsSoon(before, start, [], now);
    db := new SchedulerDb([], [s], 0, None, before.occurrences, map[], before.goals);
    i := Interval(start, now, Tables(before), Tables(db));
    DeletingIsAnEdit(i.left, i.found, start);
    late := PassAndReport(db, s, OverdueItem(eligible, setUpAt), start, now);
  }

  lemma RestedIsSoon(db: SchedulerDb, now: Time, otherWakes: seq<Time>, w: Time)
    requires Rested(db, now, otherWakes, w)
    ensures now + MIN_SLEEP <= w <= now + MAX_SLEEP
  {}

  /**
   No task recurs on completion, every pass runs at its wake and makes what it should; yet a copy deleted in
   between has the scheduler reported late by all the time since that copy first fell due.
   */
  method ADeletedCopy(start: Time) returns (db: SchedulerDb, late: int, ghost i: Interval)
    requires start >= 2 * DAY_MS
    ensures fresh(db) && NoneOnCompletion(db.sources) && (1, 2) in db.copies && db.lastTickAt.Some?
    ensures start + MIN_SLEEP <= db.lastTickAt.value <= start + MAX_SLEEP
    ensures late == db.lastTickAt.value - 86_400_000 > 1_800_000 && OnlyDeleted(i, start, db.lastTickAt.value)
  {
    hide SourceDue, SourceItem;
    forall now | now >= start
      ensures SourceDue(map[], TWICE, now, 0) == {2}
      ensures SourceItem(map[], TWICE, now, 0, None, 2) == OverdueItem(DAY_MS, 0)
    {
      TwiceDue(now);
    }
    TwiceDue(start);
    db, late, i := DeleteAndReport(TWICE, DAY_MS, 0, start);
  }

  /** And with a task recurring on completion the report passes the ceiling. */
  method ADeletedLatestCopy(finished: Time, start: Time) returns (db: SchedulerDb, late: int, ghost i: Interval)
    requires finished >= 0 && start >= finished + 2 * DAY_MS
    ensures fresh(db) && (1, 2) in db.copies && db.lastTickAt.Some?
    ensures late == db.lastTickAt.value - (finished + DAY_MS) > MAX_SLEEP
    ensures OnlyDeleted(i, start, db.lastTickAt.value)
  {
    hide SourceDue, SourceItem;
    var s := Daily(finished);
    forall now | now >= start
      ensures SourceDue(map[], s, now, 0) == {2}
      ensures SourceItem(map[], s, now, 0, None, 2) == OverdueItem(finished + DAY_MS, finished)
    {
      DailyWaits(finished, now);
    }
    DailyWaits(finished, start);
    db, late, i := DeleteAndReport(s, finished + DAY_MS, finished, start);
  }
}
