/**
 One scheduler pass over the stored series: materialize everything due, measure what is still
 overdue, and work out when to wake next. A pass leaves nothing overdue for any series whose own
 generation did not throw, and the next wake never comes too late for a Fixed occurrence.
 */
module SchedulerPass {
  import opened Wrappers
  import opened Entities
  import opened Calendar
  import opened Recurrence

  const MIN_SLEEP: int := 60_000
  const MAX_SLEEP: int := 21_600_000
  const LATE_THRESHOLD: int := 1_800_000

  datatype TaskState = TaskState(status: Status, statusChangedAt: Option<Time>)

  datatype Node = Node(startOffset: Option<int>, dueOffset: Option<int>, updatedAt: Time)

  datatype Template = Template(id: nat, cfg: Config, isActive: bool, nodes: seq<Node>, updatedAt: Time)

  /** A task set to recur; it is occurrence 1 itself. */
  datatype Source = Source(id: nat, cfg: Config, isActive: bool, task: TaskState, updatedAt: Time)

  datatype Goal = Goal(approved: bool, deadline: Time, updatedAt: Time)

  /** (series id, sequence number): the unique index that is the claim on an occurrence. */
  type Key = (nat, nat)

  /** Scheduled occurrences by key, with the state of their root task while it exists. */
  type Occurrences = map<Key, Option<TaskState>>

  const FRESH: TaskState := TaskState(Open, None)

  // ----- What is due -----

  function Smaller(min: Option<int>, x: Option<int>): Option<int> {
    if x.None? then min else if min.None? || x.value < min.value then x else min
  }

  function SmallestOffset(nodes: seq<Node>): (r: Option<int>)
    ensures forall n :: n in nodes && n.startOffset.Some? ==> r.Some? && r.value <= n.startOffset.value
    ensures forall n :: n in nodes && n.dueOffset.Some? ==> r.Some? && r.value <= n.dueOffset.value
    ensures r.Some? ==> exists n :: n in nodes && (n.startOffset == r || n.dueOffset == r)
  {
    if nodes == [] then None
    else
      var n := nodes[|nodes| - 1];
      var rest := SmallestOffset(nodes[..|nodes| - 1]);
      assert nodes == nodes[..|nodes| - 1] + [n];
      Smaller(Smaller(rest, n.startOffset), n.dueOffset)
  }

  function EarliestOffset(nodes: seq<Node>): int {
    var r := SmallestOffset(nodes);
    if r.Some? then r.value else 0
  }

  function FiredSeqs(keys: set<Key>, id: nat): (s: set<nat>)
    ensures forall n :: n in s <==> (id, n) in keys
  {
    var s := set k | k in keys && k.0 == id :: k.1;
    assert forall n :: (id, n) in keys ==> (id, n).0 == id && (id, n).1 in s;
    s
  }

  lemma {:induction false} MaxOf(s: set<nat>) returns (top: nat)
    requires s != {}
    ensures top in s && forall y :: y in s ==> y <= top
    decreases s
  {
    var x :| x in s;
    var rest := s - {x};
    assert forall y :: y in s ==> y == x || y in rest;
    if rest == {} {
      top := x;
    } else {
      var m := MaxOf(rest);
      top := if x <= m then m else x;
    }
  }

  lemma HasMax(s: set<nat>)
    requires s != {}
    ensures exists x :: x in s && forall y :: y in s ==> y <= x
  {
    var top := MaxOf(s);
  }

  /** The series' highest sequence number so far. */
  function LatestSeq(keys: set<Key>, id: nat): (r: Option<nat>)
    ensures r.None? <==> FiredSeqs(keys, id) == {}
    ensures r.Some? ==> (id, r.value) in keys && forall n :: (id, n) in keys ==> n <= r.value
  {
    var s := FiredSeqs(keys, id);
    if s == {} then None
    else
      HasMax(s);
      var x :| x in s && forall y :: y in s ==> y <= x;
      Some(x)
  }

  datatype Next = Next(n: nat, anchor: Time, completedAt: Option<Time>)

  /** The pending occurrence of a RelativeToCompletion template, if it waits on a clock. */
  function RelativeNextAnchor(occurrences: Occurrences, t: Template, now: Time): Option<Next> {
    var latest, cfg := LatestSeq(occurrences.Keys, t.id), t.cfg;
    if latest.None? then
      if cfg.anchorDate.Some? && SeqAllowed(cfg, 1, cfg.anchorDate.value)
      then Some(Next(1, cfg.anchorDate.value, None)) else None
    else
      var root := occurrences[(t.id, latest.value)];
      if root.None? || root.value.status != Completed || cfg.intervalUnit.None?
         || cfg.intervalCount.None? || cfg.intervalCount.value == 0 then None
      else
        var anchor := AddInterval(CompletedAt(root.value, now), cfg.intervalUnit.value, cfg.intervalCount.value);
        if SeqAllowed(cfg, latest.value + 1, anchor) then
          Some(Next(latest.value + 1, anchor, Some(CompletedAt(root.value, now)))) else None
  }

  /** The pending occurrence of a RelativeToCompletion task; the task itself counts as occurrence 1. */
  function SourceNextAnchor(copies: map<Key, TaskState>, s: Source, now: Time): Option<Next> {
    var latestSeq, cfg := LatestSeq(copies.Keys, s.id), s.cfg;
    var latest := if latestSeq.Some? then copies[(s.id, latestSeq.value)] else s.task;
    var n := (if latestSeq.Some? then latestSeq.value else 1) + 1;
    if latest.status != Completed || cfg.intervalUnit.None? || cfg.intervalCount.None? then None
    else
      var completedAt := if latest.statusChangedAt.Some? then latest.statusChangedAt.value else now;
      var anchor := AddInterval(completedAt, cfg.intervalUnit.value, cfg.intervalCount.value);
      if SeqAllowed(cfg, n, anchor) then Some(Next(n, anchor, Some(completedAt))) else None
  }

  /** The sequence numbers a template should have by now and has not. */
  ghost function TemplateDue(occurrences: Occurrences, t: Template, now: Time, lead: int): set<nat> {
    if !t.isActive then {}
    else match t.cfg.recurrenceType
      case NoRecurrence => {}
      case Fixed =>
        set n | 1 <= n <= WALK_CAP && IsDue(t.cfg, n, now, lead, EarliestOffset(t.nodes)) && (t.id, n) !in occurrences
      case RelativeToCompletion =>
        var next := RelativeNextAnchor(occurrences, t, now);
        if next.Some? && IsWithinLeadTime(next.value.anchor, lead, now, 0) then {next.value.n} else {}
  }

  ghost function SourceDue(copies: map<Key, TaskState>, s: Source, now: Time, lead: int): set<nat> {
    if !s.isActive then {}
    else match s.cfg.recurrenceType
      case NoRecurrence => {}
      case Fixed => set n | 2 <= n <= WALK_CAP && IsDue(s.cfg, n, now, lead, 0) && (s.id, n) !in copies
      case RelativeToCompletion =>
        var next := SourceNextAnchor(copies, s, now);
        if next.Some? && IsWithinLeadTime(next.value.anchor, lead, now, 0) then {next.value.n} else {}
  }

  /**
   A template that recurs on completion has at most one occurrence pending, the next in sequence, and only
   once the one before it is Completed; it is anchored strictly after that.
   */
  lemma OneAtATime(occurrences: Occurrences, t: Template, now: Time, lead: int, k: nat)
    requires t.cfg.recurrenceType == RelativeToCompletion
    requires forall n :: n in FiredSeqs(occurrences.Keys, t.id) <==> 1 <= n <= k
    ensures TemplateDue(occurrences, t, now, lead) <= {k + 1}
    ensures k > 0 && RelativeNextAnchor(occurrences, t, now).Some? ==>
              var root := occurrences[(t.id, k)];
              && root.Some? && root.value.status == Completed
              && RelativeNextAnchor(occurrences, t, now).value.anchor > CompletedAt(root.value, now)
    ensures k == 0 && RelativeNextAnchor(occurrences, t, now).Some? ==>
              Some(RelativeNextAnchor(occurrences, t, now).value.anchor) == t.cfg.anchorDate
  {
    hide AddInterval, SeqAllowed, IsWithinLeadTime;
    var latest := LatestSeq(occurrences.Keys, t.id);
    if k > 0 {
      assert k in FiredSeqs(occurrences.Keys, t.id);
      assert latest == Some(k);
      var root := occurrences[(t.id, k)];
      if RelativeNextAnchor(occurrences, t, now).Some? {
        IntervalIsLater(CompletedAt(root.value, now), t.cfg.intervalUnit.value, t.cfg.intervalCount.value);
      }
    }
  }

  /** The same of a recurring task, which is its own occurrence 1. */
  lemma OneCopyAtATime(copies: map<Key, TaskState>, s: Source, now: Time, lead: int, k: nat)
    requires s.cfg.recurrenceType == RelativeToCompletion && RecurringRow(s.cfg) && k >= 1
    requires forall n :: n in FiredSeqs(copies.Keys, s.id) <==> 2 <= n <= k
    ensures SourceDue(copies, s, now, lead) <= {k + 1}
    ensures SourceNextAnchor(copies, s, now).Some? ==>
              var latest := if k > 1 then copies[(s.id, k)] else s.task;
              latest.status == Completed && SourceNextAnchor(copies, s, now).value.anchor > CompletedAt(latest, now)
  {
    hide AddInterval, SeqAllowed, IsWithinLeadTime;
    var latestSeq := LatestSeq(copies.Keys, s.id);
    if k > 1 {
      assert k in FiredSeqs(copies.Keys, s.id);
      assert latestSeq == Some(k);
    }
    if SourceNextAnchor(copies, s, now).Some? {
      IntervalIsLater(CompletedAt(if k > 1 then copies[(s.id, k)] else s.task, now), s.cfg.intervalUnit.value,
                      s.cfg.intervalCount.value);
    }
  }

  function CompletedAt(state: TaskState, now: Time): Time {
    if state.statusChangedAt.Some? then state.statusChangedAt.value else now
  }

  lemma IntervalIsLater(t: Time, u: Unit, count: nat)
    requires count >= 1
    ensures AddInterval(t, u, count) > t
  {
    hide AddMonths;
    match u
    case DayUnit =>
    case WeekUnit =>
    case MonthUnit => LaterByMonths(t, count);
    case YearUnit => LaterByMonths(t, count * 12);
  }

  lemma LaterByMonths(t: Time, months: int)
    requires months >= 1
    ensures AddMonths(t, months) > t
  {
    hide AddMonths, MonthOf;
    AddMonthsLands(t, months);
    LaterMonthIsLater(t, AddMonths(t, months));
  }

  /** One new row per number, in its initial state. */
  ghost function With<V>(rows: map<Key, V>, id: nat, ns: set<nat>, v: V): (r: map<Key, V>)
    ensures forall k :: k in r <==> k in rows || (k.0 == id && k.1 in ns)
    ensures forall k :: k in r && !(k.0 == id && k.1 in ns) ==> r[k] == rows[k]
    ensures forall n :: n in ns ==> r[(id, n)] == v
  {
    var added := set n | n in ns :: (id, n);
    assert forall n :: n in ns <==> (id, n) in added;
    assert forall k :: k in added ==> k == (id, k.1);
    rows + map k | k in added :: v
  }

  /** After everything due is there, nothing is due: the pass and the measurement ask the same questions. */
  lemma TemplateSettled(occurrences: Occurrences, t: Template, now: Time, lead: int)
    ensures TemplateDue(With(occurrences, t.id, TemplateDue(occurrences, t, now, lead), Some(FRESH)), t, now, lead)
            == {}
  {
    hide IsDue, AddInterval, SeqAllowed;
    var due := TemplateDue(occurrences, t, now, lead);
    var after := With(occurrences, t.id, due, Some(FRESH));
    if t.cfg.recurrenceType == RelativeToCompletion && due != {} {
      var n := RelativeNextAnchor(occurrences, t, now).value.n;
      assert after[(t.id, n)] == Some(FRESH);
      var before := LatestSeq(occurrences.Keys, t.id);
      assert before.Some? ==> n == before.value + 1;
      assert LatestSeq(after.Keys, t.id) == Some(n) by {
        forall m | (t.id, m) in after.Keys ensures m <= n {
          assert m != n ==> (t.id, m) in occurrences.Keys;
        }
      }
    } else if due == {} {
      assert after == occurrences;
    }
  }

  lemma SourceSettled(copies: map<Key, TaskState>, s: Source, now: Time, lead: int)
    ensures SourceDue(With(copies, s.id, SourceDue(copies, s, now, lead), FRESH), s, now, lead) == {}
  {
    hide IsDue, AddInterval, SeqAllowed;
    var due := SourceDue(copies, s, now, lead);
    var after := With(copies, s.id, due, FRESH);
    if s.cfg.recurrenceType == RelativeToCompletion && due != {} {
      var n := SourceNextAnchor(copies, s, now).value.n;
      assert after[(s.id, n)] == FRESH;
      assert LatestSeq(after.Keys, s.id) == Some(n) by {
        forall m | (s.id, m) in after.Keys ensures m <= n {
          assert m != n ==> (s.id, m) in copies.Keys;
        }
      }
    } else if due == {} {
      assert after == copies;
    }
  }

  /** What is due for one series depends on that series' rows alone. */
  lemma TemplateFrame(a: Occurrences, b: Occurrences, t: Template, now: Time, lead: int)
    requires SameRows(a, b, t.id)
    ensures TemplateDue(a, t, now, lead) == TemplateDue(b, t, now, lead)
  {
    hide IsDue, AddInterval, SeqAllowed;
    assert FiredSeqs(a.Keys, t.id) == FiredSeqs(b.Keys, t.id);
    assert LatestSeq(a.Keys, t.id) == LatestSeq(b.Keys, t.id);
  }

  lemma SourceFrame(a: map<Key, TaskState>, b: map<Key, TaskState>, s: Source, now: Time, lead: int)
    requires SameRows(a, b, s.id)
    ensures SourceDue(a, s, now, lead) == SourceDue(b, s, now, lead)
  {
    hide IsDue, AddInterval, SeqAllowed;
    assert FiredSeqs(a.Keys, s.id) == FiredSeqs(b.Keys, s.id);
    assert LatestSeq(a.Keys, s.id) == LatestSeq(b.Keys, s.id);
  }

  // ----- What is due, in the words of the product -----

  /** Number n with this anchor is within the end condition: a count of occurrences, a last date, or none. */
  predicate EndAllows(cfg: Config, n: nat, anchor: Time) {
    && n >= 1
    && (cfg.endType == AfterOccurrences ==> cfg.maxOccurrences.Some? && n <= cfg.maxOccurrences.value)
    && (cfg.endType == OnDate ==> cfg.endDate.Some? && anchor <= cfg.endDate.value)
  }

  /** That many days after the anchor, the lead time before that is over. */
  predicate Reached(anchor: Time, days: int, lead: int, now: Time) {
    anchor + days * 86_400_000 - lead * 86_400_000 <= now
  }

  /**
   Some date of an occurrence's tasks is reached: a node's start or due; the anchor itself where no node has
   either.
  */
  ghost predicate SomeDateReached(nodes: seq<Node>, anchor: Time, lead: int, now: Time) {
    || (exists n, o: int ::
          n in nodes && (n.startOffset == Some(o) || n.dueOffset == Some(o)) && Reached(anchor, o, lead, now))
    || ((forall n :: n in nodes ==> n.startOffset.None? && n.dueOffset.None?) && Reached(anchor, 0, lead, now))
  }

  /** The moment a task was completed, as far as it is known: a status without a time is taken for one of just now. */
  predicate FinishedAt(state: TaskState, now: Time, at: Time) {
    state.status == Completed && (state.statusChangedAt == Some(at) || (state.statusChangedAt.None? && at == now))
  }

  /** The occurrence after the latest one, an interval after that one's root task was completed; or the first. */
  ghost predicate PendingNext(occurrences: Occurrences, t: Template, now: Time, n: nat, anchor: Time) {
    && EndAllows(t.cfg, n, anchor)
    && if forall m :: (t.id, m) !in occurrences then n == 1 && t.cfg.anchorDate == Some(anchor)
       else n >= 1 && (t.id, n - 1) in occurrences && (forall m :: (t.id, m) in occurrences ==> m < n)
            && t.cfg.intervalUnit.Some? && t.cfg.intervalCount.Some? && t.cfg.intervalCount.value > 0
            && exists root, at :: occurrences[(t.id, n - 1)] == Some(root) && FinishedAt(root, now, at)
                                  && UnitsLater(at, t.cfg.intervalUnit.value, t.cfg.intervalCount.value, anchor)
  }

  /** What an active template should have by now and has not. */
  ghost predicate TemplateWants(occurrences: Occurrences, t: Template, now: Time, lead: int, n: nat) {
    t.isActive &&
    match t.cfg.recurrenceType
    case NoRecurrence => false
    case Fixed =>
      && (t.id, n) !in occurrences && 1 <= n <= 100_000 && FixedAnchor(t.cfg, n).Ok?
      && EndAllows(t.cfg, n, FixedAnchor(t.cfg, n).value)
      && SomeDateReached(t.nodes, FixedAnchor(t.cfg, n).value, lead, now)
    case RelativeToCompletion => exists anchor ::
        PendingNext(occurrences, t, now, n, anchor) && Reached(anchor, 0, lead, now)
  }

  lemma TemplateDueIff(occurrences: Occurrences, t: Template, now: Time, lead: int, n: nat)
    ensures n in TemplateDue(occurrences, t, now, lead) <==> TemplateWants(occurrences, t, now, lead, n)
  {
    hide FixedAnchor, AddInterval, UnitsLater;
    match t.cfg.recurrenceType
    case NoRecurrence =>
    case Fixed =>
      if FixedAnchor(t.cfg, n).Ok? { EarliestIsReached(t.nodes, FixedAnchor(t.cfg, n).value, lead, now); }
    case RelativeToCompletion =>
      hide PendingNext, RelativeNextAnchor;
      forall anchor { NextIsPending(occurrences, t, now, n, anchor); }
      var next := RelativeNextAnchor(occurrences, t, now);
      if n in TemplateDue(occurrences, t, now, lead) {
        assert next == Some(Next(n, next.value.anchor, next.value.completedAt));
        assert PendingNext(occurrences, t, now, n, next.value.anchor);
      }
  }

  lemma DueIsWanted(occurrences: Occurrences, t: Template, now: Time, lead: int)
    ensures forall n: nat ::
              n in TemplateDue(occurrences, t, now, lead) <==> TemplateWants(occurrences, t, now, lead, n)
  {
    hide TemplateDue, TemplateWants;
    forall n: nat { TemplateDueIff(occurrences, t, now, lead, n); }
  }

  lemma EarliestIsReached(nodes: seq<Node>, anchor: Time, lead: int, now: Time)
    ensures SomeDateReached(nodes, anchor, lead, now) <==> Reached(anchor, EarliestOffset(nodes), lead, now)
  {
    var r := SmallestOffset(nodes);
    if r.Some? {
      var n :| n in nodes && (n.startOffset == r || n.dueOffset == r);
      assert n.startOffset == Some(r.value) || n.dueOffset == Some(r.value);
    }
  }

  lemma NextIsPending(occurrences: Occurrences, t: Template, now: Time, n: nat, anchor: Time)
    ensures PendingNext(occurrences, t, now, n, anchor)
            <==> exists done :: RelativeNextAnchor(occurrences, t, now) == Some(Next(n, anchor, done))
  {
    var latest, next := LatestSeq(occurrences.Keys, t.id), RelativeNextAnchor(occurrences, t, now);
    if t.cfg.intervalUnit.Some? && t.cfg.intervalCount.Some? {
      forall at ensures UnitsLater(at, t.cfg.intervalUnit.value, t.cfg.intervalCount.value, anchor)
                        <==> anchor == AddInterval(at, t.cfg.intervalUnit.value, t.cfg.intervalCount.value) {
        IntervalIsThatLong(at, t.cfg.intervalUnit.value, t.cfg.intervalCount.value, anchor);
      }
    }
    hide AddInterval, UnitsLater;
    if latest.None? {
      assert forall m :: (t.id, m) !in occurrences;
    } else {
      assert (t.id, latest.value) in occurrences;
    }
    if PendingNext(occurrences, t, now, n, anchor) {
      assert next == Some(Next(n, anchor, next.value.completedAt));
    }
  }

  /** The copy after the latest one, or after the task itself, an interval after that one was completed. */
  ghost predicate PendingCopy(copies: map<Key, TaskState>, s: Source, now: Time, n: nat, anchor: Time) {
    && EndAllows(s.cfg, n, anchor) && s.cfg.intervalUnit.Some? && s.cfg.intervalCount.Some?
    && exists at :: UnitsLater(at, s.cfg.intervalUnit.value, s.cfg.intervalCount.value, anchor)
                    && if forall m :: (s.id, m) !in copies then n == 2 && FinishedAt(s.task, now, at)
                       else n >= 1 && (s.id, n - 1) in copies && (forall m :: (s.id, m) in copies ==> m < n)
                            && FinishedAt(copies[(s.id, n - 1)], now, at)
  }

  /** The same of a recurring task, which is its own occurrence 1. */
  ghost predicate SourceWants(copies: map<Key, TaskState>, s: Source, now: Time, lead: int, n: nat) {
    s.isActive &&
    match s.cfg.recurrenceType
    case NoRecurrence => false
    case Fixed =>
      && (s.id, n) !in copies && 2 <= n <= 100_000 && FixedAnchor(s.cfg, n).Ok?
      && EndAllows(s.cfg, n, FixedAnchor(s.cfg, n).value) && Reached(FixedAnchor(s.cfg, n).value, 0, lead, now)
    case RelativeToCompletion => exists anchor ::
        PendingCopy(copies, s, now, n, anchor) && Reached(anchor, 0, lead, now)
  }

  lemma SourceDueIff(copies: map<Key, TaskState>, s: Source, now: Time, lead: int, n: nat)
    ensures n in SourceDue(copies, s, now, lead) <==> SourceWants(copies, s, now, lead, n)
  {
    hide FixedAnchor, AddInterval, UnitsLater, PendingCopy, SourceNextAnchor;
    if s.cfg.recurrenceType == RelativeToCompletion {
      forall anchor { NextIsPendingCopy(copies, s, now, n, anchor); }
      var next := SourceNextAnchor(copies, s, now);
      if n in SourceDue(copies, s, now, lead) {
        assert next == Some(Next(n, next.value.anchor, next.value.completedAt));
        assert PendingCopy(copies, s, now, n, next.value.anchor);
      }
    }
  }

  lemma CopiesDueAreWanted(copies: map<Key, TaskState>, s: Source, now: Time, lead: int)
    ensures forall n: nat :: n in SourceDue(copies, s, now, lead) <==> SourceWants(copies, s, now, lead, n)
  {
    hide SourceDue, SourceWants;
    forall n: nat { SourceDueIff(copies, s, now, lead, n); }
  }

  lemma NextIsPendingCopy(copies: map<Key, TaskState>, s: Source, now: Time, n: nat, anchor: Time)
    ensures PendingCopy(copies, s, now, n, anchor)
            <==> exists done :: SourceNextAnchor(copies, s, now) == Some(Next(n, anchor, done))
  {
    var latest, next := LatestSeq(copies.Keys, s.id), SourceNextAnchor(copies, s, now);
    if s.cfg.intervalUnit.Some? && s.cfg.intervalCount.Some? {
      forall at ensures UnitsLater(at, s.cfg.intervalUnit.value, s.cfg.intervalCount.value, anchor)
                        <==> anchor == AddInterval(at, s.cfg.intervalUnit.value, s.cfg.intervalCount.value) {
        IntervalIsThatLong(at, s.cfg.intervalUnit.value, s.cfg.intervalCount.value, anchor);
      }
    }
    hide AddInterval, UnitsLater;
    if PendingCopy(copies, s, now, n, anchor) {
      assert latest.None? <==> forall m :: (s.id, m) !in copies;
      assert next == Some(Next(n, anchor, next.value.completedAt));
    }
    if done :| next == Some(Next(n, anchor, done)) {
      assert latest.Some? ==> (s.id, latest.value) in copies;
    }
  }

  /** When an occurrence of a template becomes eligible: when some date of its tasks is reached. */
  lemma TemplateEligibleMeans(t: Template, n: nat, lead: int, now: Time)
    requires FixedAnchor(t.cfg, n).Ok?
    ensures TemplateEligible(t, n, lead) <= now <==> SomeDateReached(t.nodes, FixedAnchor(t.cfg, n).value, lead, now)
  {
    hide FixedAnchor;
    EarliestIsReached(t.nodes, FixedAnchor(t.cfg, n).value, lead, now);
  }

  lemma SourceEligibleMeans(s: Source, n: nat, lead: int, now: Time)
    requires FixedAnchor(s.cfg, n).Ok?
    ensures SourceEligible(s, n, lead) <= now <==> Reached(FixedAnchor(s.cfg, n).value, 0, lead, now)
  {
    hide FixedAnchor;
  }

  // ----- What the next wake looks at, in the words of the product -----

  /** An occurrence of an active Fixed template that is still to come or to be made. */
  lemma UnfiredMeans(occurrences: Occurrences, t: Template, n: nat)
    ensures Unfired(occurrences, t, n) <==>
              t.isActive && t.cfg.recurrenceType == Fixed && (t.id, n) !in occurrences && 1 <= n <= 100_000
              && FixedAnchor(t.cfg, n).Ok? && EndAllows(t.cfg, n, FixedAnchor(t.cfg, n).value)
  {
    hide FixedAnchor;
    NoAnchorMeans(t.cfg, n);
  }

  lemma UnfiredCopyMeans(copies: map<Key, TaskState>, s: Source, n: nat)
    ensures UnfiredCopy(copies, s, n) <==>
              s.isActive && s.cfg.recurrenceType == Fixed && (s.id, n) !in copies && 2 <= n <= 100_000
              && FixedAnchor(s.cfg, n).Ok? && EndAllows(s.cfg, n, FixedAnchor(s.cfg, n).value)
  {
    hide FixedAnchor;
    NoAnchorMeans(s.cfg, n);
  }

  /** n is eligible from c on, which is ahead, and no earlier number still to be made is eligible later than now. */
  ghost predicate TemplateAhead(occurrences: Occurrences, t: Template, lead: int, now: Time, n: nat, c: Time) {
    && Unfired(occurrences, t, n) && c == TemplateEligible(t, n, lead) && c > now
    && forall m: nat :: m < n && Unfired(occurrences, t, m) ==> TemplateEligible(t, m, lead) <= now
  }

  ghost predicate SourceAhead(copies: map<Key, TaskState>, s: Source, lead: int, now: Time, n: nat, c: Time) {
    && UnfiredCopy(copies, s, n) && c == SourceEligible(s, n, lead) && c > now
    && forall m: nat :: m < n && UnfiredCopy(copies, s, m) ==> SourceEligible(s, m, lead) <= now
  }

  /** A template waits for its first occurrence ahead; one that recurs on completion, for the one pending. */
  lemma TemplateAsksMeans(db: SchedulerDb, t: Template, now: Time, c: Time)
    ensures db.TemplateAsks(t, now, c) <==>
              if t.cfg.recurrenceType == RelativeToCompletion then
                t.isActive && c > now
                && exists n, anchor ::
                     PendingNext(db.occurrences, t, now, n, anchor) && c == anchor - db.lead * 86_400_000
              else exists n :: TemplateAhead(db.occurrences, t, db.lead, now, n, c)
  {
    hide FixedAnchor, AddInterval, UnitsLater, SeqAllowed, Eligible;
    var fired := FiredSeqs(db.occurrences.Keys, t.id);
    if t.cfg.recurrenceType == RelativeToCompletion {
      hide PendingNext, RelativeNextAnchor;
      var next := RelativeNextAnchor(db.occurrences, t, now);
      forall n, anchor { NextIsPending(db.occurrences, t, now, n, anchor); }
      if next.Some? {
        assert next == Some(Next(next.value.n, next.value.anchor, next.value.completedAt));
        assert PendingNext(db.occurrences, t, now, next.value.n, next.value.anchor);
      }
    } else if t.isActive && t.cfg.recurrenceType == Fixed {
      forall n: nat ensures Unfired(db.occurrences, t, n) <==> IsScheduled(t.cfg, n) && n !in fired {
        NoAnchorMeans(t.cfg, n);
      }
      forall n: nat ensures TemplateAhead(db.occurrences, t, db.lead, now, n, c) <==>
                              NextGhost(t.cfg, fired, EarliestOffset(t.nodes), now, db.lead, n)
                              && c == TemplateEligible(t, n, db.lead) {}
    }
  }

  /** A recurring task waits for its first copy ahead, if it is Fixed; otherwise for nothing. */
  lemma SourceAsksMeans(db: SchedulerDb, s: Source, now: Time, c: Time)
    ensures db.SourceAsks(s, now, c) <==> exists n :: SourceAhead(db.copies, s, db.lead, now, n, c)
  {
    hide FixedAnchor, SeqAllowed, Eligible;
    var fired := FiredSeqs(db.copies.Keys, s.id) + {1};
    if s.isActive && s.cfg.recurrenceType == Fixed {
      forall n: nat ensures UnfiredCopy(db.copies, s, n) <==> IsScheduled(s.cfg, n) && n !in fired {
        NoAnchorMeans(s.cfg, n);
      }
      forall n: nat ensures SourceAhead(db.copies, s, db.lead, now, n, c) <==>
                              NextGhost(s.cfg, fired, 0, now, db.lead, n) && c == SourceEligible(s, n, db.lead) {}
    }
  }

  /** What is waited for is a goal's deadline, a moment passed in, a template or a task; and it is always ahead. */
  lemma AskedMeans(db: SchedulerDb, now: Time, otherWakes: seq<Time>, c: Time)
    ensures db.Asked(now, otherWakes, c) <==>
              c > now && (c in otherWakes
                          || (exists g :: g in db.goals && g.approved && g.deadline == c)
                          || (exists t :: t in db.templates && db.TemplateAsks(t, now, c))
                          || (exists s :: s in db.sources && db.SourceAsks(s, now, c)))
  {
    hide FixedAnchor, AddInterval, IsScheduled, RelativeNextAnchor, TemplateEligible, SourceEligible;
    forall t ensures db.TemplateAsks(t, now, c) ==> c > now { TemplateAsksMeans(db, t, now, c); }
    forall s ensures db.SourceAsks(s, now, c) ==> c > now { SourceAsksMeans(db, s, now, c); }
  }

  // ----- What a measurement reports, in the words of the product -----

  /** Everything a template's occurrence rests on was set by that moment: the template, its nodes, the lead time. */
  ghost predicate TemplateSetBy(t: Template, leadSetAt: Option<Time>, at: Time) {
    0 <= at && t.updatedAt <= at && (forall node :: node in t.nodes ==> node.updatedAt <= at)
    && (leadSetAt.Some? ==> leadSetAt.value <= at)
  }

  ghost predicate SourceSetBy(s: Source, leadSetAt: Option<Time>, at: Time) {
    0 <= at && s.updatedAt <= at && (leadSetAt.Some? ==> leadSetAt.value <= at)
  }

  /** The occurrence before, where there is one, was completed by that moment. */
  ghost predicate BeforeDoneBy(occurrences: Occurrences, id: nat, n: nat, now: Time, at: Time) {
    forall root, done ::
      n >= 1 && (id, n - 1) in occurrences && occurrences[(id, n - 1)] == Some(root) && FinishedAt(root, now, done)
      ==> done <= at
  }

  ghost predicate CopyBeforeDoneBy(copies: map<Key, TaskState>, s: Source, n: nat, now: Time, at: Time) {
    forall before, done ::
      (n >= 1 && FinishedAt(before, now, done)
       && before == if (s.id, n - 1) in copies then copies[(s.id, n - 1)] else s.task) ==>
        done <= at
  }

  /** It is reported from the first moment it was to run, and as known from the first at which all of that was set. */
  lemma TemplateItemMeans(occurrences: Occurrences, t: Template, now: Time, lead: int, leadSetAt: Option<Time>, n: nat)
    requires TemplateWants(occurrences, t, now, lead, n)
    ensures var item := TemplateItem(occurrences, t, now, lead, leadSetAt, n);
            && (t.cfg.recurrenceType == Fixed ==>
                  && (forall m :: SomeDateReached(t.nodes, FixedAnchor(t.cfg, n).value, lead, m) <==> item.dueAt <= m)
                  && (forall m :: TemplateSetBy(t, leadSetAt, m) <==> item.setUpAt <= m))
            && (t.cfg.recurrenceType == RelativeToCompletion ==>
                  && PendingNext(occurrences, t, now, n, item.dueAt + lead * 86_400_000)
                  && (forall m :: TemplateSetBy(t, leadSetAt, m) && BeforeDoneBy(occurrences, t.id, n, now, m)
                                  <==> item.setUpAt <= m))
  {
    hide FixedAnchor, AddInterval, UnitsLater, SeqAllowed;
    var item := TemplateItem(occurrences, t, now, lead, leadSetAt, n);
    if t.cfg.recurrenceType == Fixed {
      forall m { TemplateEligibleMeans(t, n, lead, m); }
    } else {
      var anchor :| PendingNext(occurrences, t, now, n, anchor);
      NextIsPending(occurrences, t, now, n, anchor);
      var latest := LatestSeq(occurrences.Keys, t.id);
      forall m ensures TemplateSetBy(t, leadSetAt, m) && BeforeDoneBy(occurrences, t.id, n, now, m)
                       <==> item.setUpAt <= m {
        if latest.Some? {
          assert n == latest.value + 1;
          var root := occurrences[(t.id, n - 1)];
          assert FinishedAt(root.value, now, CompletedAt(root.value, now));
        } else {
          assert n == 1 && (t.id, 0) !in occurrences;
        }
      }
    }
  }

  lemma SourceItemMeans(copies: map<Key, TaskState>, s: Source, now: Time, lead: int, leadSetAt: Option<Time>, n: nat)
    requires SourceWants(copies, s, now, lead, n)
    ensures var item := SourceItem(copies, s, now, lead, leadSetAt, n);
            && (s.cfg.recurrenceType == Fixed ==>
                  && item.dueAt == FixedAnchor(s.cfg, n).value - lead * 86_400_000
                  && (forall m :: SourceSetBy(s, leadSetAt, m) <==> item.setUpAt <= m))
            && (s.cfg.recurrenceType == RelativeToCompletion ==>
                  && PendingCopy(copies, s, now, n, item.dueAt + lead * 86_400_000)
                  && (forall m :: SourceSetBy(s, leadSetAt, m) && CopyBeforeDoneBy(copies, s, n, now, m)
                                  <==> item.setUpAt <= m))
  {
    hide FixedAnchor, AddInterval, UnitsLater, SeqAllowed;
    var item := SourceItem(copies, s, now, lead, leadSetAt, n);
    if s.cfg.recurrenceType == RelativeToCompletion {
      var anchor :| PendingCopy(copies, s, now, n, anchor);
      NextIsPendingCopy(copies, s, now, n, anchor);
      var latest := LatestSeq(copies.Keys, s.id);
      forall m ensures SourceSetBy(s, leadSetAt, m) && CopyBeforeDoneBy(copies, s, n, now, m) <==> item.setUpAt <= m {
        var state := if latest.Some? then copies[(s.id, latest.value)] else s.task;
        assert latest.None? ==> (s.id, 1) !in copies;
        assert state.status == Completed;
        assert FinishedAt(state, now, CompletedAt(state, now));
        assert state == if (s.id, n - 1) in copies then copies[(s.id, n - 1)] else s.task;
      }
    }
  }

  // ----- The stored state and the pass -----

  ghost predicate TemplatesApart(ts: seq<Template>) {
    forall i, j :: 0 <= i < j < |ts| ==> ts[i].id != ts[j].id
  }

  ghost predicate SourcesApart(ss: seq<Source>) {
    forall i, j :: 0 <= i < j < |ss| ==> ss[i].id != ss[j].id
  }

  /** An item that should have run by now and has not. */
  datatype OverdueItem = OverdueItem(dueAt: Time, setUpAt: Time)

  class SchedulerDb {
    const templates: seq<Template>
    const sources: seq<Source>
    const lead: int
    const leadSetAt: Option<Time>
    var occurrences: Occurrences
    var copies: map<Key, TaskState>
    var goals: seq<Goal>
    var lastTickAt: Option<Time>
    var nextWakeAt: Option<Time>

    constructor (templates: seq<Template>, sources: seq<Source>, lead: int, leadSetAt: Option<Time>,
                 occurrences: Occurrences, copies: map<Key, TaskState>, goals: seq<Goal>)
      ensures this.templates == templates && this.sources == sources && this.lead == lead && this.leadSetAt == leadSetAt
      ensures this.occurrences == occurrences && this.copies == copies && this.goals == goals
      ensures lastTickAt == None && nextWakeAt == None
    {
      this.templates, this.sources, this.lead, this.leadSetAt := templates, sources, lead, leadSetAt;
      this.occurrences, this.copies, this.goals := occurrences, copies, goals;
      lastTickAt, nextWakeAt := None, None;
    }

    /**
     Generate one occurrence; the key being taken already is not an error, and makes nothing. What throws after
     the commit leaves its row.
    */
    method FireOccurrence(id: nat, n: nat, throwing: set<Key>) returns (r: Option<nat>)
      modifies this`occurrences
      ensures (id, n) in old(occurrences) ==> r == Some(0) && occurrences == old(occurrences)
      ensures (id, n) !in old(occurrences) && (id, n) in throwing ==>
                r == None && (occurrences == old(occurrences)
                              || occurrences == old(occurrences)[(id, n) := Some(FRESH)])
      ensures (id, n) !in old(occurrences) && (id, n) !in throwing ==>
                r == Some(1) && occurrences == old(occurrences)[(id, n) := Some(FRESH)]
    {
      if (id, n) in occurrences { return Some(0); }
      if (id, n) in throwing {
        if * { occurrences := occurrences[(id, n) := Some(FRESH)]; }
        return None;
      }
      occurrences := occurrences[(id, n) := Some(FRESH)];
      r := Some(1);
    }

    /** The catch-up loop of a Fixed series, in sequence. */
    method FireAll(id: nat, seqs: seq<nat>, ghost due: set<nat>, throwing: set<Key>) returns (r: Option<nat>)
      requires StrictlyAscending(seqs) && forall n :: n in due <==> n in seqs
      requires forall n :: n in seqs ==> (id, n) !in occurrences
      modifies this`occurrences
      ensures r.Some? ==> occurrences == With(old(occurrences), id, due, Some(FRESH)) && r.value == |due|
      ensures r.None? ==> exists n :: n in due && (id, n) in throwing
      ensures OnlyAdds(old(occurrences), occurrences, id, due, Some(FRESH))
    {
      hide With, StrictlyAscending;
      var count: nat := 0;
      var i := 0;
      NoneTwice(seqs);
      while i < |seqs|
        invariant 0 <= i <= |seqs| && count == i
        invariant forall k :: k in occurrences <==> k in old(occurrences) || (k.0 == id && k.1 in seqs[..i])
        invariant forall k :: k in old(occurrences) ==> occurrences[k] == old(occurrences)[k]
        invariant forall n :: n in seqs[..i] ==> occurrences[(id, n)] == Some(FRESH)
      {
        var n := seqs[i];
        assert n !in seqs[..i] && seqs[..i + 1] == seqs[..i] + [n];
        var made := FireOccurrence(id, n, throwing);
        if made.None? { return None; }
        count := count + made.value;
        i := i + 1;
      }
      assert seqs[..i] == seqs;
      AscendingSize(seqs, due);
      r := Some(count);
    }

    /** None when the template threw part-way; whatever it generated before that stays. */
    method MaterializeDueForTemplate(t: Template, now: Time, throwing: set<Key>) returns (r: Option<nat>)
      requires t.isActive
      modifies this`occurrences
      ensures r.Some? ==>
                && occurrences == With(old(occurrences), t.id, TemplateDue(old(occurrences), t, now, lead), Some(FRESH))
                && r.value == |TemplateDue(old(occurrences), t, now, lead)|
      ensures TemplateDue(old(occurrences), t, now, lead) == {} ==> occurrences == old(occurrences)
      ensures r.None? ==> !Sound(t.cfg) || exists n ::
              n in TemplateDue(old(occurrences), t, now, lead) && (t.id, n) in throwing
      ensures OnlyAdds(old(occurrences), occurrences, t.id, TemplateDue(old(occurrences), t, now, lead), Some(FRESH))
      // all the template wants by now, and nothing it does not
      ensures forall n :: (t.id, n) in occurrences ==>
                (t.id, n) in old(occurrences)
                || (TemplateWants(old(occurrences), t, now, lead, n)
                    && occurrences[(t.id, n)] == Some(TaskState(Open, None)))
      ensures r.Some? ==> forall n: nat :: TemplateWants(old(occurrences), t, now, lead, n) ==> (t.id, n) in occurrences
    {
      DueIsWanted(occurrences, t, now, lead);
      hide IsDue, AddInterval, SeqAllowed, IsWithinLeadTime, TemplateWants;
      ghost var due := TemplateDue(occurrences, t, now, lead);
      match t.cfg.recurrenceType
      case NoRecurrence => r := Some(0);
      case RelativeToCompletion =>
        var next := RelativeNextAnchor(occurrences, t, now);
        if next.None? || !IsWithinLeadTime(next.value.anchor, lead, now, 0) { return Some(0); }
        NextIsNew(occurrences, t, now);
        r := FireOccurrence(t.id, next.value.n, throwing);
      case Fixed =>
        var fired := FiredSeqs(occurrences.Keys, t.id);
        var offset := EarliestOffset(t.nodes);
        var seqs := DueFixedSeqs(t.cfg, fired, now, lead, offset);
        if seqs.Err? { return None; }
        DueWithinWalk(t.cfg, now, lead, offset);
        assert forall n :: n in due <==> n in seqs.value;
        r := FireAll(t.id, seqs.value, due, throwing);
    }

    /** The catch-up loop of a Fixed series, in sequence. */
    method GenerateAll(id: nat, seqs: seq<nat>, ghost due: set<nat>, throwing: set<Key>) returns (r: Option<nat>)
      requires StrictlyAscending(seqs) && forall n :: n in due <==> n in seqs
      requires forall n :: n in seqs ==> (id, n) !in copies
      modifies this`copies
      ensures r.Some? ==> copies == With(old(copies), id, due, FRESH) && r.value == |due|
      ensures r.None? ==> exists n :: n in due && (id, n) in throwing
      ensures OnlyAdds(old(copies), copies, id, due, FRESH)
    {
      hide With, StrictlyAscending;
      var count: nat := 0;
      var i := 0;
      NoneTwice(seqs);
      while i < |seqs|
        invariant 0 <= i <= |seqs| && count == i
        invariant forall k :: k in copies <==> k in old(copies) || (k.0 == id && k.1 in seqs[..i])
        invariant forall k :: k in old(copies) ==> copies[k] == old(copies)[k]
        invariant forall n :: n in seqs[..i] ==> copies[(id, n)] == FRESH
      {
        var n := seqs[i];
        assert n !in seqs[..i] && seqs[..i + 1] == seqs[..i] + [n];
        var made := GenerateTaskOccurrence(id, n, throwing);
        if made.None? { return None; }
        count := count + made.value;
        i := i + 1;
      }
      assert seqs[..i] == seqs;
      AscendingSize(seqs, due);
      r := Some(count);
    }

    method MaterializeDueForSource(s: Source, now: Time, throwing: set<Key>) returns (r: Option<nat>)
      requires s.isActive && RecurringRow(s.cfg)
      modifies this`copies
      ensures r.Some? ==>
                && copies == With(old(copies), s.id, SourceDue(old(copies), s, now, lead), FRESH)
                && r.value == |SourceDue(old(copies), s, now, lead)|
      ensures SourceDue(old(copies), s, now, lead) == {} ==> copies == old(copies)
      ensures r.None? ==> exists n :: n in SourceDue(old(copies), s, now, lead) && (s.id, n) in throwing
      ensures OnlyAdds(old(copies), copies, s.id, SourceDue(old(copies), s, now, lead), FRESH)
      ensures forall n :: (s.id, n) in copies ==>
                (s.id, n) in old(copies)
                || (SourceWants(old(copies), s, now, lead, n) && copies[(s.id, n)] == TaskState(Open, None))
      ensures r.Some? ==> forall n: nat :: SourceWants(old(copies), s, now, lead, n) ==> (s.id, n) in copies
    {
      CopiesDueAreWanted(copies, s, now, lead);
      hide IsDue, AddInterval, SeqAllowed, IsWithinLeadTime, SourceWants;
      ghost var due := SourceDue(copies, s, now, lead);
      match s.cfg.recurrenceType
      case NoRecurrence => r := Some(0);
      case RelativeToCompletion =>
        var next := SourceNextAnchor(copies, s, now);
        if next.None? || !IsWithinLeadTime(next.value.anchor, lead, now, 0) { return Some(0); }
        assert (s.id, next.value.n) !in copies;
        r := GenerateTaskOccurrence(s.id, next.value.n, throwing);
      case Fixed =>
        var fired := FiredSeqs(copies.Keys, s.id) + {1};
        var seqs := DueFixedSeqs(s.cfg, fired, now, lead, 0);
        DueWithinWalk(s.cfg, now, lead, 0);
        assert forall n :: n in due <==> n in seqs.value;
        r := GenerateAll(s.id, seqs.value, due, throwing);
    }

    method GenerateTaskOccurrence(id: nat, n: nat, throwing: set<Key>) returns (r: Option<nat>)
      modifies this`copies
      ensures (id, n) in old(copies) ==> r == Some(0) && copies == old(copies)
      ensures (id, n) !in old(copies) && (id, n) in throwing ==>
                r == None && (copies == old(copies) || copies == old(copies)[(id, n) := FRESH])
      ensures (id, n) !in old(copies) && (id, n) !in throwing ==>
              r == Some(1) && copies == old(copies)[(id, n) := FRESH]
    {
      if (id, n) in copies { return Some(0); }
      if (id, n) in throwing {
        if * { copies := copies[(id, n) := FRESH]; }
        return None;
      }
      copies := copies[(id, n) := FRESH];
      r := Some(1);
    }

    ghost predicate TemplatesClear(ts: seq<Template>, now: Time)
      reads this`occurrences
    {
      forall t :: t in ts ==> TemplateDue(occurrences, t, now, lead) == {}
    }

    ghost predicate SourcesClear(ss: seq<Source>, now: Time)
      reads this`copies
    {
      forall s :: s in ss ==> SourceDue(copies, s, now, lead) == {}
    }

    ghost predicate GoalsClear(gs: seq<Goal>, now: Time) {
      forall g :: g in gs ==> !GoalOverdue(g, now)
    }

    ghost predicate NothingOverdue(now: Time)
      reads this`occurrences, this`copies, this`goals
    {
      TemplatesClear(templates, now) && SourcesClear(sources, now) && GoalsClear(goals, now)
    }

    /** items lists, for each number due in ascending order, when it fell due and when it was set up. */
    ghost predicate TemplateReport(t: Template, now: Time, items: seq<OverdueItem>)
      reads this
    {
      exists ns :: InOrder(ns, TemplateDue(occurrences, t, now, lead)) && |items| == |ns|
                   && forall i :: 0 <= i < |ns| ==>
                      items[i] == TemplateItem(occurrences, t, now, lead, leadSetAt, ns[i])
    }

    ghost predicate SourceReport(s: Source, now: Time, items: seq<OverdueItem>)
      reads this
    {
      exists ns :: InOrder(ns, SourceDue(copies, s, now, lead)) && |items| == |ns|
                   && forall i :: 0 <= i < |ns| ==> items[i] == SourceItem(copies, s, now, lead, leadSetAt, ns[i])
    }

    /** One report a template, then one a recurring task, then the goals. */
    ghost predicate OverdueReport(now: Time, items: seq<OverdueItem>)
      reads this
    {
      exists parts: seq<seq<OverdueItem>> ::
        |parts| == |templates| + |sources| && items == Flat(parts) + GoalItems(goals, now)
        && (forall i :: 0 <= i < |templates| ==> TemplateReport(templates[i], now, parts[i]))
        && forall j :: 0 <= j < |sources| ==> SourceReport(sources[j], now, parts[|templates| + j])
    }

    /** Every item that should have run by now; empty exactly when nothing is overdue. */
    method MeasureOverdue(now: Time) returns (r: Option<seq<OverdueItem>>)
      requires forall s :: s in sources ==> RecurringRow(s.cfg)
      ensures r.None? <==> exists t :: t in templates && t.isActive && !Sound(t.cfg)
      ensures r.Some? ==> OverdueReport(now, r.value)
      ensures r.Some? ==> (|r.value| == 0 <==> NothingOverdue(now))
      ensures r.Some? ==> forall item :: item in r.value ==> item.dueAt <= now
    {
      hide IsDue, AddInterval, SeqAllowed, TemplateDue, SourceDue, TemplateReport, SourceReport, Flat, GoalItems, Sound;
      var items: seq<OverdueItem> := [];
      ghost var parts: seq<seq<OverdueItem>> := [];
      NothingFlat(goals, now);
      var i := 0;
      while i < |templates|
        invariant 0 <= i <= |templates| && |parts| == i && Flat(parts) == items
        invariant forall k :: 0 <= k < i ==> TemplateReport(templates[k], now, parts[k])
        invariant forall t :: t in templates[..i] ==> !t.isActive || Sound(t.cfg)
        invariant |items| == 0 <==> TemplatesClear(templates[..i], now)
        invariant forall item :: item in items ==> item.dueAt <= now
      {
        var t := templates[i];
        var more := MeasureTemplate(t, now);
        if more.None? { return None; }
        FlatPush(parts, more.value);
        items, parts := items + more.value, parts + [more.value];
        assert templates[..i + 1] == templates[..i] + [t];
        i := i + 1;
      }
      assert templates[..i] == templates;
      var j := 0;
      while j < |sources|
        invariant 0 <= j <= |sources| && |parts| == |templates| + j && Flat(parts) == items
        invariant forall k :: 0 <= k < |templates| ==> TemplateReport(templates[k], now, parts[k])
        invariant forall k :: 0 <= k < j ==> SourceReport(sources[k], now, parts[|templates| + k])
        invariant |items| == 0 <==> TemplatesClear(templates, now) && SourcesClear(sources[..j], now)
        invariant forall item :: item in items ==> item.dueAt <= now
      {
        var s := sources[j];
        var more := MeasureSource(s, now);
        FlatPush(parts, more);
        items, parts := items + more, parts + [more];
        assert sources[..j + 1] == sources[..j] + [s];
        j := j + 1;
      }
      assert sources[..j] == sources;
      var late := MeasureGoals(now);
      items := items + late;
      r := Some(items);
    }

    method MeasureGoals(now: Time) returns (items: seq<OverdueItem>)
      ensures items == GoalItems(goals, now)
      ensures |items| == 0 <==> GoalsClear(goals, now)
      ensures forall item :: item in items ==> item.dueAt <= now
    {
      hide GoalItems;
      items := [];
      NothingFlat(goals, now);
      var k := 0;
      while k < |goals|
        invariant 0 <= k <= |goals| && items == GoalItems(goals[..k], now)
        invariant |items| == 0 <==> GoalsClear(goals[..k], now)
        invariant forall item :: item in items ==> item.dueAt <= now
      {
        var g := goals[k];
        assert goals[..k + 1] == goals[..k] + [g] && g in goals[..k + 1];
        GoalItemsPush(goals[..k], g, now);
        if g.approved && g.deadline <= now { items := items + [OverdueItem(g.deadline, Max(0, g.updatedAt))]; }
        assert GoalsClear(goals[..k + 1], now) <==> GoalsClear(goals[..k], now) && !GoalOverdue(g, now);
        k := k + 1;
      }
      assert goals[..k] == goals;
    }

    method MeasureTemplate(t: Template, now: Time) returns (r: Option<seq<OverdueItem>>)
      ensures r.None? <==> t.isActive && !Sound(t.cfg)
      ensures r.Some? ==> TemplateReport(t, now, r.value)
      ensures r.Some? ==> (|r.value| == 0 <==> TemplateDue(occurrences, t, now, lead) == {})
      ensures r.Some? ==> forall item :: item in r.value ==> item.dueAt <= now
    {
      hide IsDue, AddInterval, SeqAllowed;
      ghost var none: seq<nat> := [];
      if !t.isActive || t.cfg.recurrenceType == NoRecurrence {
        assert InOrder(none, TemplateDue(occurrences, t, now, lead));
        return Some([]);
      }
      var setUp := Max(SetUpAt(t.nodes, t.updatedAt), if leadSetAt.Some? then leadSetAt.value else 0);
      if t.cfg.recurrenceType == Fixed {
        var offset := EarliestOffset(t.nodes);
        var fired := FiredSeqs(occurrences.Keys, t.id);
        var seqs := DueFixedSeqs(t.cfg, fired, now, lead, offset);
        if seqs.Err? { return None; }
        DueWithinWalk(t.cfg, now, lead, offset);
        ghost var due := TemplateDue(occurrences, t, now, lead);
        assert forall n :: n in due <==> n in seqs.value;
        if |seqs.value| > 0 { assert seqs.value[0] in due; }
        var items := EligibleItems(t.cfg, seqs.value, now, offset, lead, setUp);
        assert InOrder(seqs.value, due);
        return Some(items);
      }
      var next := RelativeNextAnchor(occurrences, t, now);
      if next.Some? && IsWithinLeadTime(next.value.anchor, lead, now, 0) {
        var done := if next.value.completedAt.Some? then next.value.completedAt.value else 0;
        assert InOrder([next.value.n], TemplateDue(occurrences, t, now, lead));
        return Some([OverdueItem(EligibleAt(next.value.anchor, 0, lead), Max(setUp, done))]);
      }
      assert InOrder(none, TemplateDue(occurrences, t, now, lead));
      r := Some([]);
    }

    method MeasureSource(s: Source, now: Time) returns (r: seq<OverdueItem>)
      requires RecurringRow(s.cfg)
      ensures SourceReport(s, now, r)
      ensures |r| == 0 <==> SourceDue(copies, s, now, lead) == {}
      ensures forall item :: item in r ==> item.dueAt <= now
    {
      hide IsDue, AddInterval, SeqAllowed;
      ghost var none: seq<nat> := [];
      if !s.isActive || s.cfg.recurrenceType == NoRecurrence {
        assert InOrder(none, SourceDue(copies, s, now, lead));
        return [];
      }
      var setUp := Max(Max(0, s.updatedAt), if leadSetAt.Some? then leadSetAt.value else 0);
      if s.cfg.recurrenceType == Fixed {
        var fired := FiredSeqs(copies.Keys, s.id) + {1};
        var seqs := DueFixedSeqs(s.cfg, fired, now, lead, 0);
        DueWithinWalk(s.cfg, now, lead, 0);
        ghost var due := SourceDue(copies, s, now, lead);
        assert forall n :: n in due <==> n in seqs.value;
        if |seqs.value| > 0 { assert seqs.value[0] in due; }
        r := EligibleItems(s.cfg, seqs.value, now, 0, lead, setUp);
        assert InOrder(seqs.value, due);
        return;
      }
      var next := SourceNextAnchor(copies, s, now);
      if next.Some? && IsWithinLeadTime(next.value.anchor, lead, now, 0) {
        assert InOrder([next.value.n], SourceDue(copies, s, now, lead));
        return [OverdueItem(EligibleAt(next.value.anchor, 0, lead), Max(setUp, next.value.completedAt.value))];
      }
      assert InOrder(none, SourceDue(copies, s, now, lead));
      r := [];
    }

    // ----- The pass -----

    /** Nothing this series needs can throw in this pass. */
    ghost predicate TemplateSafe(t: Template, throwing: set<Key>) {
      (t.isActive ==> Sound(t.cfg)) && forall n :: (t.id, n) !in throwing
    }

    ghost predicate SourceSafe(s: Source, throwing: set<Key>) {
      forall n :: (s.id, n) !in throwing
    }

    ghost predicate Keyed() {
      && TemplatesApart(templates) && SourcesApart(sources)
      && (forall s :: s in sources ==> RecurringRow(s.cfg))
    }

    /** Existing rows stay; every new one was due beforehand, and is fresh. */
    ghost predicate TemplatesAdded(before: Occurrences, after: Occurrences, now: Time) {
      && before.Keys <= after.Keys
      && (forall k :: k in before ==> after[k] == before[k])
      && forall k :: k in after && k !in before ==>
           after[k] == Some(FRESH) && exists t ::
             t in templates && t.id == k.0 && k.1 in TemplateDue(before, t, now, lead)
    }

    ghost predicate SourcesAdded(before: map<Key, TaskState>, after: map<Key, TaskState>, now: Time) {
      && before.Keys <= after.Keys
      && (forall k :: k in before ==> after[k] == before[k])
      && forall k :: k in after && k !in before ==>
           after[k] == FRESH && exists s :: s in sources && s.id == k.0 && k.1 in SourceDue(before, s, now, lead)
    }

    lemma TemplatesAddedMore(start: Occurrences, before: Occurrences, after: Occurrences, t: Template, now: Time)
      requires t in templates && TemplatesAdded(start, before, now)
      requires OnlyAdds(before, after, t.id, TemplateDue(start, t, now, lead), Some(FRESH))
      ensures TemplatesAdded(start, after, now)
    {
      hide TemplateDue;
    }

    /**
     The first i templates had their turn, making count occurrences, or more where one threw part-way; the rest
     are as they were.
    */
    ghost predicate TemplatesDealt(start: Occurrences, rows: Occurrences, i: nat, count: nat, now: Time,
                                   throwing: set<Key>) {
      && i <= |templates| && TemplatesAdded(start, rows, now)
      && (forall j :: 0 <= j < i && TemplateSafe(templates[j], throwing) ==>
          TemplateDue(rows, templates[j], now, lead) == {})
      && ((forall t :: t in templates ==> TemplateDue(start, t, now, lead) == {}) ==> count == 0 && rows == start)
      && |start| + count <= |rows|
      && ((forall t :: t in templates ==> TemplateSafe(t, throwing)) ==> |start| + count == |rows|)
      && forall j :: i <= j < |templates| ==> SameRows(start, rows, templates[j].id)
    }

    lemma OtherTemplates(start: Occurrences, before: Occurrences, after: Occurrences, i: nat, now: Time)
      requires Keyed() && i < |templates| && forall id :: id != templates[i].id ==> SameRows(before, after, id)
      ensures forall j :: 0 <= j < i ==>
              TemplateDue(after, templates[j], now, lead) == TemplateDue(before, templates[j], now, lead)
      ensures forall j :: i < j < |templates| && SameRows(start, before, templates[j].id) ==>
              SameRows(start, after, templates[j].id)
    {
      hide TemplateDue, SameRows, RecurringRow;
      forall j | 0 <= j < i
        ensures TemplateDue(after, templates[j], now, lead) == TemplateDue(before, templates[j], now, lead) {
        TemplateFrame(before, after, templates[j], now, lead);
      }
      forall j | i < j < |templates| && SameRows(start, before, templates[j].id)
        ensures SameRows(start, after, templates[j].id) {
        SameRowsStill(start, before, after, templates[j].id);
      }
    }

    lemma TemplateTurn(start: Occurrences, before: Occurrences, after: Occurrences, i: nat, count: nat,
                       made: Option<nat>, now: Time, throwing: set<Key>)
      requires Keyed() && i < |templates| && TemplatesDealt(start, before, i, count, now, throwing)
      requires var t, due := templates[i], TemplateDue(before, templates[i], now, lead);
               && (made.Some? ==> after == With(before, t.id, due, Some(FRESH)) && made.value == |due|)
               && (due == {} ==> after == before)
               && (made.None? ==> (t.isActive && !Sound(t.cfg)) || exists n :: n in due && (t.id, n) in throwing)
               && OnlyAdds(before, after, t.id, due, Some(FRESH))
      ensures TemplatesDealt(start, after, i + 1, if made.Some? then count + made.value else count, now, throwing)
    {
      hide TemplateDue, With, TemplatesAdded, Sound, OnlyAdds, SameRows, Keyed;
      var t := templates[i];
      TemplateFrame(start, before, t, now, lead);
      TemplatesAddedMore(start, before, after, t, now);
      OthersSame(before, after, t.id, TemplateDue(before, t, now, lead), Some(FRESH));
      TemplateSettled(before, t, now, lead);
      TemplateDueIsNew(before, t, now, lead);
      WithSize(before, t.id, TemplateDue(before, t, now, lead), Some(FRESH));
      OtherTemplates(start, before, after, i, now);
    }

    lemma TemplatesStart(rows: Occurrences, now: Time, throwing: set<Key>)
      ensures TemplatesDealt(rows, rows, 0, 0, now, throwing)
    {}

    lemma TemplatesEnd(start: Occurrences, rows: Occurrences, count: nat, now: Time, throwing: set<Key>)
      requires TemplatesDealt(start, rows, |templates|, count, now, throwing)
      ensures TemplatesAdded(start, rows, now) && |start| + count <= |rows|
      ensures forall t :: t in templates && TemplateSafe(t, throwing) ==> TemplateDue(rows, t, now, lead) == {}
      ensures (forall t :: t in templates ==> TemplateDue(start, t, now, lead) == {}) ==> count == 0 && rows == start
      ensures (forall t :: t in templates ==> TemplateSafe(t, throwing)) ==> |start| + count == |rows|
    {
      hide TemplateDue, TemplatesAdded;
    }

    lemma SourcesAddedMore(start: map<Key, TaskState>, before: map<Key, TaskState>, after: map<Key, TaskState>,
                           s: Source, now: Time)
      requires s in sources && SourcesAdded(start, before, now)
      requires OnlyAdds(before, after, s.id, SourceDue(start, s, now, lead), FRESH)
      ensures SourcesAdded(start, after, now)
    {
      hide SourceDue;
    }

    /**
     The first i recurring tasks had their turn, making count copies, or more where one threw part-way; the rest
     are as they were.
    */
    ghost predicate SourcesDealt(start: map<Key, TaskState>, rows: map<Key, TaskState>, i: nat, count: nat, now: Time,
                                 throwing: set<Key>) {
      && i <= |sources| && SourcesAdded(start, rows, now)
      && (forall j :: 0 <= j < i && SourceSafe(sources[j], throwing) ==> SourceDue(rows, sources[j], now, lead) == {})
      && ((forall s :: s in sources ==> SourceDue(start, s, now, lead) == {}) ==> count == 0 && rows == start)
      && |start| + count <= |rows|
      && ((forall s :: s in sources ==> SourceSafe(s, throwing)) ==> |start| + count == |rows|)
      && forall j :: i <= j < |sources| ==> SameRows(start, rows, sources[j].id)
    }

    lemma OtherSources(start: map<Key, TaskState>, before: map<Key, TaskState>, after: map<Key, TaskState>, i: nat,
                       now: Time)
      requires Keyed() && i < |sources| && forall id :: id != sources[i].id ==> SameRows(before, after, id)
      ensures forall j :: 0 <= j < i ==>
              SourceDue(after, sources[j], now, lead) == SourceDue(before, sources[j], now, lead)
      ensures forall j :: i < j < |sources| && SameRows(start, before, sources[j].id) ==>
              SameRows(start, after, sources[j].id)
    {
      hide SourceDue, SameRows, RecurringRow;
      forall j | 0 <= j < i
        ensures SourceDue(after, sources[j], now, lead) == SourceDue(before, sources[j], now, lead) {
        SourceFrame(before, after, sources[j], now, lead);
      }
      forall j | i < j < |sources| && SameRows(start, before, sources[j].id)
        ensures SameRows(start, after, sources[j].id) {
        SameRowsStill(start, before, after, sources[j].id);
      }
    }

    lemma SourceTurn(start: map<Key, TaskState>, before: map<Key, TaskState>, after: map<Key, TaskState>, i: nat,
                     count: nat, made: Option<nat>, now: Time, throwing: set<Key>)
      requires Keyed() && i < |sources| && SourcesDealt(start, before, i, count, now, throwing)
      requires var s, due := sources[i], SourceDue(before, sources[i], now, lead);
               && (made.Some? ==> after == With(before, s.id, due, FRESH) && made.value == |due|)
               && (due == {} ==> after == before)
               && (made.None? ==> exists n :: n in due && (s.id, n) in throwing)
               && OnlyAdds(before, after, s.id, due, FRESH)
      ensures SourcesDealt(start, after, i + 1, if made.Some? then count + made.value else count, now, throwing)
    {
      hide SourceDue, With, SourcesAdded, OnlyAdds, SameRows, RecurringRow, Keyed;
      var s := sources[i];
      SourceFrame(start, before, s, now, lead);
      SourcesAddedMore(start, before, after, s, now);
      OthersSame(before, after, s.id, SourceDue(before, s, now, lead), FRESH);
      SourceSettled(before, s, now, lead);
      SourceDueIsNew(before, s, now, lead);
      WithSize(before, s.id, SourceDue(before, s, now, lead), FRESH);
      OtherSources(start, before, after, i, now);
    }

    lemma SourcesStart(rows: map<Key, TaskState>, now: Time, throwing: set<Key>)
      ensures SourcesDealt(rows, rows, 0, 0, now, throwing)
    {}

    lemma SourcesEnd(start: map<Key, TaskState>, rows: map<Key, TaskState>, count: nat, now: Time, throwing: set<Key>)
      requires SourcesDealt(start, rows, |sources|, count, now, throwing)
      ensures SourcesAdded(start, rows, now) && |start| + count <= |rows|
      ensures forall s :: s in sources && SourceSafe(s, throwing) ==> SourceDue(rows, s, now, lead) == {}
      ensures (forall s :: s in sources ==> SourceDue(start, s, now, lead) == {}) ==> count == 0 && rows == start
      ensures (forall s :: s in sources ==> SourceSafe(s, throwing)) ==> |start| + count == |rows|
    {
      hide SourceDue, SourcesAdded;
    }

    method MaterializeTemplates(now: Time, throwing: set<Key>) returns (count: nat)
      requires Keyed()
      modifies this`occurrences
      ensures forall t :: t in templates && TemplateSafe(t, throwing) ==> TemplateDue(occurrences, t, now, lead) == {}
      ensures old(TemplatesClear(templates, now)) ==> count == 0 && occurrences == old(occurrences)
      ensures TemplatesAdded(old(occurrences), occurrences, now)
      ensures count <= |occurrences| - |old(occurrences)|
      ensures (forall t :: t in templates ==> TemplateSafe(t, throwing)) ==> count == |occurrences| - |old(occurrences)|
    {
      hide TemplatesDealt, TemplatesAdded, With, OnlyAdds, Sound, TemplateDue, TemplatesApart, SourcesApart;
      count := 0;
      var i := 0;
      TemplatesStart(occurrences, now, throwing);
      while i < |templates|
        invariant i <= |templates| && TemplatesDealt(old(occurrences), occurrences, i, count, now, throwing)
      {
        var t := templates[i];
        ghost var before := occurrences;
        var made := Some(0);
        if !t.isActive || t.cfg.recurrenceType == NoRecurrence {
          DormantNeverDue(before, t, now, lead);
          WithNone(before, t.id, Some(FRESH));
        } else {
          made := MaterializeDueForTemplate(t, now, throwing);
        }
        TemplateTurn(old(occurrences), before, occurrences, i, count, made, now, throwing);
        if made.Some? { count := count + made.value; }
        i := i + 1;
      }
      TemplatesEnd(old(occurrences), occurrences, count, now, throwing);
    }

    method MaterializeSources(now: Time, throwing: set<Key>) returns (count: nat)
      requires Keyed()
      modifies this`copies
      ensures forall s :: s in sources && SourceSafe(s, throwing) ==> SourceDue(copies, s, now, lead) == {}
      ensures old(SourcesClear(sources, now)) ==> count == 0 && copies == old(copies)
      ensures SourcesAdded(old(copies), copies, now)
      ensures count <= |copies| - |old(copies)|
      ensures (forall s :: s in sources ==> SourceSafe(s, throwing)) ==> count == |copies| - |old(copies)|
    {
      hide SourcesDealt, SourcesAdded, With, OnlyAdds, RecurringRow, SourceDue, TemplatesApart, SourcesApart;
      count := 0;
      var i := 0;
      SourcesStart(copies, now, throwing);
      while i < |sources|
        invariant i <= |sources| && SourcesDealt(old(copies), copies, i, count, now, throwing)
      {
        var s := sources[i];
        ghost var before := copies;
        var made := Some(0);
        if !s.isActive || s.cfg.recurrenceType == NoRecurrence {
          DormantSourceNeverDue(before, s, now, lead);
          WithNone(before, s.id, FRESH);
        } else {
          made := MaterializeDueForSource(s, now, throwing);
        }
        SourceTurn(old(copies), before, copies, i, count, made, now, throwing);
        if made.Some? { count := count + made.value; }
        i := i + 1;
      }
      SourcesEnd(old(copies), copies, count, now, throwing);
    }

    /** Approved goals past their deadline move to review. */
    method RunGoalReviewPass(now: Time)
      modifies this`goals
      ensures |goals| == |old(goals)| && forall i :: 0 <= i < |goals| ==> goals[i] == Reviewed(old(goals)[i], now)
      ensures forall i :: 0 <= i < |goals| ==>
                var was := old(goals)[i];
                if was.approved && was.deadline <= now
                then !goals[i].approved && goals[i].deadline == was.deadline && goals[i].updatedAt == now
                else goals[i] == was
      ensures GoalsClear(goals, now)
      ensures old(GoalsClear(goals, now)) ==> goals == old(goals)
    {
      var gs := goals;
      goals := seq(|gs|, i requires 0 <= i < |gs| => Reviewed(gs[i], now));
      assert old(GoalsClear(goals, now)) ==> forall i :: 0 <= i < |gs| ==> gs[i] in gs;
    }

    ghost predicate AllSafe(throwing: set<Key>) {
      (forall t :: t in templates ==> TemplateSafe(t, throwing))
        && (forall s :: s in sources ==> SourceSafe(s, throwing))
    }

    /** The materializing part of a pass. */
    method DoDueWork(now: Time, throwing: set<Key>) returns (materialized: nat)
      requires Keyed()
      modifies this`occurrences, this`copies, this`goals
      ensures forall t :: t in templates && TemplateSafe(t, throwing) ==> TemplateDue(occurrences, t, now, lead) == {}
      ensures forall s :: s in sources && SourceSafe(s, throwing) ==> SourceDue(copies, s, now, lead) == {}
      ensures GoalsClear(goals, now) && (AllSafe(throwing) ==> NothingOverdue(now))
      ensures TemplatesAdded(old(occurrences), occurrences, now) && SourcesAdded(old(copies), copies, now)
      ensures |goals| == |old(goals)| && forall i :: 0 <= i < |goals| ==> goals[i] == Reviewed(old(goals)[i], now)
      ensures materialized <= |occurrences| - |old(occurrences)| + |copies| - |old(copies)|
      ensures AllSafe(throwing) ==> materialized == |occurrences| - |old(occurrences)| + |copies| - |old(copies)|
      ensures old(NothingOverdue(now)) ==>
                materialized == 0 && occurrences == old(occurrences) && copies == old(copies) && goals == old(goals)
    {
      hide TemplateDue, SourceDue, Sound, TemplatesAdded, SourcesAdded, Reviewed, GoalOverdue, TemplateSafe, SourceSafe;
      var madeT := MaterializeTemplates(now, throwing);
      var madeS := MaterializeSources(now, throwing);
      materialized := madeT + madeS;
      RunGoalReviewPass(now);
    }

    /**
     One pass. throwing holds the occurrences whose generation throws this time; the pass goes on
     with the next series. otherWakes are the reminder and Daily-run moments, outside this model.
     */
    method RunScheduler(now: Time, throwing: set<Key>, otherWakes: seq<Time>)
      returns (materialized: nat, after: Option<seq<OverdueItem>>)
      requires Keyed()
      modifies this
      // nothing stays overdue for any series that did not throw
      ensures forall t :: t in templates && TemplateSafe(t, throwing) ==> TemplateDue(occurrences, t, now, lead) == {}
      ensures forall s :: s in sources && SourceSafe(s, throwing) ==> SourceDue(copies, s, now, lead) == {}
      ensures GoalsClear(goals, now)
      ensures AllSafe(throwing) ==> NothingOverdue(now) && after == Some([])
      // nothing is made but what was due, and nothing is lost
      ensures TemplatesAdded(old(occurrences), occurrences, now) && SourcesAdded(old(copies), copies, now)
      ensures |goals| == |old(goals)| && forall i :: 0 <= i < |goals| ==> goals[i] == Reviewed(old(goals)[i], now)
      // the count returned is the number of new rows, short of it only where a series threw part-way
      ensures materialized <= |occurrences| - |old(occurrences)| + |copies| - |old(copies)|
      ensures AllSafe(throwing) ==> materialized == |occurrences| - |old(occurrences)| + |copies| - |old(copies)|
      // a pass that finds nothing overdue does nothing
      ensures old(NothingOverdue(now)) ==>
                materialized == 0 && occurrences == old(occurrences) && copies == old(copies) && goals == old(goals)
      ensures lastTickAt == Some(now)
      ensures nextWakeAt.Some? && now + MIN_SLEEP <= nextWakeAt.value <= now + MAX_SLEEP
      ensures ActiveSound() ==>
                WakeWanted(now, otherWakes, nextWakeAt.value) && WakeInTime(now, otherWakes, nextWakeAt.value)
      // the next wake is never too late for a Fixed occurrence of a series that did not throw
      ensures ActiveSound() ==>
                forall t, n :: t in templates && TemplateSafe(t, throwing) && Unfired(occurrences, t, n) ==>
                  nextWakeAt.value <= Max(TemplateEligible(t, n, lead), now + MIN_SLEEP)
      ensures ActiveSound() ==>
                forall s, n :: s in sources && SourceSafe(s, throwing) && UnfiredCopy(copies, s, n) ==>
                  nextWakeAt.value <= Max(SourceEligible(s, n, lead), now + MIN_SLEEP)
    {
      hide TemplateDue, SourceDue, TemplatesAdded, SourcesAdded, OverdueReport, Reviewed, GoalOverdue, Unfired,
           UnfiredCopy, TemplateEligible, SourceEligible, WakeWanted, WakeInTime, TemplatesClear, SourcesClear,
           GoalsClear;
      materialized := DoDueWork(now, throwing);
      assert AllSafe(throwing) ==> ActiveSound();
      after := MeasureOverdue(now);
      lastTickAt := Some(now);
      var wake := ComputeNextWakeAt(now, otherWakes);
      nextWakeAt := Some(if wake.Some? then wake.value else now + MAX_SLEEP);
    }

    ghost predicate ActiveSound() {
      forall t :: t in templates && t.isActive ==> Sound(t.cfg)
    }

    // ----- The next wake -----

    /** A template waits for c: the next ghost of a Fixed one, the pending occurrence of the other kind. */
    ghost predicate TemplateAsks(t: Template, now: Time, c: Time)
      reads this`occurrences
    {
      t.isActive &&
      match t.cfg.recurrenceType
      case NoRecurrence => false
      case Fixed =>
        exists n :: NextGhost(t.cfg, FiredSeqs(occurrences.Keys, t.id), EarliestOffset(t.nodes), now, lead, n)
                    && c == TemplateEligible(t, n, lead)
      case RelativeToCompletion =>
        var next := RelativeNextAnchor(occurrences, t, now);
        next.Some? && c == EligibleAt(next.value.anchor, 0, lead) && c > now
    }

    ghost predicate SourceAsks(s: Source, now: Time, c: Time)
      reads this`copies
    {
      s.isActive && s.cfg.recurrenceType == Fixed &&
      exists n :: NextGhost(s.cfg, FiredSeqs(copies.Keys, s.id) + {1}, 0, now, lead, n)
        && c == SourceEligible(s, n, lead)
    }

    /** Some part of the system waits for c. */
    ghost predicate Asked(now: Time, otherWakes: seq<Time>, c: Time)
      reads this`goals, this`occurrences, this`copies
    {
      || (exists g :: g in goals && g.approved && g.deadline == c && c > now)
      || (c in otherWakes && c > now)
      || (exists t :: t in templates && TemplateAsks(t, now, c))
      || (exists s :: s in sources && SourceAsks(s, now, c))
    }

    /** w is the ceiling, or a moment waited for, pushed back to the minimum sleep if it is nearer. */
    ghost predicate WakeWanted(now: Time, otherWakes: seq<Time>, w: Time)
      reads this`goals, this`occurrences, this`copies
    {
      w == now + MAX_SLEEP || exists c :: Asked(now, otherWakes, c) && w == Max(c, now + MIN_SLEEP)
    }

    /**
     No later than any goal's deadline, any other moment passed in, and the pending occurrence of any template
     that recurs on completion; tasks that do are left to the ceiling.
     */
    ghost predicate WakeInTime(now: Time, otherWakes: seq<Time>, w: Time)
      reads this`goals, this`occurrences
    {
      && (forall g :: g in goals && g.approved && g.deadline > now ==> w <= Max(g.deadline, now + MIN_SLEEP))
      && (forall c :: c in otherWakes && c > now ==> w <= Max(c, now + MIN_SLEEP))
      && forall t, c :: t in templates && t.cfg.recurrenceType == RelativeToCompletion && TemplateAsks(t, now, c) ==>
           w <= Max(c, now + MIN_SLEEP)
    }

    method TemplateWake(t: Template, now: Time) returns (r: Result<Option<Time>, Failure>)
      ensures r.Err? <==> t.isActive && !Sound(t.cfg)
      ensures r.Ok? && r.value.Some? ==> r.value.value > now && TemplateAsks(t, now, r.value.value)
      ensures r.Ok? && t.cfg.recurrenceType == RelativeToCompletion ==> forall c :: TemplateAsks(t, now, c) ==>
              r.value == Some(c)
      ensures r.Ok? && TemplateDue(occurrences, t, now, lead) == {} ==>
                forall n :: Unfired(occurrences, t, n) ==>
                  r.value.Some? && r.value.value <= TemplateEligible(t, n, lead)
    {
      hide IsDue, AddInterval, SeqAllowed, FixedAnchor, IsScheduled;
      if !t.isActive || t.cfg.recurrenceType == NoRecurrence { return Ok(None); }
      if t.cfg.recurrenceType == Fixed {
        var offset := EarliestOffset(t.nodes);
        var fired := FiredSeqs(occurrences.Keys, t.id);
        DueWithinWalk(t.cfg, now, lead, offset);
        r := FirstFuture(t.cfg, fired, offset, now, lead);
        if TemplateDue(occurrences, t, now, lead) == {} {
          forall m: nat | IsDue(t.cfg, m, now, lead, offset) ensures m in fired {
            assert m !in TemplateDue(occurrences, t, now, lead);
          }
        }
        return;
      }
      var next := RelativeNextAnchor(occurrences, t, now);
      if next.Some? && EligibleAt(next.value.anchor, 0, lead) > now {
        return Ok(Some(EligibleAt(next.value.anchor, 0, lead)));
      }
      r := Ok(None);
    }

    method SourceWake(s: Source, now: Time) returns (r: Option<Time>)
      requires RecurringRow(s.cfg)
      ensures r.Some? ==> r.value > now && SourceAsks(s, now, r.value)
      ensures SourceDue(copies, s, now, lead) == {} ==>
                forall n :: UnfiredCopy(copies, s, n) ==> r.Some? && r.value <= SourceEligible(s, n, lead)
    {
      hide IsDue, AddInterval, SeqAllowed, FixedAnchor, IsScheduled;
      if !s.isActive || s.cfg.recurrenceType != Fixed { return None; }
      var fired := FiredSeqs(copies.Keys, s.id) + {1};
      DueWithinWalk(s.cfg, now, lead, 0);
      var first := FirstFuture(s.cfg, fired, 0, now, lead);
      r := first.value;
      if SourceDue(copies, s, now, lead) == {} {
        forall m: nat | IsDue(s.cfg, m, now, lead, 0) ensures m in fired {
          assert m !in SourceDue(copies, s, now, lead);
        }
      }
    }

    /** None when an incomplete schedule makes the computation throw. */
    method ComputeNextWakeAt(now: Time, otherWakes: seq<Time>) returns (r: Option<Time>)
      requires forall s :: s in sources ==> RecurringRow(s.cfg)
      ensures r.None? <==> exists t :: t in templates && t.isActive && !Sound(t.cfg)
      ensures r.Some? ==> now + 60_000 <= r.value <= now + 21_600_000
      ensures r.Some? ==> WakeWanted(now, otherWakes, r.value) && WakeInTime(now, otherWakes, r.value)
      // never too late for a Fixed occurrence of a series with nothing overdue
      ensures r.Some? ==> forall t, n ::
              t in templates && TemplateDue(occurrences, t, now, lead) == {} && Unfired(occurrences, t, n) ==>
                r.value <= Max(TemplateEligible(t, n, lead), now + MIN_SLEEP)
      ensures r.Some? ==> forall s, n ::
              s in sources && SourceDue(copies, s, now, lead) == {} && UnfiredCopy(copies, s, n) ==>
                r.value <= Max(SourceEligible(s, n, lead), now + MIN_SLEEP)
    {
      hide TemplateDue, SourceDue, Unfired, UnfiredCopy, TemplateEligible, SourceEligible, RecurringRow, Sound,
           TemplateAsks, SourceAsks, Reaches;
      var candidates := DeadlinesAhead(goals, now);
      var o := 0;
      while o < |otherWakes|
        invariant 0 <= o <= |otherWakes|
        invariant forall c :: c in candidates ==> Asked(now, otherWakes, c)
        invariant forall g :: g in goals && g.approved && g.deadline > now ==> Reaches(candidates, g.deadline)
        invariant forall k :: 0 <= k < o && otherWakes[k] > now ==> Reaches(candidates, otherWakes[k])
      {
        if otherWakes[o] > now {
          ReachesMore(candidates, otherWakes[o]);
          candidates := candidates + [otherWakes[o]];
        }
        o := o + 1;
      }
      var i := 0;
      while i < |templates|
        invariant 0 <= i <= |templates|
        invariant forall c :: c in candidates ==> Asked(now, otherWakes, c)
        invariant forall g :: g in goals && g.approved && g.deadline > now ==> Reaches(candidates, g.deadline)
        invariant forall c :: c in otherWakes && c > now ==> Reaches(candidates, c)
        invariant forall j, c ::
                    0 <= j < i && templates[j].cfg.recurrenceType == RelativeToCompletion
                    && TemplateAsks(templates[j], now, c) ==>
                      Reaches(candidates, c)
        invariant forall j :: 0 <= j < i ==> !templates[j].isActive || Sound(templates[j].cfg)
        invariant forall j, n :: 0 <= j < i && TemplateDue(occurrences, templates[j], now, lead) == {}
                                 && Unfired(occurrences, templates[j], n) ==>
                    Reaches(candidates, TemplateEligible(templates[j], n, lead))
      {
        var candidate := TemplateWake(templates[i], now);
        if candidate.Err? { return None; }
        if candidate.value.Some? {
          ReachesMore(candidates, candidate.value.value);
          candidates := candidates + [candidate.value.value];
        }
        i := i + 1;
      }
      var j := 0;
      while j < |sources|
        invariant 0 <= j <= |sources|
        invariant forall c :: c in candidates ==> Asked(now, otherWakes, c)
        invariant forall g :: g in goals && g.approved && g.deadline > now ==> Reaches(candidates, g.deadline)
        invariant forall c :: c in otherWakes && c > now ==> Reaches(candidates, c)
        invariant forall k, c ::
                    0 <= k < |templates| && templates[k].cfg.recurrenceType == RelativeToCompletion
                    && TemplateAsks(templates[k], now, c) ==>
                      Reaches(candidates, c)
        invariant forall k, n :: 0 <= k < |templates| && TemplateDue(occurrences, templates[k], now, lead) == {}
                                 && Unfired(occurrences, templates[k], n) ==>
                    Reaches(candidates, TemplateEligible(templates[k], n, lead))
        invariant forall k, n ::
                    0 <= k < j && SourceDue(copies, sources[k], now, lead) == {}
                    && UnfiredCopy(copies, sources[k], n) ==>
                      Reaches(candidates, SourceEligible(sources[k], n, lead))
      {
        var candidate := SourceWake(sources[j], now);
        if candidate.Some? {
          ReachesMore(candidates, candidate.value);
          candidates := candidates + [candidate.value];
        }
        j := j + 1;
      }
      var soonest := SoonestOr(candidates, now + MAX_SLEEP);
      r := Some(Min(Max(soonest, now + MIN_SLEEP), now + MAX_SLEEP));
      forall t, c | t in templates && t.cfg.recurrenceType == RelativeToCompletion && TemplateAsks(t, now, c)
        ensures r.value <= Max(c, now + MIN_SLEEP)
      {
        var k :| 0 <= k < |templates| && templates[k] == t;
        assert Reaches(candidates, c);
      }
    }
  }

  // ----- What a measurement reports -----

  ghost predicate InOrder(ns: seq<nat>, due: set<nat>) {
    StrictlyAscending(ns) && forall n :: n in ns <==> n in due
  }

  /** A due number is reported with the moment it became eligible and the latest moment anything it rests on was set. */
  ghost function TemplateItem(occurrences: Occurrences, t: Template, now: Time, lead: int, leadSetAt: Option<Time>,
                              n: nat): OverdueItem {
    var setUp := Max(SetUpAt(t.nodes, t.updatedAt), if leadSetAt.Some? then leadSetAt.value else 0);
    if t.cfg.recurrenceType == Fixed then OverdueItem(TemplateEligible(t, n, lead), setUp)
    else
      match RelativeNextAnchor(occurrences, t, now)
      case None => OverdueItem(0, 0)
      case Some(next) => OverdueItem(EligibleAt(next.anchor, 0, lead),
                                     Max(setUp, if next.completedAt.Some? then next.completedAt.value else 0))
  }

  ghost function SourceItem(copies: map<Key, TaskState>, s: Source, now: Time, lead: int, leadSetAt: Option<Time>,
                            n: nat): OverdueItem {
    var setUp := Max(Max(0, s.updatedAt), if leadSetAt.Some? then leadSetAt.value else 0);
    if s.cfg.recurrenceType == Fixed then OverdueItem(SourceEligible(s, n, lead), setUp)
    else
      match SourceNextAnchor(copies, s, now)
      case None => OverdueItem(0, 0)
      case Some(next) => OverdueItem(EligibleAt(next.anchor, 0, lead),
                                     Max(setUp, if next.completedAt.Some? then next.completedAt.value else 0))
  }

  ghost function Flat(parts: seq<seq<OverdueItem>>): seq<OverdueItem> {
    if parts == [] then [] else Flat(parts[..|parts| - 1]) + parts[|parts| - 1]
  }

  ghost function GoalItems(goals: seq<Goal>, now: Time): seq<OverdueItem> {
    if goals == [] then []
    else
      var g := goals[|goals| - 1];
      GoalItems(goals[..|goals| - 1], now)
        + if GoalOverdue(g, now) then [OverdueItem(g.deadline, Max(0, g.updatedAt))] else []
  }

  lemma NothingFlat(goals: seq<Goal>, now: Time)
    ensures Flat([]) == [] && GoalItems(goals[..0], now) == []
  {}

  lemma FlatPush(parts: seq<seq<OverdueItem>>, more: seq<OverdueItem>)
    ensures Flat(parts + [more]) == Flat(parts) + more
  {
    assert (parts + [more])[..|parts|] == parts;
  }

  lemma GoalItemsPush(goals: seq<Goal>, g: Goal, now: Time)
    ensures GoalItems(goals + [g], now) == GoalItems(goals, now)
            + if GoalOverdue(g, now) then [OverdueItem(g.deadline, Max(0, g.updatedAt))] else []
  {
    assert (goals + [g])[..|goals|] == goals;
  }

  /** The goals reported are just the approved ones whose deadline has come, each since that. */
  lemma {:induction false} GoalItemsMean(goals: seq<Goal>, now: Time, item: OverdueItem)
    ensures item in GoalItems(goals, now) <==>
              exists g :: g in goals && g.approved && g.deadline <= now && item.dueAt == g.deadline
                          && item.setUpAt == if g.updatedAt >= 0 then g.updatedAt else 0
    decreases |goals|
  {
    if goals != [] {
      GoalItemsMean(goals[..|goals| - 1], now, item);
      assert goals == goals[..|goals| - 1] + [goals[|goals| - 1]];
    }
  }

  // ----- Waking -----

  /** Some candidate is no later than x. */
  ghost predicate Reaches(candidates: seq<Time>, x: Time) {
    exists i :: 0 <= i < |candidates| && candidates[i] <= x
  }

  lemma ReachesMore(candidates: seq<Time>, c: Time)
    ensures forall x :: Reaches(candidates, x) ==> Reaches(candidates + [c], x)
    ensures forall x :: c <= x ==> Reaches(candidates + [c], x)
  {
    forall x | Reaches(candidates, x) ensures Reaches(candidates + [c], x) {
      var i :| 0 <= i < |candidates| && candidates[i] <= x;
      assert (candidates + [c])[i] <= x;
    }
    assert (candidates + [c])[|candidates|] == c;
  }

  method DeadlinesAhead(goals: seq<Goal>, now: Time) returns (candidates: seq<Time>)
    ensures forall c :: c in candidates ==> exists g :: g in goals && g.approved && g.deadline == c && c > now
    ensures forall g :: g in goals && g.approved && g.deadline > now ==> Reaches(candidates, g.deadline)
  {
    hide Reaches;
    candidates := [];
    for k := 0 to |goals|
      invariant forall c :: c in candidates ==> exists g :: g in goals && g.approved && g.deadline == c && c > now
      invariant forall j :: 0 <= j < k && goals[j].approved && goals[j].deadline > now ==>
                Reaches(candidates, goals[j].deadline)
    {
      if goals[k].approved && goals[k].deadline > now {
        ReachesMore(candidates, goals[k].deadline);
        candidates := candidates + [goals[k].deadline];
      }
    }
  }

  function SoonestOr(candidates: seq<Time>, fallback: Time): (r: Time)
    ensures candidates == [] ==> r == fallback
    ensures candidates != [] ==> r in candidates
    ensures forall x :: Reaches(candidates, x) ==> r <= x
  {
    if candidates == [] then fallback
    else if |candidates| == 1 then candidates[0]
    else
      var rest := candidates[..|candidates| - 1];
      assert candidates == rest + [candidates[|candidates| - 1]];
      assert forall x :: Reaches(candidates, x) ==> Reaches(rest, x) || candidates[|candidates| - 1] <= x by {
        forall x | Reaches(candidates, x) ensures Reaches(rest, x) || candidates[|candidates| - 1] <= x {
          var i :| 0 <= i < |candidates| && candidates[i] <= x;
          if i < |rest| { assert rest[i] <= x; }
        }
      }
      Min(SoonestOr(rest, fallback), candidates[|candidates| - 1])
  }

  /** A Fixed occurrence of an active template that exists in the schedule but not yet in the database. */
  ghost predicate Unfired(occurrences: Occurrences, t: Template, n: nat) {
    t.isActive && Complete(t.cfg) && IsScheduled(t.cfg, n) && (t.id, n) !in occurrences
  }

  ghost predicate UnfiredCopy(copies: map<Key, TaskState>, s: Source, n: nat) {
    s.isActive && Complete(s.cfg) && n != 1 && IsScheduled(s.cfg, n) && (s.id, n) !in copies
  }

  ghost function TemplateEligible(t: Template, n: nat, lead: int): Time {
    Eligible(t.cfg, n, EarliestOffset(t.nodes), lead)
  }

  ghost function SourceEligible(s: Source, n: nat, lead: int): Time {
    Eligible(s.cfg, n, 0, lead)
  }

  ghost function Eligible(cfg: Config, n: nat, offset: int, lead: int): Time {
    if FixedAnchor(cfg, n).Ok? then EligibleAt(FixedAnchor(cfg, n).value, offset, lead) else 0
  }

  lemma EligibleIncreases(cfg: Config, m: nat, n: nat, offset: int, lead: int)
    requires Complete(cfg) && 1 <= m <= n <= WALK_CAP
    ensures Eligible(cfg, m, offset, lead) <= Eligible(cfg, n, offset, lead)
  {
    hide FixedAnchor;
    AnchorsIncrease(cfg, m, n);
  }

  lemma DueWhenEligible(cfg: Config, n: nat, now: Time, offset: int, lead: int)
    requires IsScheduled(cfg, n)
    ensures IsDue(cfg, n, now, lead, offset) <==> Eligible(cfg, n, offset, lead) <= now
  {
    hide FixedAnchor;
  }

  /** n is unfired and not eligible yet, and every unfired occurrence before it is. */
  ghost predicate NextGhost(cfg: Config, fired: set<nat>, offset: int, now: Time, lead: int, n: nat) {
    && IsScheduled(cfg, n) && n !in fired && Eligible(cfg, n, offset, lead) > now
    && forall m: nat :: m < n && IsScheduled(cfg, m) && m !in fired ==> Eligible(cfg, m, offset, lead) <= now
  }

  lemma FirstListed(cfg: Config, fired: set<nat>, out: seq<Upcoming>, i: nat, now: Time, offset: int, lead: int)
    requires Complete(cfg) && IsPreview(cfg, fired, out) && i < |out| && EligibleAt(out[i].anchor, offset, lead) > now
    requires forall k :: 0 <= k < i ==> EligibleAt(out[k].anchor, offset, lead) <= now
    ensures NextGhost(cfg, fired, offset, now, lead, out[i].n)
    ensures Eligible(cfg, out[i].n, offset, lead) == EligibleAt(out[i].anchor, offset, lead)
  {
    hide FixedAnchor, IsScheduled;
    forall m: nat | m < out[i].n && IsScheduled(cfg, m) && m !in fired ensures Eligible(cfg, m, offset, lead) <= now {
      assert Listed(out, m);
      var k :| 0 <= k < |out| && out[k].n == m;
    }
  }

  /** The first moment in the future at which a listed occurrence becomes eligible. */
  method FirstFuture(cfg: Config, fired: set<nat>, offset: int, now: Time, lead: int)
    returns (r: Result<Option<Time>, Failure>)
    requires cfg.recurrenceType == Fixed
    ensures r.Ok? <==> Complete(cfg)
    ensures r.Ok? && r.value.Some? ==> r.value.value > now
    // it is the eligible time of the first unfired occurrence not eligible yet; None when the preview shows no such
    ensures r.Ok? && r.value.Some? ==>
            exists n :: NextGhost(cfg, fired, offset, now, lead, n) && r.value.value == Eligible(cfg, n, offset, lead)
    ensures r.Ok? && r.value.None? ==>
              exists out: seq<Upcoming> :: IsPreview(cfg, fired, out) && forall i :: 0 <= i < |out| ==>
                EligibleAt(out[i].anchor, offset, lead) <= now
    ensures r.Ok? && (forall m: nat :: IsDue(cfg, m, now, lead, offset) ==> m in fired) ==>
              forall n: nat :: IsScheduled(cfg, n) && n !in fired ==>
                r.value.Some? && r.value.value <= Eligible(cfg, n, offset, lead)
  {
    hide FixedAnchor, IsScheduled, IsDue;
    var upcoming := UpcomingFixedSeqs(cfg, fired);
    if upcoming.Err? { return Err(upcoming.error); }
    var out := upcoming.value;
    PreviewCoversSoonest(cfg, fired, out, now, offset, lead);
    var i := 0;
    while i < |out|
      invariant 0 <= i <= |out|
      invariant forall k :: 0 <= k < i ==> EligibleAt(out[k].anchor, offset, lead) <= now
    {
      var at := EligibleAt(out[i].anchor, offset, lead);
      if at > now {
        FirstListed(cfg, fired, out, i, now, offset, lead);
        return Ok(Some(at));
      }
      i := i + 1;
    }
    r := Ok(None);
  }

  /** With nothing overdue, the first listed occurrence is in the future and no unlisted one comes before it. */
  lemma PreviewCoversSoonest(cfg: Config, fired: set<nat>, out: seq<Upcoming>, now: Time, offset: int, lead: int)
    requires Complete(cfg) && IsPreview(cfg, fired, out)
    ensures (forall m: nat :: IsDue(cfg, m, now, lead, offset) ==> m in fired) ==>
              forall n: nat :: IsScheduled(cfg, n) && n !in fired ==>
                |out| > 0 && now < EligibleAt(out[0].anchor, offset, lead) <= Eligible(cfg, n, offset, lead)
  {
    hide FixedAnchor, IsDue;
    if forall m: nat :: IsDue(cfg, m, now, lead, offset) ==> m in fired {
      forall n: nat | IsScheduled(cfg, n) && n !in fired
        ensures |out| > 0 && now < EligibleAt(out[0].anchor, offset, lead) <= Eligible(cfg, n, offset, lead)
      {
        if Listed(out, n) {
          var i :| 0 <= i < |out| && out[i].n == n;
          assert out[0].n <= n;
        }
        DueWhenEligible(cfg, out[0].n, now, offset, lead);
        EligibleIncreases(cfg, out[0].n, n, offset, lead);
      }
    }
  }

  lemma DormantNeverDue(occurrences: Occurrences, t: Template, now: Time, lead: int)
    requires !t.isActive || t.cfg.recurrenceType == NoRecurrence
    ensures TemplateDue(occurrences, t, now, lead) == {}
  {}

  lemma DormantSourceNeverDue(copies: map<Key, TaskState>, s: Source, now: Time, lead: int)
    requires !s.isActive || s.cfg.recurrenceType == NoRecurrence
    ensures SourceDue(copies, s, now, lead) == {}
  {}

  /** A stored recurrence row: every field present, as the table and its input validation require. */
  predicate RecurringRow(cfg: Config) {
    cfg.anchorDate.Some? && cfg.intervalUnit.Some? && cfg.intervalCount.Some? && cfg.intervalCount.value != 0
  }

  predicate GoalOverdue(g: Goal, now: Time) { g.approved && g.deadline <= now }

  /** updatedAt moves with every write; under review a goal is no longer looked at here. */
  function Reviewed(g: Goal, now: Time): Goal {
    if GoalOverdue(g, now) then Goal(false, g.deadline, now) else g
  }

  function Max(a: int, b: int): int { if a >= b then a else b }

  function SetUpAt(nodes: seq<Node>, updatedAt: Time): (r: Time)
    ensures r >= 0 && r >= updatedAt && forall n :: n in nodes ==> r >= n.updatedAt
    ensures r == 0 || r == updatedAt || exists n :: n in nodes && r == n.updatedAt
  {
    if nodes == [] then Max(0, updatedAt)
    else
      assert nodes == nodes[..|nodes| - 1] + [nodes[|nodes| - 1]];
      Max(SetUpAt(nodes[..|nodes| - 1], updatedAt), nodes[|nodes| - 1].updatedAt)
  }

  method EligibleItems(cfg: Config, seqs: seq<nat>, now: Time, offset: int, lead: int, setUp: Time)
    returns (items: seq<OverdueItem>)
    requires forall n :: n in seqs ==> IsDue(cfg, n, now, lead, offset)
    ensures |items| == |seqs|
    ensures forall i :: 0 <= i < |items| ==>
              FixedAnchor(cfg, seqs[i]).Ok?
                && items[i] == OverdueItem(EligibleAt(FixedAnchor(cfg, seqs[i]).value, offset, lead), setUp)
    ensures forall item :: item in items ==> item.dueAt <= now
  {
    hide FixedAnchor;
    items := [];
    var i := 0;
    while i < |seqs|
      invariant 0 <= i <= |seqs| && |items| == i
      invariant forall j :: 0 <= j < i ==>
                  && FixedAnchor(cfg, seqs[j]).Ok?
                  && items[j] == OverdueItem(EligibleAt(FixedAnchor(cfg, seqs[j]).value, offset, lead), setUp)
                  && items[j].dueAt <= now
    {
      var anchor := FixedAnchorForSeq(cfg, seqs[i]);
      assert IsDue(cfg, seqs[i], now, lead, offset);
      items := items + [OverdueItem(EligibleAt(anchor.value, offset, lead), setUp)];
      i := i + 1;
    }
  }

  /** How late the scheduler itself was: only what it could have known at its last run counts. */
  method LateForScheduler(items: seq<OverdueItem>, now: Time, lastRunAt: Time) returns (max: int)
    ensures max >= 0
    ensures forall i :: i in items && i.setUpAt <= lastRunAt ==> now - Max(i.dueAt, i.setUpAt) <= max
    ensures max > 0 ==> exists i :: i in items && i.setUpAt <= lastRunAt && max == now - Max(i.dueAt, i.setUpAt)
  {
    max := 0;
    for k := 0 to |items|
      invariant max >= 0
      invariant forall i :: i in items[..k] && i.setUpAt <= lastRunAt ==> now - Max(i.dueAt, i.setUpAt) <= max
      invariant max > 0 ==> exists i :: i in items && i.setUpAt <= lastRunAt && max == now - Max(i.dueAt, i.setUpAt)
    {
      assert items[..k + 1] == items[..k] + [items[k]];
      if items[k].setUpAt <= lastRunAt { max := Max(max, now - Max(items[k].dueAt, items[k].setUpAt)); }
    }
    assert items[..|items|] == items;
  }

  lemma DueWithinWalk(cfg: Config, now: Time, lead: int, offset: int)
    ensures forall n :: IsDue(cfg, n, now, lead, offset) ==> 1 <= n <= WALK_CAP
  {}

  predicate Sound(cfg: Config) {
    cfg.recurrenceType == Fixed ==> Complete(cfg)
  }

  /** Rows are only added, fresh ones, and only due ones of one series. */
  ghost predicate OnlyAdds<V>(before: map<Key, V>, after: map<Key, V>, id: nat, due: set<nat>, v: V) {
    && before.Keys <= after.Keys
    && (forall k :: k in before ==> after[k] == before[k])
    && forall k :: k in after && k !in before ==> k.0 == id && k.1 in due && after[k] == v
  }

  /** Both tables hold the same rows of this series. */
  ghost predicate SameRows<V>(a: map<Key, V>, b: map<Key, V>, id: nat) {
    forall n :: ((id, n) in a <==> (id, n) in b) && ((id, n) in a ==> a[(id, n)] == b[(id, n)])
  }

  lemma SameRowsStill<V>(a: map<Key, V>, b: map<Key, V>, c: map<Key, V>, id: nat)
    requires SameRows(a, b, id) && SameRows(b, c, id)
    ensures SameRows(a, c, id)
  {}

  lemma OthersSame<V>(before: map<Key, V>, after: map<Key, V>, id: nat, due: set<nat>, v: V)
    requires OnlyAdds(before, after, id, due, v)
    ensures |before| <= |after| && forall other :: other != id ==> SameRows(before, after, other)
  {
    MoreKeys(before, after);
  }

  lemma WithNone<V>(rows: map<Key, V>, id: nat, v: V)
    ensures With(rows, id, {}, v) == rows && OnlyAdds(rows, rows, id, {}, v)
  {}

  lemma MoreKeys<V>(before: map<Key, V>, after: map<Key, V>)
    requires before.Keys <= after.Keys
    ensures |before| <= |after|
  {
    assert |before.Keys| + |after.Keys - before.Keys| == |after.Keys|;
  }

  ghost function Pairs(id: nat, ns: set<nat>): (p: set<Key>)
    ensures forall k :: k in p <==> k.0 == id && k.1 in ns
  {
    var p := set n | n in ns :: (id, n);
    assert forall k: Key :: k.0 == id && k.1 in ns ==> k == (id, k.1);
    p
  }

  lemma {:induction false} PairsSize(id: nat, ns: set<nat>)
    ensures |Pairs(id, ns)| == |ns|
    decreases ns
  {
    if ns == {} {
      assert Pairs(id, ns) == {};
    } else {
      var n :| n in ns;
      PairsSize(id, ns - {n});
      assert Pairs(id, ns) == Pairs(id, ns - {n}) + {(id, n)};
    }
  }

  lemma WithSize<V>(rows: map<Key, V>, id: nat, ns: set<nat>, v: V)
    requires forall n :: n in ns ==> (id, n) !in rows
    ensures |With(rows, id, ns, v)| == |rows| + |ns|
  {
    PairsSize(id, ns);
    assert With(rows, id, ns, v).Keys == rows.Keys + Pairs(id, ns);
    assert rows.Keys !! Pairs(id, ns);
  }

  /** What is due has no row yet. */
  lemma TemplateDueIsNew(occurrences: Occurrences, t: Template, now: Time, lead: int)
    ensures forall n :: n in TemplateDue(occurrences, t, now, lead) ==> (t.id, n) !in occurrences
  {
    hide IsDue, AddInterval, SeqAllowed;
    if t.isActive && t.cfg.recurrenceType == RelativeToCompletion && RelativeNextAnchor(occurrences, t, now).Some? {
      NextIsNew(occurrences, t, now);
    }
  }

  lemma SourceDueIsNew(copies: map<Key, TaskState>, s: Source, now: Time, lead: int)
    ensures forall n :: n in SourceDue(copies, s, now, lead) ==> (s.id, n) !in copies
  {
    hide IsDue, AddInterval, SeqAllowed;
  }

  lemma NoneTwice(ns: seq<nat>)
    requires StrictlyAscending(ns)
    ensures forall i :: 0 <= i < |ns| ==> ns[i] !in ns[..i]
  {}

  lemma NextIsNew(occurrences: Occurrences, t: Template, now: Time)
    requires RelativeNextAnchor(occurrences, t, now).Some?
    ensures (t.id, RelativeNextAnchor(occurrences, t, now).value.n) !in occurrences
  {
    hide AddInterval, SeqAllowed;
    var latest := LatestSeq(occurrences.Keys, t.id);
    if latest.None? { assert 1 !in FiredSeqs(occurrences.Keys, t.id); }
  }

  lemma {:induction false} AscendingSize(s: seq<nat>, elems: set<nat>)
    requires StrictlyAscending(s) && forall n :: n in elems <==> n in s
    ensures |elems| == |s|
    decreases |s|
  {
    if s == [] {
      assert elems == {};
    } else {
      var last := s[|s| - 1];
      assert s == s[..|s| - 1] + [last];
      assert last !in s[..|s| - 1];
      AscendingSize(s[..|s| - 1], elems - {last});
    }
  }
}
