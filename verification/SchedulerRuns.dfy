/**
 Whole runs of the scheduler. First, passes that each run at the wake time the previous one computed:
 every Fixed occurrence fires no earlier than its eligible time and less than the minimum sleep
 after it, unless it was clicked or deleted, and what recurs on completion within its own bounds. Second,
 any interleaving of overlapping passes, ghost click-throughs and deletions: the occurrences that exist at
 the end do not depend on how the passes were scheduled, and none is made twice.
 */
module SchedulerRuns {
  import opened Wrappers
  import opened Entities
  import opened Recurrence
  import opened SchedulerPass

  // ----- Lateness -----

  /** One pass over one series: when it ran, when it will wake, the numbers it found and those it left. */
  datatype Pass = Pass(at: Time, wake: Time, found: set<nat>, fired: set<nat>)

  /**
   A failure-free pass: it makes what is due and no more, and its wake is never too late for what is still to
   come.
  */
  ghost predicate Settled(cfg: Config, offset: int, lead: int, p: Pass) {
    && p.at + MIN_SLEEP <= p.wake <= p.at + MAX_SLEEP && p.found <= p.fired
    && (forall n :: n in p.fired && n !in p.found ==> IsDue(cfg, n, p.at, lead, offset))
    && (forall n: nat :: IsDue(cfg, n, p.at, lead, offset) ==> n in p.fired)
    && forall n: nat :: IsScheduled(cfg, n) && n !in p.fired ==>
       p.wake <= Max(Eligible(cfg, n, offset, lead), p.at + MIN_SLEEP)
  }

  /** Each pass runs when the one before said it would; in between people may click occurrences or delete copies. */
  ghost predicate Chain(cfg: Config, offset: int, lead: int, ps: seq<Pass>) {
    && (forall i :: 0 <= i < |ps| ==> Settled(cfg, offset, lead, ps[i]))
    && forall i :: 0 < i < |ps| ==> ps[i].at == ps[i - 1].wake
  }

  /**
   What a pass makes is never early, and late by less than the minimum sleep; unless the pass before left it,
   and it was deleted since.
   */
  lemma MadeOnTime(cfg: Config, offset: int, lead: int, ps: seq<Pass>, n: nat, k: nat)
    requires Chain(cfg, offset, lead, ps) && 0 < k < |ps| && n in ps[k].fired && n !in ps[k].found
    ensures IsScheduled(cfg, n) && Eligible(cfg, n, offset, lead) <= ps[k].at
    ensures ps[k].at < Eligible(cfg, n, offset, lead) + MIN_SLEEP || n in ps[k - 1].fired
  {
    hide Eligible;
    assert Settled(cfg, offset, lead, ps[k - 1]) && Settled(cfg, offset, lead, ps[k]);
    assert IsDue(cfg, n, ps[k].at, lead, offset);
    hide IsDue, IsScheduled;
    DueWhenEligible(cfg, n, ps[k].at, offset, lead);
    DueWhenEligible(cfg, n, ps[k - 1].at, offset, lead);
  }

  /** An occurrence that was not there and is there later was clicked, or a pass made it on time. */
  lemma {:induction false} FiresOnTime(cfg: Config, offset: int, lead: int, ps: seq<Pass>, n: nat, k: nat)
    returns (i: nat)
    requires Chain(cfg, offset, lead, ps)
    requires k < |ps| && n !in ps[0].fired && n in ps[k].fired
    ensures 0 < i <= k && n !in ps[i - 1].fired && n in ps[i].fired
    ensures n !in ps[i].found ==>
            Eligible(cfg, n, offset, lead) <= ps[i].at < Eligible(cfg, n, offset, lead) + 60_000
    decreases k
  {
    hide Chain, IsScheduled, Eligible;
    if n in ps[k - 1].fired {
      i := FiresOnTime(cfg, offset, lead, ps, n, k - 1);
    } else {
      i := k;
      if n !in ps[k].found { MadeOnTime(cfg, offset, lead, ps, n, k); }
    }
  }

  /**
   So a template's new occurrence that nobody clicked was made when some date of its tasks was reached, lead time
   taken off, and a minute before none was.
  */
  lemma TemplateFiresOnTime(t: Template, lead: int, ps: seq<Pass>, n: nat, k: nat) returns (i: nat)
    requires Chain(t.cfg, EarliestOffset(t.nodes), lead, ps)
    requires k < |ps| && n !in ps[0].fired && n in ps[k].fired
    ensures 0 < i <= k && n !in ps[i - 1].fired && n in ps[i].fired
    ensures n !in ps[i].found ==>
              && IsScheduled(t.cfg, n)
              && SomeDateReached(t.nodes, FixedAnchor(t.cfg, n).value, lead, ps[i].at)
              && !SomeDateReached(t.nodes, FixedAnchor(t.cfg, n).value, lead, ps[i].at - 60_000)
  {
    hide Chain, FixedAnchor, SomeDateReached, SeqAllowed, EarliestOffset;
    i := FiresOnTime(t.cfg, EarliestOffset(t.nodes), lead, ps, n, k);
    if n !in ps[i].found {
      MadeOnTime(t.cfg, EarliestOffset(t.nodes), lead, ps, n, i);
      TemplateEligibleMeans(t, n, lead, ps[i].at);
      TemplateEligibleMeans(t, n, lead, ps[i].at - 60_000);
    }
  }

  /** And a recurring task's new copy when its anchor, less the lead time, was reached. */
  lemma CopyFiresOnTime(s: Source, lead: int, ps: seq<Pass>, n: nat, k: nat) returns (i: nat)
    requires Chain(s.cfg, 0, lead, ps)
    requires k < |ps| && n !in ps[0].fired && n in ps[k].fired
    ensures 0 < i <= k && n !in ps[i - 1].fired && n in ps[i].fired
    ensures n !in ps[i].found ==>
              && IsScheduled(s.cfg, n)
              && var from := FixedAnchor(s.cfg, n).value - lead * 86_400_000; from <= ps[i].at < from + 60_000
  {
    hide Chain, FixedAnchor, SeqAllowed;
    i := FiresOnTime(s.cfg, 0, lead, ps, n, k);
    if n !in ps[i].found {
      MadeOnTime(s.cfg, 0, lead, ps, n, i);
      SourceEligibleMeans(s, n, lead, ps[i].at);
      SourceEligibleMeans(s, n, lead, ps[i].at - 60_000);
    }
  }

  lemma {:induction false} PassesAdvance(cfg: Config, offset: int, lead: int, ps: seq<Pass>, k: nat)
    requires Chain(cfg, offset, lead, ps) && k < |ps|
    ensures ps[0].at + k * 60_000 <= ps[k].at <= ps[0].at + k * 21_600_000
    decreases k
  {
    if k > 0 {
      PassesAdvance(cfg, offset, lead, ps, k - 1);
      assert ps[k].at == ps[k - 1].wake && Settled(cfg, offset, lead, ps[k - 1]);
    }
  }

  /** Every scheduled occurrence does fire, once enough passes have run. */
  lemma EventuallyFires(cfg: Config, offset: int, lead: int, ps: seq<Pass>, n: nat, k: nat)
    requires Chain(cfg, offset, lead, ps) && IsScheduled(cfg, n) && k < |ps|
    requires ps[0].at + k * MIN_SLEEP >= Eligible(cfg, n, offset, lead)
    ensures n in ps[k].fired
  {
    hide IsDue, IsScheduled, Eligible;
    PassesAdvance(cfg, offset, lead, ps, k);
    DueWhenEligible(cfg, n, ps[k].at, offset, lead);
    assert Settled(cfg, offset, lead, ps[k]);
  }

  lemma ChainOne(cfg: Config, offset: int, lead: int, p: Pass)
    requires Settled(cfg, offset, lead, p)
    ensures Chain(cfg, offset, lead, [p])
  {}

  lemma ChainMore(cfg: Config, offset: int, lead: int, ps: seq<Pass>, q: Pass)
    requires Chain(cfg, offset, lead, ps) && |ps| > 0 && Settled(cfg, offset, lead, q)
             && q.at == ps[|ps| - 1].wake
    ensures Chain(cfg, offset, lead, ps + [q])
  {
    hide Settled;
    var all := ps + [q];
    forall i | 0 < i < |all| ensures all[i].at == all[i - 1].wake {
      if i < |ps| { assert all[i] == ps[i] && all[i - 1] == ps[i - 1]; }
    }
  }

  /** What one template's rows of the database show after a pass that found these. */
  ghost function Seen(db: SchedulerDb, found: Occurrences, t: Template): Pass
    reads db
    requires db.lastTickAt.Some? && db.nextWakeAt.Some?
  {
    Pass(db.lastTickAt.value, db.nextWakeAt.value, FiredSeqs(found.Keys, t.id), FiredSeqs(db.occurrences.Keys, t.id))
  }

  lemma SeenSettled(db: SchedulerDb, found: Occurrences, t: Template, now: Time)
    requires db.Keyed() && t in db.templates && db.TemplatesAdded(found, db.occurrences, now)
    requires db.lastTickAt == Some(now) && db.nextWakeAt.Some?
    requires now + MIN_SLEEP <= db.nextWakeAt.value <= now + MAX_SLEEP
    requires t.isActive && Complete(t.cfg) && TemplateDue(db.occurrences, t, now, db.lead) == {}
    requires forall n :: Unfired(db.occurrences, t, n) ==>
               db.nextWakeAt.value <= Max(TemplateEligible(t, n, db.lead), now + MIN_SLEEP)
    ensures Settled(t.cfg, EarliestOffset(t.nodes), db.lead, Seen(db, found, t))
  {
    hide IsDue, IsScheduled, Eligible;
    DueWithinWalk(t.cfg, now, db.lead, EarliestOffset(t.nodes));
    OnlyDueFired(db, found, t, now);
    forall n: nat | IsDue(t.cfg, n, now, db.lead, EarliestOffset(t.nodes)) ensures (t.id, n) in db.occurrences {
      assert n !in TemplateDue(db.occurrences, t, now, db.lead);
    }
    forall n: nat | IsScheduled(t.cfg, n) && (t.id, n) !in db.occurrences
      ensures db.nextWakeAt.value <= Max(Eligible(t.cfg, n, EarliestOffset(t.nodes), db.lead), now + MIN_SLEEP)
    {
      assert Unfired(db.occurrences, t, n);
    }
  }

  /** One pass over the database, none of it failing, as an active Fixed template sees it. */
  method PassOverTemplate(db: SchedulerDb, now: Time, otherWakes: seq<Time>, t: Template) returns (ghost p: Pass)
    requires db.Keyed() && t in db.templates && t.isActive && Complete(t.cfg) && db.ActiveSound()
    modifies db
    ensures Settled(t.cfg, EarliestOffset(t.nodes), db.lead, p) && p.at == now
    ensures p.found == FiredSeqs(old(db.occurrences).Keys, t.id) && p.fired == FiredSeqs(db.occurrences.Keys, t.id)
    ensures db.lastTickAt == Some(now) && db.nextWakeAt == Some(p.wake)
  {
    hide TemplateDue, SourceDue, IsDue, IsScheduled, Unfired, UnfiredCopy, TemplateEligible, SourceEligible, Complete,
         EarliestOffset, FiredSeqs, Settled;
    var made, after := db.RunScheduler(now, {}, otherWakes);
    SeenSettled(db, old(db.occurrences), t, now);
    p := Seen(db, old(db.occurrences), t);
  }

  /**
   Run passes one after the other, each at the wake time the previous one computed, none failing, with people
   clicking occurrences and editing tasks in between: every active Fixed template sees a chain, so the lemmas
   above apply to each of its occurrences.
   */
  method RunAtWakes(db: SchedulerDb, start: Time, otherWakes: seq<seq<Time>>, edits: seq<Occurrences>, t: Template)
    returns (ghost seen: seq<Pass>)
    requires db.Keyed() && t in db.templates && t.isActive && Complete(t.cfg)
    requires db.ActiveSound() && |edits| == |otherWakes|
    modifies db
    ensures |seen| == |otherWakes| + 1 && seen[0].at == start
    ensures Chain(t.cfg, EarliestOffset(t.nodes), db.lead, seen)
    ensures seen[|seen| - 1].fired == FiredSeqs(db.occurrences.Keys, t.id)
    // nothing but clicks comes between one pass and the next
    ensures forall i :: 0 < i < |seen| ==> seen[i - 1].fired <= seen[i].found
  {
    hide Complete, EarliestOffset, FiredSeqs, Chain, Settled, RootsEdited;
    var p := PassOverTemplate(db, start, [], t);
    seen := [p];
    ChainOne(t.cfg, EarliestOffset(t.nodes), db.lead, p);
    for i := 0 to |otherWakes|
      invariant db.lastTickAt.Some? && |seen| == i + 1 && seen[0].at == start
      invariant db.nextWakeAt == Some(seen[i].wake) && seen[i].fired == FiredSeqs(db.occurrences.Keys, t.id)
      invariant Chain(t.cfg, EarliestOffset(t.nodes), db.lead, seen)
      invariant forall j :: 0 < j < |seen| ==> seen[j - 1].fired <= seen[j].found
    {
      db.occurrences := RootsEdited(db.templates, db.occurrences, edits[i], db.lastTickAt.value);
      p := PassOverTemplate(db, db.nextWakeAt.value, otherWakes[i], t);
      ChainMore(t.cfg, EarliestOffset(t.nodes), db.lead, seen, p);
      seen := seen + [p];
    }
  }

  lemma OnlyDueFired(db: SchedulerDb, before: Occurrences, t: Template, now: Time)
    requires db.Keyed() && t in db.templates && t.isActive && Complete(t.cfg)
    requires db.TemplatesAdded(before, db.occurrences, now)
    ensures FiredSeqs(before.Keys, t.id) <= FiredSeqs(db.occurrences.Keys, t.id)
    ensures forall n :: n in FiredSeqs(db.occurrences.Keys, t.id) && n !in FiredSeqs(before.Keys, t.id) ==>
              IsDue(t.cfg, n, now, db.lead, EarliestOffset(t.nodes))
  {
    hide IsDue;
    forall n | (t.id, n) in db.occurrences && (t.id, n) !in before
      ensures IsDue(t.cfg, n, now, db.lead, EarliestOffset(t.nodes))
    {
      var u :| u in db.templates && u.id == t.id && n in TemplateDue(before, u, now, db.lead);
      OneTemplate(db.templates, t, u);
    }
  }

  /** The same of a recurring task; it is its own occurrence 1. */
  ghost function SeenCopies(db: SchedulerDb, found: map<Key, TaskState>, s: Source): Pass
    reads db
    requires db.lastTickAt.Some? && db.nextWakeAt.Some?
  {
    Pass(db.lastTickAt.value, db.nextWakeAt.value, FiredSeqs(found.Keys, s.id) + {1},
         FiredSeqs(db.copies.Keys, s.id) + {1})
  }

  lemma SeenCopiesSettled(db: SchedulerDb, found: map<Key, TaskState>, s: Source, now: Time)
    requires db.Keyed() && s in db.sources && db.SourcesAdded(found, db.copies, now)
    requires db.lastTickAt == Some(now) && db.nextWakeAt.Some?
    requires now + MIN_SLEEP <= db.nextWakeAt.value <= now + MAX_SLEEP
    requires s.isActive && Complete(s.cfg) && SourceDue(db.copies, s, now, db.lead) == {}
    requires forall n :: UnfiredCopy(db.copies, s, n) ==>
               db.nextWakeAt.value <= Max(SourceEligible(s, n, db.lead), now + MIN_SLEEP)
    ensures Settled(s.cfg, 0, db.lead, SeenCopies(db, found, s))
  {
    hide IsDue, IsScheduled, Eligible;
    DueWithinWalk(s.cfg, now, db.lead, 0);
    OnlyDueCopied(db, found, s, now);
    forall n: nat | IsDue(s.cfg, n, now, db.lead, 0) && n != 1 ensures (s.id, n) in db.copies {
      assert n !in SourceDue(db.copies, s, now, db.lead);
    }
    forall n: nat | IsScheduled(s.cfg, n) && n != 1 && (s.id, n) !in db.copies
      ensures db.nextWakeAt.value <= Max(Eligible(s.cfg, n, 0, db.lead), now + MIN_SLEEP)
    {
      assert UnfiredCopy(db.copies, s, n);
    }
  }

  method PassOverSource(db: SchedulerDb, now: Time, otherWakes: seq<Time>, s: Source) returns (ghost p: Pass)
    requires db.Keyed() && s in db.sources && s.isActive && Complete(s.cfg) && db.ActiveSound()
    modifies db
    ensures Settled(s.cfg, 0, db.lead, p) && p.at == now
    ensures p.found == FiredSeqs(old(db.copies).Keys, s.id) + {1} && p.fired == FiredSeqs(db.copies.Keys, s.id) + {1}
    ensures db.lastTickAt == Some(now) && db.nextWakeAt == Some(p.wake)
  {
    hide TemplateDue, SourceDue, IsDue, IsScheduled, Unfired, UnfiredCopy, TemplateEligible, SourceEligible, Complete,
         EarliestOffset, FiredSeqs, Settled;
    var made, after := db.RunScheduler(now, {}, otherWakes);
    SeenCopiesSettled(db, old(db.copies), s, now);
    p := SeenCopies(db, old(db.copies), s);
  }

  /** And every active Fixed recurring task sees a chain too, though its copies may also be deleted in between. */
  method RunCopiesAtWakes(db: SchedulerDb, start: Time, otherWakes: seq<seq<Time>>, edits: seq<CopyEdits>, s: Source)
    returns (ghost seen: seq<Pass>)
    requires db.Keyed() && s in db.sources && s.isActive && Complete(s.cfg)
    requires db.ActiveSound() && |edits| == |otherWakes|
    modifies db
    ensures |seen| == |otherWakes| + 1 && seen[0].at == start
    ensures Chain(s.cfg, 0, db.lead, seen)
    ensures seen[|seen| - 1].fired == FiredSeqs(db.copies.Keys, s.id) + {1}
  {
    hide Complete, FiredSeqs, Chain, Settled, CopiesEdited;
    var p := PassOverSource(db, start, [], s);
    seen := [p];
    ChainOne(s.cfg, 0, db.lead, p);
    for i := 0 to |otherWakes|
      invariant db.lastTickAt.Some? && |seen| == i + 1 && seen[0].at == start
      invariant db.nextWakeAt == Some(seen[i].wake) && seen[i].fired == FiredSeqs(db.copies.Keys, s.id) + {1}
      invariant Chain(s.cfg, 0, db.lead, seen)
    {
      db.copies := CopiesEdited(db.sources, db.copies, edits[i], db.lastTickAt.value);
      p := PassOverSource(db, db.nextWakeAt.value, otherWakes[i], s);
      ChainMore(s.cfg, 0, db.lead, seen, p);
      seen := seen + [p];
    }
  }

  lemma OnlyDueCopied(db: SchedulerDb, before: map<Key, TaskState>, s: Source, now: Time)
    requires db.Keyed() && s in db.sources && s.isActive && Complete(s.cfg)
    requires db.SourcesAdded(before, db.copies, now)
    ensures FiredSeqs(before.Keys, s.id) <= FiredSeqs(db.copies.Keys, s.id)
    ensures forall n :: n in FiredSeqs(db.copies.Keys, s.id) && n !in FiredSeqs(before.Keys, s.id) ==>
              IsDue(s.cfg, n, now, db.lead, 0)
  {
    hide IsDue;
    forall n | (s.id, n) in db.copies && (s.id, n) !in before ensures IsDue(s.cfg, n, now, db.lead, 0) {
      var u :| u in db.sources && u.id == s.id && n in SourceDue(before, u, now, db.lead);
      OneSource(db.sources, s, u);
    }
  }

  // ----- What people do between passes -----

  /** A row written after that moment by someone changing the task's status, or emptied by deleting the task. */
  predicate RootEditedAfter(row: Option<TaskState>, at: Time) { row.Some? ==> EditedAfter(row.value, at) }

  predicate EditedAfter(row: TaskState, at: Time) { row.statusChangedAt.Some? && row.statusChangedAt.value > at }

  /** Only the occurrences of a Fixed series can be clicked before they are due. */
  predicate FixedTemplate(templates: seq<Template>, id: nat) {
    exists t :: t in templates && t.id == id && t.cfg.recurrenceType == Fixed
  }

  predicate FixedSource(sources: seq<Source>, id: nat) {
    exists s :: s in sources && s.id == id && s.cfg.recurrenceType == Fixed
  }

  lemma OneTemplate(ts: seq<Template>, t: Template, u: Template)
    requires TemplatesApart(ts) && t in ts && u in ts && t.id == u.id
    ensures t == u
  {
    var i :| 0 <= i < |ts| && ts[i] == t;
    var j :| 0 <= j < |ts| && ts[j] == u;
    assert i == j;
  }

  lemma OneSource(ss: seq<Source>, s: Source, u: Source)
    requires SourcesApart(ss) && s in ss && u in ss && s.id == u.id
    ensures s == u
  {
    var i :| 0 <= i < |ss| && ss[i] == s;
    var j :| 0 <= j < |ss| && ss[j] == u;
    assert i == j;
  }

  lemma OnlyOneTemplate(ts: seq<Template>, t: Template)
    requires TemplatesApart(ts) && t in ts
    ensures FixedTemplate(ts, t.id) ==> t.cfg.recurrenceType == Fixed
  {
    if FixedTemplate(ts, t.id) {
      var u :| u in ts && u.id == t.id && u.cfg.recurrenceType == Fixed;
      OneTemplate(ts, t, u);
    }
  }

  lemma OnlyOneSource(ss: seq<Source>, s: Source)
    requires SourcesApart(ss) && s in ss
    ensures FixedSource(ss, s.id) ==> s.cfg.recurrenceType == Fixed
  {
    if FixedSource(ss, s.id) {
      var u :| u in ss && u.id == s.id && u.cfg.recurrenceType == Fixed;
      OneSource(ss, s, u);
    }
  }

  /** The rows after people changed the status of some tasks or deleted them since that moment, and clicked others. */
  function RootsEdited(templates: seq<Template>, rows: Occurrences, edits: Occurrences, at: Time): (r: Occurrences)
    ensures rows.Keys <= r.Keys && forall k :: k in r && k !in rows ==> FixedTemplate(templates, k.0)
    ensures forall k :: k in rows && r[k] != rows[k] ==> RootEditedAfter(r[k], at)
  {
    map k | k in rows.Keys + edits.Keys && (k in rows || FixedTemplate(templates, k.0)) ::
      if k in rows && !(k in edits && RootEditedAfter(edits[k], at)) then rows[k] else edits[k]
  }

  /** Copies to change, to add by clicking, and, where the new row is None, to delete. */
  type CopyEdits = map<Key, Option<TaskState>>

  function CopiesEdited(sources: seq<Source>, rows: map<Key, TaskState>, edits: CopyEdits, at: Time)
    : (r: map<Key, TaskState>)
    ensures forall k :: k in r && k !in rows ==> FixedSource(sources, k.0)
    ensures forall k :: k in r && k in rows && r[k] != rows[k] ==> EditedAfter(r[k], at)
    ensures forall k :: k in rows && k in edits && edits[k].None? ==> k !in r
  {
    var changed := map k | k in edits && edits[k].Some? && FixedSource(sources, k.0) && k !in rows :: edits[k].value;
    changed + map k | k in rows && !(k in edits && edits[k].None?) ::
      if k in edits && EditedAfter(edits[k].value, at) then edits[k].value else rows[k]
  }

  /** Nothing people may do is left out: any row can change or go, and any Fixed occurrence can be clicked. */
  lemma EditsTakeEffect(templates: seq<Template>, sources: seq<Source>, occurrences: Occurrences, roots: Occurrences,
                        copies: map<Key, TaskState>, edits: CopyEdits, at: Time, k: Key)
    ensures k in occurrences && (k in roots ==> !RootEditedAfter(roots[k], at)) ==>
              RootsEdited(templates, occurrences, roots, at)[k] == occurrences[k]
    ensures k in roots
            && (if k in occurrences then RootEditedAfter(roots[k], at) else FixedTemplate(templates, k.0)) ==>
              var r := RootsEdited(templates, occurrences, roots, at);
              k in r && r[k] == roots[k]
    ensures var r := CopiesEdited(sources, copies, edits, at);
            && (k in copies && k in edits && edits[k].None? ==> k !in r)
            && (k in copies && (k in edits ==> edits[k].Some? && !EditedAfter(edits[k].value, at)) ==>
                  k in r && r[k] == copies[k])
            && (k in edits && edits[k].Some?
                && (if k in copies then EditedAfter(edits[k].value, at) else FixedSource(sources, k.0)) ==>
                  k in r && r[k] == edits[k].value)
  {}

  // ----- Series that recur on completion -----

  /** One pass over such a series: the rows it found and the rows it left. */
  datatype Watch<V> = Watch(at: Time, wake: Time, before: map<Key, V>, after: map<Key, V>)

  /** Rows stay and only numbers due are new. */
  ghost predicate MadeDue<V>(id: nat, w: Watch<V>, due: set<nat>) {
    && (forall n :: (id, n) in w.before ==> (id, n) in w.after && w.after[(id, n)] == w.before[(id, n)])
    && forall n :: (id, n) in w.after && (id, n) !in w.before ==> n in due
  }

  ghost predicate TemplateWatch(t: Template, lead: int, w: Watch<Option<TaskState>>) {
    && w.at + MIN_SLEEP <= w.wake <= w.at + MAX_SLEEP
    && TemplateDue(w.after, t, w.at, lead) == {}
    && MadeDue(t.id, w, TemplateDue(w.before, t, w.at, lead))
    && (var next := RelativeNextAnchor(w.after, t, w.at);
        next.Some? && EligibleAt(next.value.anchor, 0, lead) > w.at ==>
          w.wake <= Max(EligibleAt(next.value.anchor, 0, lead), w.at + MIN_SLEEP))
  }

  /** Each pass runs when the one before said; in between, tasks of the series are finished, reopened or deleted. */
  ghost predicate TemplateWatches(t: Template, lead: int, ws: seq<Watch<Option<TaskState>>>) {
    && (forall i :: 0 <= i < |ws| ==> TemplateWatch(t, lead, ws[i]))
    && forall i :: 0 < i < |ws| ==> TemplateFollows(t, ws[i - 1], ws[i])
  }

  ghost predicate TemplateFollows(t: Template, v: Watch<Option<TaskState>>, w: Watch<Option<TaskState>>) {
    && w.at == v.wake
    && (forall n :: (t.id, n) in v.after <==> (t.id, n) in w.before)
    && forall n :: (t.id, n) in w.before && w.before[(t.id, n)] != v.after[(t.id, n)] ==>
       RootEditedAfter(w.before[(t.id, n)], v.at)
  }

  /**
   Not early, and late by less than the minimum sleep; or, if the last pass could not know of it yet, by less
   than one sleep.
  */
  predicate MadeInTime(eligible: Time, completed: Option<Time>, last: Time, at: Time) {
    eligible <= at && if completed.Some? && completed.value > last then at < completed.value + MAX_SLEEP
      else at < eligible + MIN_SLEEP
  }

  /**
   An occurrence of a template that recurs on completion is made no earlier than it is eligible, and, when the
   one before it was finished by the last pass, less than the minimum sleep after; otherwise within the ceiling
   of that one being finished.
   */
  lemma RelativeFiresOnTime(t: Template, lead: int, ws: seq<Watch<Option<TaskState>>>, k: nat, n: nat)
    requires t.cfg.recurrenceType == RelativeToCompletion && TemplateWatches(t, lead, ws) && 0 < k < |ws|
    requires (t.id, n) in ws[k].after && (t.id, n) !in ws[k].before
    ensures var next := RelativeNextAnchor(ws[k].before, t, ws[k].at);
            next.Some? && next.value.n == n
            && MadeInTime(EligibleAt(next.value.anchor, 0, lead), next.value.completedAt, ws[k - 1].at, ws[k].at)
  {
    hide AddInterval, SeqAllowed, MadeDue, IsDue;
    var v, w := ws[k - 1], ws[k];
    assert TemplateWatch(t, lead, v) && TemplateWatch(t, lead, w) && TemplateFollows(t, v, w);
    DueWasMade(t.id, w, TemplateDue(w.before, t, w.at, lead), n);
    SameNumbers(t.id, v.after.Keys, w.before.Keys);
    var latest := LatestSeq(w.before.Keys, t.id);
    if latest.Some? && v.after[(t.id, latest.value)] != w.before[(t.id, latest.value)] {
      assert RootEditedAfter(w.before[(t.id, latest.value)], v.at);
    } else if latest.None? || w.before[(t.id, latest.value)].value.statusChangedAt.Some? {
      assert RelativeNextAnchor(v.after, t, v.at) == RelativeNextAnchor(w.before, t, w.at);
    }
  }

  lemma DueWasMade<V>(id: nat, w: Watch<V>, due: set<nat>, n: nat)
    requires MadeDue(id, w, due) && (id, n) in w.after && (id, n) !in w.before
    ensures n in due
  {}

  lemma SameNumbers(id: nat, a: set<Key>, b: set<Key>)
    requires forall n :: (id, n) in a <==> (id, n) in b
    ensures LatestSeq(a, id) == LatestSeq(b, id)
  {
    assert FiredSeqs(a, id) == FiredSeqs(b, id);
  }

  ghost predicate SourceWatch(s: Source, lead: int, w: Watch<TaskState>) {
    && w.at + MIN_SLEEP <= w.wake <= w.at + MAX_SLEEP
    && SourceDue(w.after, s, w.at, lead) == {}
    && MadeDue(s.id, w, SourceDue(w.before, s, w.at, lead))
  }

  ghost predicate SourceWatches(s: Source, lead: int, ws: seq<Watch<TaskState>>) {
    && (forall i :: 0 <= i < |ws| ==> SourceWatch(s, lead, ws[i]))
    && forall i :: 0 < i < |ws| ==> SourceFollows(s, ws[i - 1], ws[i])
  }

  ghost predicate SourceFollows(s: Source, v: Watch<TaskState>, w: Watch<TaskState>) {
    && w.at == v.wake
    && (forall n :: (s.id, n) in w.before ==> (s.id, n) in v.after)
    && forall n :: (s.id, n) in w.before && w.before[(s.id, n)] != v.after[(s.id, n)] ==>
       EditedAfter(w.before[(s.id, n)], v.at)
  }

  /** The latest copy, or a later one, was deleted: the series goes on from an earlier one. */
  ghost predicate LatestDropped(id: nat, before: set<Key>, after: set<Key>) {
    LatestSeq(before, id) != LatestSeq(after, id)
  }

  /**
   The wake does not look at tasks that recur on completion, so their copies are only sure to be made within the
   ceiling; unless the latest copy was deleted, when the one to be made instead may have been due long before.
  */
  lemma RelativeCopiesWithinCeiling(s: Source, lead: int, ws: seq<Watch<TaskState>>, k: nat, n: nat)
    requires s.cfg.recurrenceType == RelativeToCompletion && SourceWatches(s, lead, ws) && 0 < k < |ws|
    requires (s.id, n) in ws[k].after && (s.id, n) !in ws[k].before
    ensures var next := SourceNextAnchor(ws[k].before, s, ws[k].at);
            next.Some? && next.value.n == n && next.value.completedAt.Some?
            && var eligible := EligibleAt(next.value.anchor, 0, lead);
               eligible <= ws[k].at
               && (ws[k].at < Max(eligible, next.value.completedAt.value) + MAX_SLEEP
                   || (LatestDropped(s.id, ws[k - 1].after.Keys, ws[k].before.Keys)
                       && Max(eligible, next.value.completedAt.value) <= ws[k - 1].at))
  {
    hide AddInterval, SeqAllowed, MadeDue, IsDue;
    var v, w := ws[k - 1], ws[k];
    assert SourceWatch(s, lead, v) && SourceWatch(s, lead, w) && SourceFollows(s, v, w);
    DueWasMade(s.id, w, SourceDue(w.before, s, w.at, lead), n);
    if LatestDropped(s.id, v.after.Keys, w.before.Keys) { return; }
    var latest := LatestSeq(w.before.Keys, s.id);
    if latest.Some? && v.after[(s.id, latest.value)] != w.before[(s.id, latest.value)] {
      assert EditedAfter(w.before[(s.id, latest.value)], v.at);
    } else if (if latest.Some? then w.before[(s.id, latest.value)] else s.task).statusChangedAt.Some? {
      assert SourceNextAnchor(v.after, s, v.at) == SourceNextAnchor(w.before, s, w.at);
    }
  }

  /** One pass over the database, as a template that recurs on completion sees it. */
  method PassOver(db: SchedulerDb, now: Time, otherWakes: seq<Time>, t: Template)
    returns (ghost w: Watch<Option<TaskState>>)
    requires db.Keyed() && t in db.templates && t.isActive && t.cfg.recurrenceType == RelativeToCompletion
    requires db.ActiveSound()
    modifies db
    ensures w.at == now && w.before == old(db.occurrences) && w.after == db.occurrences
    ensures TemplateWatch(t, db.lead, w)
    ensures db.lastTickAt == Some(now) && db.nextWakeAt == Some(w.wake)
  {
    hide TemplateDue, SourceDue, Unfired, UnfiredCopy, TemplateEligible, SourceEligible, RelativeNextAnchor;
    var made, after := db.RunScheduler(now, {}, otherWakes);
    w := Watch(now, db.nextWakeAt.value, old(db.occurrences), db.occurrences);
    OnlyOwnDueMade(db, w, t);
    var next := RelativeNextAnchor(db.occurrences, t, now);
    if next.Some? && EligibleAt(next.value.anchor, 0, db.lead) > now {
      assert db.TemplateAsks(t, now, EligibleAt(next.value.anchor, 0, db.lead));
    }
  }

  lemma OnlyOwnDueMade(db: SchedulerDb, w: Watch<Option<TaskState>>, t: Template)
    requires db.Keyed() && t in db.templates && db.TemplatesAdded(w.before, w.after, w.at)
    ensures MadeDue(t.id, w, TemplateDue(w.before, t, w.at, db.lead))
  {
    hide TemplateDue;
    forall n | (t.id, n) in w.after && (t.id, n) !in w.before ensures n in TemplateDue(w.before, t, w.at, db.lead) {
      var u :| u in db.templates && u.id == t.id && n in TemplateDue(w.before, u, w.at, db.lead);
      OneTemplate(db.templates, t, u);
    }
  }

  /** Passes at their wake times, with people editing tasks in between. */
  method RunRelativeAtWakes(db: SchedulerDb, start: Time, otherWakes: seq<seq<Time>>, edits: seq<Occurrences>,
                            t: Template)
    returns (ghost seen: seq<Watch<Option<TaskState>>>)
    requires db.Keyed() && t in db.templates && t.isActive && t.cfg.recurrenceType == RelativeToCompletion
    requires db.ActiveSound() && |edits| == |otherWakes|
    modifies db
    ensures |seen| == |otherWakes| + 1 && seen[0].at == start && seen[|seen| - 1].after == db.occurrences
    ensures TemplateWatches(t, db.lead, seen)
  {
    hide TemplateWatch, TemplateFollows, RootsEdited;
    var w := PassOver(db, start, [], t);
    seen := [w];
    var i := 0;
    while i < |otherWakes|
      invariant 0 <= i <= |otherWakes| && |seen| == i + 1 && seen[0].at == start
      invariant seen[i].after == db.occurrences
      invariant db.lastTickAt == Some(seen[i].at) && db.nextWakeAt == Some(seen[i].wake)
      invariant TemplateWatches(t, db.lead, seen)
    {
      db.occurrences := RootsEdited(db.templates, db.occurrences, edits[i], db.lastTickAt.value);
      w := PassOver(db, db.nextWakeAt.value, otherWakes[i], t);
      FollowsEdits(db, t, seen[i], w, edits[i]);
      WatchesMore(t, db.lead, seen, w);
      seen := seen + [w];
      i := i + 1;
    }
  }

  lemma FollowsEdits(db: SchedulerDb, t: Template, v: Watch<Option<TaskState>>, w: Watch<Option<TaskState>>,
                     edits: Occurrences)
    requires db.Keyed() && t in db.templates && t.cfg.recurrenceType == RelativeToCompletion
    requires w.at == v.wake && w.before == RootsEdited(db.templates, v.after, edits, v.at)
    ensures TemplateFollows(t, v, w)
  {
    hide RootsEdited, RootEditedAfter;
    OnlyOneTemplate(db.templates, t);
  }

  lemma WatchesMore(t: Template, lead: int, ws: seq<Watch<Option<TaskState>>>, w: Watch<Option<TaskState>>)
    requires TemplateWatches(t, lead, ws) && |ws| > 0 && TemplateWatch(t, lead, w)
             && TemplateFollows(t, ws[|ws| - 1], w)
    ensures TemplateWatches(t, lead, ws + [w])
  {
    hide TemplateWatch, TemplateFollows;
    var all := ws + [w];
    forall i | 0 < i < |all| ensures TemplateFollows(t, all[i - 1], all[i]) {
      if i < |ws| { assert all[i] == ws[i] && all[i - 1] == ws[i - 1]; }
    }
  }

  /** The same of a task that recurs on completion. */
  method PassOverCopies(db: SchedulerDb, now: Time, otherWakes: seq<Time>, s: Source)
    returns (ghost w: Watch<TaskState>)
    requires db.Keyed() && s in db.sources
    requires db.ActiveSound()
    modifies db
    ensures w.at == now && w.before == old(db.copies) && w.after == db.copies
    ensures SourceWatch(s, db.lead, w)
    ensures db.lastTickAt == Some(now) && db.nextWakeAt == Some(w.wake)
  {
    hide TemplateDue, SourceDue, Unfired, UnfiredCopy, TemplateEligible, SourceEligible;
    var made, after := db.RunScheduler(now, {}, otherWakes);
    w := Watch(now, db.nextWakeAt.value, old(db.copies), db.copies);
    OnlyOwnCopiesMade(db, w, s);
  }

  lemma OnlyOwnCopiesMade(db: SchedulerDb, w: Watch<TaskState>, s: Source)
    requires db.Keyed() && s in db.sources && db.SourcesAdded(w.before, w.after, w.at)
    ensures MadeDue(s.id, w, SourceDue(w.before, s, w.at, db.lead))
  {
    hide SourceDue;
    forall n | (s.id, n) in w.after && (s.id, n) !in w.before ensures n in SourceDue(w.before, s, w.at, db.lead) {
      var u :| u in db.sources && u.id == s.id && n in SourceDue(w.before, u, w.at, db.lead);
      OneSource(db.sources, s, u);
    }
  }

  method RunRelativeCopiesAtWakes(db: SchedulerDb, start: Time, otherWakes: seq<seq<Time>>,
                                  edits: seq<CopyEdits>, s: Source)
    returns (ghost seen: seq<Watch<TaskState>>)
    requires db.Keyed() && s in db.sources && s.cfg.recurrenceType == RelativeToCompletion
    requires db.ActiveSound() && |edits| == |otherWakes|
    modifies db
    ensures |seen| == |otherWakes| + 1 && seen[0].at == start && seen[|seen| - 1].after == db.copies
    ensures SourceWatches(s, db.lead, seen)
  {
    hide SourceWatch, SourceFollows, CopiesEdited;
    var w := PassOverCopies(db, start, [], s);
    seen := [w];
    var i := 0;
    while i < |otherWakes|
      invariant 0 <= i <= |otherWakes| && |seen| == i + 1 && seen[0].at == start
      invariant seen[i].after == db.copies
      invariant db.lastTickAt == Some(seen[i].at) && db.nextWakeAt == Some(seen[i].wake)
      invariant SourceWatches(s, db.lead, seen)
    {
      db.copies := CopiesEdited(db.sources, db.copies, edits[i], db.lastTickAt.value);
      w := PassOverCopies(db, db.nextWakeAt.value, otherWakes[i], s);
      FollowsCopyEdits(db, s, seen[i], w, edits[i]);
      CopyWatchesMore(s, db.lead, seen, w);
      seen := seen + [w];
      i := i + 1;
    }
  }

  lemma FollowsCopyEdits(db: SchedulerDb, s: Source, v: Watch<TaskState>, w: Watch<TaskState>, edits: CopyEdits)
    requires db.Keyed() && s in db.sources && s.cfg.recurrenceType == RelativeToCompletion
    requires w.at == v.wake && w.before == CopiesEdited(db.sources, v.after, edits, v.at)
    ensures SourceFollows(s, v, w)
  {
    hide CopiesEdited, EditedAfter;
    OnlyOneSource(db.sources, s);
  }

  lemma CopyWatchesMore(s: Source, lead: int, ws: seq<Watch<TaskState>>, w: Watch<TaskState>)
    requires SourceWatches(s, lead, ws) && |ws| > 0 && SourceWatch(s, lead, w) && SourceFollows(s, ws[|ws| - 1], w)
    ensures SourceWatches(s, lead, ws + [w])
  {
    hide SourceWatch, SourceFollows;
    var all := ws + [w];
    forall i | 0 < i < |all| ensures SourceFollows(s, all[i - 1], all[i]) {
      if i < |ws| { assert all[i] == ws[i] && all[i - 1] == ws[i - 1]; }
    }
  }

  /** A second pass at the same moment materializes nothing. */
  method RunTwice(db: SchedulerDb, now: Time, w1: seq<Time>, w2: seq<Time>) returns (first: nat, second: nat)
    requires db.Keyed() && db.ActiveSound()
    modifies db
    ensures second == 0
    ensures db.NothingOverdue(now)
  {
    hide TemplateDue, SourceDue;
    var after;
    first, after := db.RunScheduler(now, {}, w1);
    second, after := db.RunScheduler(now, {}, w2);
  }

  // ----- Schedule independence -----

  /** What a running pass still means to fire, from its own reading at that moment. */
  datatype Job = Job(now: Time, left: seq<nat>)

  /**
   One Fixed series under concurrent passes, clicks and deletions. fired is the unique index; made logs each
   row created and dropped each one deleted; latest is the latest moment a pass began, done that of one that
   ran to its end.
   */
  datatype Series = Series(fired: set<nat>, made: seq<nat>, clicked: set<nat>, dropped: seq<nat>,
                           pending: map<Pid, Job>, latest: Option<Time>, done: Option<Time>, stopped: bool)

  datatype Event =
    | Begin(pid: Pid, now: Time, due: seq<nat>)
    | FireNext(pid: Pid)
    // an error on the way: the pass goes on with the next series
    | Stop(pid: Pid)
    | Click(n: nat)
    // deleting a copy of a recurring task frees its number; an occurrence of a template outlives its tasks
    | Drop(n: nat)

  function Fresh(fired: set<nat>): Series {
    Series(fired, [], {}, [], map[], None, None, false)
  }

  function Insert(s: Series, n: nat): Series {
    if n in s.fired then s else s.(fired := s.fired + {n}, made := s.made + [n])
  }

  function Later(latest: Option<Time>, now: Time): Time {
    if latest.Some? && latest.value >= now then latest.value else now
  }

  /** due of Begin is what dueFixedSeqs returns for the rows read at that moment. */
  ghost predicate Step(cfg: Config, offset: int, lead: int, s: Series, e: Event, s': Series) {
    match e
    case Begin(pid, now, due) =>
      && pid !in s.pending
      && StrictlyAscending(due) && (forall n: nat :: n in due <==> IsDue(cfg, n, now, lead, offset) && n !in s.fired)
      && s' == s.(pending := s.pending[pid := Job(now, due)], latest := Some(Later(s.latest, now)))
    case FireNext(pid) =>
      && pid in s.pending
      && s' == (var job := s.pending[pid];
                if job.left == [] then s.(pending := s.pending - {pid}, done := Some(Later(s.done, job.now)))
                else Insert(s, job.left[0]).(pending := s.pending[pid := job.(left := job.left[1..])]))
    case Stop(pid) =>
      pid in s.pending && s' == s.(pending := s.pending - {pid}, stopped := true)
    case Click(n) =>
      // beyond the schedule, or there already: refused
      s' == if FixedAnchor(cfg, n).Ok? && SeqAllowed(cfg, n, FixedAnchor(cfg, n).value)
            then Insert(s, n).(clicked := s.clicked + {n}) else s
    case Drop(n) =>
      n in s.fired && s' == s.(fired := s.fired - {n}, dropped := s.dropped + [n])
  }

  ghost predicate Run(cfg: Config, offset: int, lead: int, states: seq<Series>, events: seq<Event>) {
    && |states| == |events| + 1
    && forall i :: 0 <= i < |events| ==> Step(cfg, offset, lead, states[i], events[i], states[i + 1])
  }

  ghost predicate DueBy(cfg: Config, offset: int, lead: int, latest: Option<Time>, n: nat) {
    latest.Some? && IsDue(cfg, n, latest.value, lead, offset)
  }

  /** Each number is made as often as it is there or was deleted, less once if it was there from the start. */
  ghost predicate Balanced(initial: set<nat>, s: Series) {
    forall n :: multiset(s.made)[n] + (if n in initial then 1 else 0) == multiset(s.dropped)[n]
      + if n in s.fired then 1 else 0
  }

  /** A running pass means to fire all that was due when it began, unless it is there by now or was deleted. */
  ghost predicate JobOk(cfg: Config, offset: int, lead: int, s: Series, job: Job) {
    && s.latest.Some? && job.now <= s.latest.value
    && (forall n :: n in job.left ==> DueBy(cfg, offset, lead, s.latest, n))
    && forall n: nat :: IsDue(cfg, n, job.now, lead, offset) ==> n in s.fired || n in s.dropped || n in job.left
  }

  /** Nothing lost, nothing extra, nothing twice, at every moment. */
  ghost predicate Inv(cfg: Config, offset: int, lead: int, initial: set<nat>, s: Series) {
    && Balanced(initial, s)
    && (forall n :: n in s.made ==> n in s.clicked || DueBy(cfg, offset, lead, s.latest, n))
    && (forall n :: n in s.clicked ==> n in s.fired || n in s.dropped)
    && (forall pid :: pid in s.pending ==> JobOk(cfg, offset, lead, s, s.pending[pid]))
    && (forall n: nat :: DueBy(cfg, offset, lead, s.done, n) ==> n in s.fired || n in s.dropped)
    && (s.latest.Some? && !s.stopped ==>
        s.done == s.latest || exists pid :: pid in s.pending && Some(s.pending[pid].now) == s.latest)
    && (s.done.Some? ==> s.latest.Some? && s.done.value <= s.latest.value)
  }

  /** What is due stays due as time goes on. */
  lemma DueLater(cfg: Config, offset: int, lead: int, a: Time, b: Time)
    requires a <= b
    ensures forall n :: IsDue(cfg, n, a, lead, offset) ==> IsDue(cfg, n, b, lead, offset)
  {
    hide FixedAnchor;
  }

  lemma InsertKeeps(initial: set<nat>, s: Series, n: nat)
    requires Balanced(initial, s)
    ensures var t := Insert(s, n);
            && Balanced(initial, t) && (forall m :: m in t.fired <==> m in s.fired || m == n)
            && (forall m :: m in t.made ==> m in s.made || m == n)
  {}

  lemma BeginKeepsInv(cfg: Config, offset: int, lead: int, initial: set<nat>, s: Series, e: Event, s': Series)
    requires Inv(cfg, offset, lead, initial, s) && e.Begin? && Step(cfg, offset, lead, s, e, s')
    ensures Inv(cfg, offset, lead, initial, s')
  {
    hide IsDue, Balanced;
    var latest := s'.latest.value;
    DueLater(cfg, offset, lead, e.now, latest);
    if s.latest.Some? { DueLater(cfg, offset, lead, s.latest.value, latest); }
    assert forall n :: DueBy(cfg, offset, lead, s.latest, n) ==> DueBy(cfg, offset, lead, s'.latest, n);
    forall pid | pid in s'.pending ensures JobOk(cfg, offset, lead, s', s'.pending[pid]) {
      if pid != e.pid { assert JobOk(cfg, offset, lead, s, s.pending[pid]); }
    }
    assert s'.pending[e.pid].now == e.now;
    if s.latest.Some? && s.latest.value >= e.now && !s.stopped && s.done != s.latest {
      var pid :| pid in s.pending && Some(s.pending[pid].now) == s.latest;
      assert pid in s'.pending && s'.pending[pid] == s.pending[pid];
    }
    assert Balanced(initial, s') by { BalancedSame(initial, s, s'); }
  }

  lemma BalancedSame(initial: set<nat>, s: Series, t: Series)
    requires Balanced(initial, s) && s.made == t.made && s.dropped == t.dropped && s.fired == t.fired
    ensures Balanced(initial, t)
  {}

  lemma FireKeepsInv(cfg: Config, offset: int, lead: int, initial: set<nat>, s: Series, e: Event, s': Series)
    requires Inv(cfg, offset, lead, initial, s) && e.FireNext? && Step(cfg, offset, lead, s, e, s')
    requires s.pending[e.pid].left != []
    ensures Inv(cfg, offset, lead, initial, s')
  {
    hide DueBy, Balanced, IsDue;
    var job := s.pending[e.pid];
    assert JobOk(cfg, offset, lead, s, job);
    InsertKeeps(initial, s, job.left[0]);
    BalancedSame(initial, Insert(s, job.left[0]), s');
    assert forall n :: n in job.left <==> n == job.left[0] || n in job.left[1..];
    forall pid | pid in s'.pending ensures JobOk(cfg, offset, lead, s', s'.pending[pid]) {
      assert JobOk(cfg, offset, lead, s, s.pending[pid]);
    }
    if s.latest.Some? && !s.stopped && s.done != s.latest {
      var pid :| pid in s.pending && Some(s.pending[pid].now) == s.latest;
      assert pid in s'.pending && s'.pending[pid].now == s.pending[pid].now;
    }
  }

  lemma EndKeepsInv(cfg: Config, offset: int, lead: int, initial: set<nat>, s: Series, e: Event, s': Series)
    requires Inv(cfg, offset, lead, initial, s) && e.FireNext? && Step(cfg, offset, lead, s, e, s')
    requires s.pending[e.pid].left == []
    ensures Inv(cfg, offset, lead, initial, s')
  {
    hide Balanced, IsDue;
    var job := s.pending[e.pid];
    assert JobOk(cfg, offset, lead, s, job);
    BalancedSame(initial, s, s');
    forall pid | pid in s'.pending ensures JobOk(cfg, offset, lead, s', s'.pending[pid]) {
      assert JobOk(cfg, offset, lead, s, s.pending[pid]);
    }
    if s.latest.Some? && !s.stopped && s'.done != s.latest {
      var pid :| pid in s.pending && Some(s.pending[pid].now) == s.latest;
      assert pid in s'.pending && s'.pending[pid] == s.pending[pid];
    }
  }

  lemma StopKeepsInv(cfg: Config, offset: int, lead: int, initial: set<nat>, s: Series, e: Event, s': Series)
    requires Inv(cfg, offset, lead, initial, s) && e.Stop? && Step(cfg, offset, lead, s, e, s')
    ensures Inv(cfg, offset, lead, initial, s')
  {
    hide Balanced, DueBy, IsDue;
    BalancedSame(initial, s, s');
    forall pid | pid in s'.pending ensures JobOk(cfg, offset, lead, s', s'.pending[pid]) {
      assert JobOk(cfg, offset, lead, s, s.pending[pid]);
    }
  }

  lemma ClickKeepsInv(cfg: Config, offset: int, lead: int, initial: set<nat>, s: Series, e: Event, s': Series)
    requires Inv(cfg, offset, lead, initial, s) && e.Click? && Step(cfg, offset, lead, s, e, s')
    ensures Inv(cfg, offset, lead, initial, s')
  {
    hide DueBy, FixedAnchor, SeqAllowed, Balanced, IsDue;
    InsertKeeps(initial, s, e.n);
    if s' != s { BalancedSame(initial, Insert(s, e.n), s'); }
    forall pid | pid in s'.pending ensures JobOk(cfg, offset, lead, s', s'.pending[pid]) {
      assert JobOk(cfg, offset, lead, s, s.pending[pid]);
    }
  }

  lemma DropKeepsInv(cfg: Config, offset: int, lead: int, initial: set<nat>, s: Series, e: Event, s': Series)
    requires Inv(cfg, offset, lead, initial, s) && e.Drop? && Step(cfg, offset, lead, s, e, s')
    ensures Inv(cfg, offset, lead, initial, s')
  {
    hide DueBy, IsDue;
    forall pid | pid in s'.pending ensures JobOk(cfg, offset, lead, s', s'.pending[pid]) {
      assert JobOk(cfg, offset, lead, s, s.pending[pid]);
    }
  }

  lemma {:induction false} AlwaysInv(cfg: Config, offset: int, lead: int, states: seq<Series>, events: seq<Event>,
                                     k: nat)
    requires Run(cfg, offset, lead, states, events) && k < |states| && states[0] == Fresh(states[0].fired)
    ensures Inv(cfg, offset, lead, states[0].fired, states[k])
    decreases k
  {
    hide Step, DueBy, Inv;
    if k > 0 {
      AlwaysInv(cfg, offset, lead, states, events, k - 1);
      var s, e, s' := states[k - 1], events[k - 1], states[k];
      assert Step(cfg, offset, lead, states[k - 1], events[k - 1], states[k - 1 + 1]);
      StepKeepsInv(cfg, offset, lead, states[0].fired, s, e, s');
    } else {
      FreshInv(cfg, offset, lead, states[0].fired);
    }
  }

  lemma StepKeepsInv(cfg: Config, offset: int, lead: int, initial: set<nat>, s: Series, e: Event, s': Series)
    requires Inv(cfg, offset, lead, initial, s) && Step(cfg, offset, lead, s, e, s')
    ensures Inv(cfg, offset, lead, initial, s')
  {
    hide Inv, IsDue, FixedAnchor, SeqAllowed;
    match e
    case Begin(_, _, _) => BeginKeepsInv(cfg, offset, lead, initial, s, e, s');
    case FireNext(pid) =>
      if s.pending[pid].left == [] {
        EndKeepsInv(cfg, offset, lead, initial, s, e, s');
      } else {
        FireKeepsInv(cfg, offset, lead, initial, s, e, s');
      }
    case Stop(_) => StopKeepsInv(cfg, offset, lead, initial, s, e, s');
    case Click(_) => ClickKeepsInv(cfg, offset, lead, initial, s, e, s');
    case Drop(_) => DropKeepsInv(cfg, offset, lead, initial, s, e, s');
  }

  lemma FreshInv(cfg: Config, offset: int, lead: int, initial: set<nat>)
    ensures Inv(cfg, offset, lead, initial, Fresh(initial))
  {
    hide IsDue;
  }

  // ----- What the logs of a run say -----

  /** Someone clicked n, and the schedule goes that far. */
  ghost predicate ClickedAt(cfg: Config, events: seq<Event>, i: nat, n: nat) {
    i < |events| && events[i] == Click(n)
    && FixedAnchor(cfg, n).Ok? && EndAllows(cfg, n, FixedAnchor(cfg, n).value)
  }

  ghost predicate DroppedAt(events: seq<Event>, i: nat, n: nat) {
    i < |events| && events[i] == Drop(n)
  }

  ghost predicate BeganAt(events: seq<Event>, i: nat, now: Time) {
    i < |events| && events[i].Begin? && events[i].now == now
  }

  /** A pass that began at that moment had nothing left to fire. */
  ghost predicate EndedAt(states: seq<Series>, events: seq<Event>, i: nat, now: Time) {
    i < |events| && i < |states| && events[i].FireNext? && events[i].pid in states[i].pending
    && states[i].pending[events[i].pid] == Job(now, [])
  }

  ghost predicate IsLatest(latest: Option<Time>, now: Time) {
    latest.Some? && now <= latest.value
  }

  /** The logs hold what happened up to there: clicks and deletions, and the latest pass begun and ended. */
  ghost predicate LogsAre(cfg: Config, states: seq<Series>, events: seq<Event>, k: nat)
    requires k < |states|
  {
    var s := states[k];
    && (forall n :: n in s.clicked <==> exists i :: 0 <= i < k && ClickedAt(cfg, events, i, n))
    && (forall n :: n in s.dropped <==> exists i :: 0 <= i < k && DroppedAt(events, i, n))
    && (forall i, now :: 0 <= i < k && BeganAt(events, i, now) ==> IsLatest(s.latest, now))
    && (s.latest.Some? ==> exists i :: 0 <= i < k && BeganAt(events, i, s.latest.value))
    && (forall i, now :: 0 <= i < k && EndedAt(states, events, i, now) ==> IsLatest(s.done, now))
    && (s.done.Some? ==> exists i :: 0 <= i < k && EndedAt(states, events, i, s.done.value))
    && (s.stopped <==> exists i :: 0 <= i < k && i < |events| && events[i].Stop?)
  }

  lemma {:induction false} LogsAreTrue(cfg: Config, offset: int, lead: int, states: seq<Series>, events: seq<Event>,
                                       k: nat)
    requires Run(cfg, offset, lead, states, events) && states[0] == Fresh(states[0].fired) && k <= |events|
    ensures LogsAre(cfg, states, events, k)
  {
    hide FixedAnchor, IsDue;
    if k > 0 {
      LogsAreTrue(cfg, offset, lead, states, events, k - 1);
      assert Step(cfg, offset, lead, states[k - 1], events[k - 1], states[k - 1 + 1]);
      LogStep(cfg, offset, lead, states, events, k);
    }
  }

  lemma LogStep(cfg: Config, offset: int, lead: int, states: seq<Series>, events: seq<Event>, k: nat)
    requires 0 < k < |states| == |events| + 1 && LogsAre(cfg, states, events, k - 1)
    requires Step(cfg, offset, lead, states[k - 1], events[k - 1], states[k])
    ensures LogsAre(cfg, states, events, k)
  {
    hide FixedAnchor, IsDue;
    var a, b, e := states[k - 1], states[k], events[k - 1];
    forall n ensures n in b.clicked <==> n in a.clicked || ClickedAt(cfg, events, k - 1, n) {}
    forall n ensures n in b.dropped <==> n in a.dropped || DroppedAt(events, k - 1, n) {}
    assert b.stopped <==> a.stopped || e.Stop?;
    assert b.latest == if e.Begin? then Some(Later(a.latest, e.now)) else a.latest;
    if e.Begin? { assert BeganAt(events, k - 1, e.now); }
    assert b.done == a.done || EndedAt(states, events, k - 1, a.pending[e.pid].now);
  }

  /** A pass may begin at any time, from what is due and not there; it may fire or stop at any time while it runs. */
  lemma WhatMayHappen(cfg: Config, offset: int, lead: int, s: Series, e: Event)
    ensures (exists s' :: Step(cfg, offset, lead, s, e, s')) <==>
              match e
              case Begin(pid, now, due) =>
                pid !in s.pending && StrictlyAscending(due)
                && forall n: nat :: n in due <==> IsDue(cfg, n, now, lead, offset) && n !in s.fired
              case FireNext(pid) => pid in s.pending
              case Stop(pid) => pid in s.pending
              case Click(n) => true
              case Drop(n) => n in s.fired
  {
    hide FixedAnchor, IsDue, SeqAllowed;
    match e
    case Begin(pid, now, due) =>
      var next := s.(pending := s.pending[pid := Job(now, due)], latest := Some(Later(s.latest, now)));
      if pid !in s.pending && StrictlyAscending(due)
         && forall n: nat :: n in due <==> IsDue(cfg, n, now, lead, offset) && n !in s.fired {
        assert Step(cfg, offset, lead, s, e, next);
      }
    case FireNext(pid) =>
      if pid in s.pending {
        var job := s.pending[pid];
        var next := if job.left == [] then s.(pending := s.pending - {pid}, done := Some(Later(s.done, job.now)))
                    else Insert(s, job.left[0]).(pending := s.pending[pid := job.(left := job.left[1..])]);
        assert Step(cfg, offset, lead, s, e, next);
      }
    case Stop(pid) =>
      if pid in s.pending { assert Step(cfg, offset, lead, s, e, s.(pending := s.pending - {pid}, stopped := true)); }
    case Click(n) =>
      var next := if FixedAnchor(cfg, n).Ok? && SeqAllowed(cfg, n, FixedAnchor(cfg, n).value)
                  then Insert(s, n).(clicked := s.clicked + {n}) else s;
      assert Step(cfg, offset, lead, s, e, next);
    case Drop(n) =>
      if n in s.fired {
        assert Step(cfg, offset, lead, s, e, s.(fired := s.fired - {n}, dropped := s.dropped + [n]));
      }
  }

  /**
   Once no pass is running: nothing but the initial occurrences, those clicked and those due at the latest pass
   time; all of the initial ones, those clicked and those due at the latest time of a pass that ran to its end,
   but for deleted ones; and each made once more than it was deleted if it is there and was not initially. How
   many passes ran, when, in what order and how far does not matter.
   */
  lemma ScheduleIndependence(cfg: Config, offset: int, lead: int, states: seq<Series>, events: seq<Event>)
    requires Run(cfg, offset, lead, states, events) && states[0] == Fresh(states[0].fired)
    requires states[|events|].pending == map[]
    ensures var initial, s := states[0].fired, states[|events|];
            && (forall n: nat :: n in s.fired ==>
                n in initial || n in s.clicked || DueBy(cfg, offset, lead, s.latest, n))
            && (forall n: nat :: n in initial || n in s.clicked || DueBy(cfg, offset, lead, s.done, n) ==>
                n in s.fired || n in s.dropped)
            && Balanced(initial, s) && (!s.stopped ==> s.done == s.latest)
  {
    hide Step, DueBy;
    AlwaysInv(cfg, offset, lead, states, events, |events|);
    var initial, s := states[0].fired, states[|events|];
    forall n: nat | n in s.fired ensures n in initial || n in s.made {
      assert multiset(s.made)[n] + (if n in initial then 1 else 0) == multiset(s.dropped)[n]
          + if n in s.fired then 1 else 0;
    }
    forall n: nat | n in initial ensures n in s.fired || n in s.dropped {
      assert multiset(s.made)[n] + (if n in initial then 1 else 0) == multiset(s.dropped)[n]
          + if n in s.fired then 1 else 0;
    }
  }

  /** When every pass ran to its end and nothing was deleted that is exact, and each is made at most once. */
  lemma UndisturbedSchedule(cfg: Config, offset: int, lead: int, states: seq<Series>, events: seq<Event>)
    requires Run(cfg, offset, lead, states, events) && states[0] == Fresh(states[0].fired)
    requires states[|events|].pending == map[] && !states[|events|].stopped && states[|events|].dropped == []
    ensures var initial, s := states[0].fired, states[|events|];
            && (forall n: nat ::
                  n in s.fired <==> n in initial || n in s.clicked || DueBy(cfg, offset, lead, s.latest, n))
            && forall n: nat :: multiset(s.made)[n] == if n in s.fired && n !in initial then 1 else 0
  {
    hide Step, DueBy, Balanced;
    ScheduleIndependence(cfg, offset, lead, states, events);
    BalancedOnce(states[0].fired, states[|events|]);
  }

  lemma BalancedOnce(initial: set<nat>, s: Series)
    requires Balanced(initial, s) && s.dropped == []
    ensures forall n :: multiset(s.made)[n] == if n in s.fired && n !in initial then 1 else 0
  {}
}
