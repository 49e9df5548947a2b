/**
 The rules of editing tasks around Review and the terminal statuses: updateTask with its locks, the two ways
 out of Review, creation, and the template sync that rewrites open tasks. The lemmas follow one task
 through any run of these. Every edit reads the row and writes it in a second step, and leaving Review
 reads it once more before; so other writes may come between. The lemmas say what the locks promise to
 edits that were not overtaken, and exactly what a read must still share with the row to keep that promise.
 */
module ReviewWorkflow {
  import opened Wrappers
  import opened Entities
  import opened OrgChart
  import opened TaskAccess

  type GroupId = nat

  predicate Terminal(s: Status) { s == Completed || s == Canceled }

  /** Statuses closed to a task with an unfinished predecessor. */
  predicate NeedsPredecessors(s: Status) { s == Review || s == Completed }

  /** A task row; rest stands for the fields no rule here looks at. */
  datatype TaskRow = TaskRow(
    status: Status, assignee: Option<UserId>,
    reviewInitiator: Option<UserId>, priorAssignee: Option<UserId>, priorStatus: Option<Status>,
    dutyId: Option<DutyId>, alertGroup: Option<GroupId>, startAt: Option<Time>, dueAt: Option<Time>, rest: string,
    updatedAt: Time)

  /** A PATCH body: an absent field is None, a field set to null is Some(None). */
  datatype Patch = Patch(
    expectedUpdatedAt: Option<Time>, status: Option<Status>, assignee: Option<Option<UserId>>, reviewer: Option<UserId>,
    dutyId: Option<Option<DutyId>>, alertGroup: Option<Option<GroupId>>,
    startAt: Option<Option<Time>>, dueAt: Option<Option<Time>>, rest: Option<string>)

  datatype User = User(role: Role, isActive: bool)

  /**
   What the other tables say at the moment of a call; assignable is None when anyone may be assigned, predecessors
   are the statuses of the tasks that block this one, groups says which alert groups are active.
  */
  datatype Env = Env(
    now: Time, users: map<UserId, User>, chart: Chart, level: Option<Level>, assignable: Option<set<UserId>>,
    predecessors: seq<Status>, activeDuties: set<DutyId>, holders: set<(UserId, DutyId)>, groups: map<GroupId, bool>)

  datatype Refusal =
    | NotFound | Stale | ReadOnly | TerminalLock | ReviewStatusLock | ReviewAssigneeLock | Blocked | NoReviewer
    | BadAssignee | ReviewerNotAllowed | AssigneeNotAllowed | BadDuty | LacksDuty | NoSuchGroup | InactiveGroup
    | StartNotBeforeDue
    | NotInReview | ExitNotAllowed

  datatype Via = Reviewed | Recall

  // ----- The rules -----

  predicate EntersReview(t: TaskRow, p: Patch) { p.status == Some(Review) && t.status != Review }

  predicate ChangesAssignee(t: TaskRow, p: Patch) { p.assignee.Some? && p.assignee.value != t.assignee }

  predicate ChangesDuty(t: TaskRow, p: Patch) { p.dutyId.Some? && p.dutyId.value != t.dutyId }

  function DutyAfter(t: TaskRow, p: Patch): Option<DutyId> { if p.dutyId.Some? then p.dutyId.value else t.dutyId }

  /** Every task that blocks this one is finished. */
  predicate PredecessorsDone(env: Env) { forall s :: s in env.predecessors ==> Terminal(s) }

  predicate ActiveUser(env: Env, u: UserId) { u in env.users && env.users[u].isActive }

  /** Active administrators and anyone above the current assignee. */
  ghost predicate MayReview(env: Env, assignee: Option<UserId>, u: UserId) {
    (ActiveUser(env, u) && env.users[u].role == Admin) || (assignee.Some? && IsAbove(env.chart, u, assignee.value))
  }

  /** Whose duties count: in Review, the person it goes back to. */
  function Doer(t: TaskRow, p: Patch): Option<UserId> {
    if (if p.status.Some? then p.status.value else t.status) == Review then
      if EntersReview(t, p) || t.priorAssignee.None? then t.assignee else t.priorAssignee
    else if p.assignee.Some? then p.assignee.value
    else t.assignee
  }

  predicate InOrder(startAt: Option<Time>, dueAt: Option<Time>) {
    startAt.Some? && dueAt.Some? ==> startAt.value < dueAt.value
  }

  ghost function AccessRefusal(env: Env, t: TaskRow, p: Patch, exiting: bool): Option<Refusal> {
    if p.expectedUpdatedAt.Some? && p.expectedUpdatedAt.value != t.updatedAt then Some(Stale)
    else if !exiting && env.level.None? then Some(NotFound)
    else if !exiting && env.level != Some(Full) then Some(ReadOnly)
    else None
  }

  ghost function LockRefusal(t: TaskRow, p: Patch, exiting: bool): Option<Refusal> {
    if exiting then None
    else if Terminal(t.status) && (ChangesAssignee(t, p) || EntersReview(t, p)) then Some(TerminalLock)
    else if t.status == Review && p.status.Some? && p.status.value != Review then Some(ReviewStatusLock)
    else if t.status == Review && ChangesAssignee(t, p) then Some(ReviewAssigneeLock)
    else None
  }

  ghost function PeopleRefusal(env: Env, t: TaskRow, p: Patch, exiting: bool): Option<Refusal> {
    if EntersReview(t, p) then
      if p.reviewer.None? then Some(NoReviewer)
      else if !ActiveUser(env, p.reviewer.value) then Some(BadAssignee)
      else if !MayReview(env, t.assignee, p.reviewer.value) then Some(ReviewerNotAllowed)
      else None
    else if p.assignee.Some? && p.assignee.value.Some? && !exiting then
      if !ActiveUser(env, p.assignee.value.value) then Some(BadAssignee)
      else if ChangesAssignee(t, p) && env.assignable.Some? && p.assignee.value.value !in env.assignable.value
      then Some(AssigneeNotAllowed)
      else None
    else None
  }

  ghost function DutyRefusal(env: Env, t: TaskRow, p: Patch, exiting: bool): Option<Refusal> {
    var duty, handoff := DutyAfter(t, p), EntersReview(t, p) || exiting;
    if ChangesDuty(t, p) && duty.Some? && duty.value !in env.activeDuties then Some(BadDuty)
    else if duty.Some? && (ChangesDuty(t, p) || (ChangesAssignee(t, p) && !handoff))
            && Doer(t, p).Some? && (Doer(t, p).value, duty.value) !in env.holders then Some(LacksDuty)
    else None
  }

  predicate ChangesGroup(t: TaskRow, p: Patch) { p.alertGroup.Some? && p.alertGroup.value != t.alertGroup }

  /** An inactive group may stay but not be picked. */
  function GroupRefusal(env: Env, t: TaskRow, p: Patch): Option<Refusal> {
    if !ChangesGroup(t, p) || p.alertGroup.value.None? then None
    else if p.alertGroup.value.value !in env.groups then Some(NoSuchGroup)
    else if !env.groups[p.alertGroup.value.value] then Some(InactiveGroup)
    else None
  }

  function StartAfter(t: TaskRow, p: Patch): Option<Time> { if p.startAt.Some? then p.startAt.value else t.startAt }

  function DueAfter(t: TaskRow, p: Patch): Option<Time> { if p.dueAt.Some? then p.dueAt.value else t.dueAt }

  /** Why an edit is refused, in the order the checks run. */
  ghost function Refused(env: Env, t: TaskRow, p: Patch, exiting: bool): Option<Refusal> {
    if AccessRefusal(env, t, p, exiting).Some? then AccessRefusal(env, t, p, exiting)
    else if LockRefusal(t, p, exiting).Some? then LockRefusal(t, p, exiting)
    else if p.status.Some? && NeedsPredecessors(p.status.value) && !PredecessorsDone(env) then Some(Blocked)
    else if PeopleRefusal(env, t, p, exiting).Some? then PeopleRefusal(env, t, p, exiting)
    else if DutyRefusal(env, t, p, exiting).Some? then DutyRefusal(env, t, p, exiting)
    else if GroupRefusal(env, t, p).Some? then GroupRefusal(env, t, p)
    else if !InOrder(StartAfter(t, p), DueAfter(t, p)) then Some(StartNotBeforeDue)
    else None
  }

  /** The columns an edit sets as given, duty and group only where they differ from what was read. */
  function Columns(env: Env, read: TaskRow, t: TaskRow, p: Patch): TaskRow {
    t.(status := if p.status.Some? then p.status.value else t.status,
       dutyId := if ChangesDuty(read, p) then p.dutyId.value else t.dutyId,
       alertGroup := if ChangesGroup(read, p) then p.alertGroup.value else t.alertGroup,
       startAt := StartAfter(t, p), dueAt := DueAfter(t, p), rest := if p.rest.Some? then p.rest.value else t.rest,
       updatedAt := env.now)
  }

  /** What an accepted edit writes, worked out from the row it read, into the row as it is by then. */
  function Written(env: Env, actorId: UserId, read: TaskRow, t: TaskRow, p: Patch, exiting: bool): TaskRow {
    var entering, leaving := EntersReview(read, p), exiting && read.status == Review;
    Columns(env, read, t, p).(
      assignee := if entering then p.reviewer else if p.assignee.Some? then p.assignee.value else t.assignee,
      reviewInitiator := if entering then Some(actorId) else if leaving then None else t.reviewInitiator,
      priorAssignee := if entering then read.assignee else if leaving then None else t.priorAssignee,
      priorStatus := if entering then Some(read.status) else if leaving then None else t.priorStatus)
  }

  /** The row an accepted edit leaves when nothing came between its read and its write. */
  function Patched(env: Env, actorId: UserId, t: TaskRow, p: Patch, exiting: bool): TaskRow {
    Written(env, actorId, t, t, p, exiting)
  }

  /** Who may take a task out of Review. */
  ghost predicate MayExit(env: Env, actor: Actor, t: TaskRow, via: Via) {
    match via
    case Reviewed => actor.role == Admin || Some(actor.id) == t.assignee
                     || (t.assignee.Some? && IsAbove(env.chart, actor.id, t.assignee.value))
    case Recall => Some(actor.id) == t.reviewInitiator || Some(actor.id) == t.priorAssignee
  }

  /** The edit an exit makes, from the row it has read. */
  function ExitPatch(seen: TaskRow): Patch {
    Patch(None, Some(if seen.priorStatus.Some? then seen.priorStatus.value else Open), Some(seen.priorAssignee),
          None, None, None, None, None, None)
  }

  function NewRow(now: Time, assignee: UserId, status: Option<Status>, dutyId: Option<DutyId>,
                  startAt: Option<Time>, dueAt: Option<Time>, rest: string): TaskRow {
    var initial := if status.Some? then status.value else Open;
    TaskRow(initial, Some(assignee), None, None, None, dutyId, None, startAt, dueAt, rest, now)
  }

  ghost function CreateRefused(env: Env, who: UserId, dutyId: Option<DutyId>, startAt: Option<Time>,
                               dueAt: Option<Time>): Option<Refusal> {
    if !ActiveUser(env, who) then Some(BadAssignee)
    else if env.assignable.Some? && who !in env.assignable.value then Some(AssigneeNotAllowed)
    else if !InOrder(startAt, dueAt) then Some(StartNotBeforeDue)
    else if dutyId.Some? && dutyId.value !in env.activeDuties then Some(BadDuty)
    else if dutyId.Some? && (who, dutyId.value) !in env.holders then Some(LacksDuty)
    else None
  }

  class TaskTable {
    var rows: map<TaskId, TaskRow>
    var nextId: TaskId

    ghost predicate Valid()
      reads this
    {
      forall x :: x in rows ==> x < nextId && Remembers(rows[x])
    }

    constructor ()
      ensures Valid() && rows == map[]
    {
      rows, nextId := map[], 1;
    }

    /** Without an assignee the creator takes the task. Any status may be asked for. */
    method CreateTask(env: Env, actorId: UserId, assignee: Option<UserId>, status: Option<Status>,
                      dutyId: Option<DutyId>, startAt: Option<Time>, dueAt: Option<Time>, rest: string)
      returns (r: Result<TaskId, Refusal>)
      requires Valid()
      modifies this
      ensures Valid()
      ensures r.Err? ==> rows == old(rows)
      ensures var who := if assignee.Some? then assignee.value else actorId;
              && (match CreateRefused(env, who, dutyId, startAt, dueAt) case Some(e) => r == Err(e) case None => r.Ok?)
              && (r.Ok? ==>
                    && r.value !in old(rows)
                    && rows == old(rows)[r.value := NewRow(env.now, who, status, dutyId, startAt, dueAt, rest)])
    {
      var assigneeId := if assignee.Some? then assignee.value else actorId;
      if !(assigneeId in env.users && env.users[assigneeId].isActive) { return Err(BadAssignee); }
      if env.assignable.Some? && assigneeId !in env.assignable.value { return Err(AssigneeNotAllowed); }
      if startAt.Some? && dueAt.Some? && startAt.value >= dueAt.value { return Err(StartNotBeforeDue); }
      if dutyId.Some? {
        if dutyId.value !in env.activeDuties { return Err(BadDuty); }
        if (assigneeId, dutyId.value) !in env.holders { return Err(LacksDuty); }
      }
      var task := TaskRow(if status.Some? then status.value else Open, Some(assigneeId), None, None, None,
                          dutyId, None, startAt, dueAt, rest, env.now);
      rows := rows[nextId := task];
      r := Ok(nextId);
      nextId := nextId + 1;
    }

    method UpdateTask(env: Env, actor: Actor, id: TaskId, p: Patch, allowReviewExit: bool)
      returns (r: Result<(), Refusal>)
      requires Valid()
      requires allowReviewExit ==> exists seen: TaskRow :: Remembers(seen) && p == ExitPatch(seen)
      modifies this`rows
      ensures Valid()
      ensures id !in old(rows) ==> r == Err(NotFound)
      ensures id in old(rows) ==> var refused := Refused(env, old(rows)[id], p, allowReviewExit);
                                  r == if refused.Some? then Err(refused.value) else Ok(())
      ensures rows == if r.Ok? then old(rows)[id := Patched(env, actor.id, old(rows)[id], p, allowReviewExit)]
              else old(rows)
      // an ordinary edit goes through exactly when all its rules hold, and leaves what it says
      ensures id in old(rows) && !allowReviewExit ==> (r.Ok? <==> EditIsFine(env, old(rows)[id], p))
      ensures r.Ok? && !allowReviewExit ==> LeavesRow(env, actor.id, old(rows)[id], p, rows[id])
    {
      if id in rows {
        AcceptedWhenFine(env, rows[id], p);
        EditLeaves(env, actor.id, rows[id], p);
      }
      hide Refused, Written, Remembers, ExitPatch, EditIsFine, LeavesRow;
      if id !in rows { return Err(NotFound); }
      var existing := rows[id];
      var refusal := CheckEdit(env, existing, p, allowReviewExit);
      if refusal.Some? { return Err(refusal.value); }
      var updated := WriteRow(env, actor.id, existing, rows[id], p, allowReviewExit);
      EditRemembers(env, actor.id, existing, existing, p, allowReviewExit);
      rows := rows[id := updated];
      r := Ok(());
    }

    /** Both exits hand the task back to its prior assignee at its prior status. */
    method ExitReview(env: Env, actor: Actor, id: TaskId, via: Via) returns (r: Result<(), Refusal>)
      requires Valid()
      modifies this`rows
      ensures Valid()
      // allowed by the person's standing and stopped only by dates out of order
      ensures id !in old(rows) ==> r == Err(NotFound)
      ensures id in old(rows) ==> var was := old(rows)[id];
              r == if was.status != Review then Err(NotInReview)
                   else if !MayExit(env, actor, was, via) then Err(ExitNotAllowed)
                   else if !InOrder(was.startAt, was.dueAt) then Err(StartNotBeforeDue)
                   else Ok(())
      ensures r.Err? ==> rows == old(rows)
      // prior assignee and prior status come back, the review fields go, and nothing else changes
      ensures r.Ok? ==> var was := old(rows)[id];
              var status := if was.priorStatus.Some? then was.priorStatus.value else Open;
              && status != Review && !Terminal(status)
              && rows == old(rows)[id := was.(status := status, assignee := was.priorAssignee, reviewInitiator := None,
                                              priorAssignee := None, priorStatus := None, updatedAt := env.now)]
    {
      if id !in rows { return Err(NotFound); }
      var task := rows[id];
      if task.status != Review { return Err(NotInReview); }
      var allowed: bool;
      if via == Reviewed {
        allowed := actor.role == Admin || Some(actor.id) == task.assignee;
        if !allowed { allowed := IsInSupervisorChain(env.chart, actor.id, task.assignee); }
      } else {
        allowed := Some(actor.id) == task.reviewInitiator || Some(actor.id) == task.priorAssignee;
      }
      if !allowed { return Err(ExitNotAllowed); }
      r := UpdateTask(env, actor, id, ExitPatch(task), true);
    }
  }

  /** Every check, on the row read. */
  method CheckEdit(env: Env, existing: TaskRow, p: Patch, allowReviewExit: bool) returns (refusal: Option<Refusal>)
    ensures refusal == Refused(env, existing, p, allowReviewExit)
    ensures !allowReviewExit ==> (refusal.None? <==> EditIsFine(env, existing, p))
  {
    AcceptedWhenFine(env, existing, p);
    hide LockRefusal, PeopleRefusal, DutyRefusal, EditIsFine;
    if p.expectedUpdatedAt.Some? && existing.updatedAt != p.expectedUpdatedAt.value { return Some(Stale); }
    if !allowReviewExit {
      if env.level.None? { return Some(NotFound); }
      if env.level.value != Full { return Some(ReadOnly); }
    }
    var lock := CheckLocks(existing, p, allowReviewExit);
    if lock.Some? { return lock; }
    if p.status.Some? && NeedsPredecessors(p.status.value) {
      if exists s :: s in env.predecessors && !Terminal(s) { return Some(Blocked); }
    }
    var people := CheckPeople(env, existing, p, allowReviewExit);
    if people.Some? { return people; }
    var duty := CheckDuty(env, existing, p, allowReviewExit);
    if duty.Some? { return duty; }
    if p.alertGroup.Some? && p.alertGroup.value != existing.alertGroup && p.alertGroup.value.Some? {
      if p.alertGroup.value.value !in env.groups { return Some(NoSuchGroup); }
      if !env.groups[p.alertGroup.value.value] { return Some(InactiveGroup); }
    }
    var effectiveStart := if p.startAt.Some? then p.startAt.value else existing.startAt;
    var effectiveDue := if p.dueAt.Some? then p.dueAt.value else existing.dueAt;
    if effectiveStart.Some? && effectiveDue.Some? && effectiveStart.value >= effectiveDue.value {
      return Some(StartNotBeforeDue);
    }
    refusal := None;
  }

  method CheckLocks(existing: TaskRow, p: Patch, allowReviewExit: bool) returns (refusal: Option<Refusal>)
    ensures refusal == LockRefusal(existing, p, allowReviewExit)
  {
    var enteringReview := p.status == Some(Review) && existing.status != Review;
    var assigneeChanging := p.assignee.Some? && p.assignee.value != existing.assignee;
    if !allowReviewExit && Terminal(existing.status) && (assigneeChanging || enteringReview) {
      return Some(TerminalLock);
    }
    if existing.status == Review && !allowReviewExit {
      if p.status.Some? && p.status.value != existing.status { return Some(ReviewStatusLock); }
      if assigneeChanging { return Some(ReviewAssigneeLock); }
    }
    refusal := None;
  }

  method WriteRow(env: Env, actorId: UserId, existing: TaskRow, row: TaskRow, p: Patch, allowReviewExit: bool)
    returns (updated: TaskRow)
    ensures updated == Written(env, actorId, existing, row, p, allowReviewExit)
  {
    hide Columns;
    updated := WriteColumns(env, existing, row, p);
    SameOtherwise(env, existing, row, p);
    if p.status == Some(Review) && existing.status != Review {
      updated := updated.(assignee := p.reviewer, reviewInitiator := Some(actorId));
      updated := updated.(priorAssignee := existing.assignee, priorStatus := Some(existing.status));
    } else {
      if p.assignee.Some? { updated := updated.(assignee := p.assignee.value); }
      if allowReviewExit && existing.status == Review {
        updated := updated.(reviewInitiator := None, priorAssignee := None, priorStatus := None);
      }
    }
  }

  method WriteColumns(env: Env, existing: TaskRow, row: TaskRow, p: Patch) returns (updated: TaskRow)
    ensures updated == Columns(env, existing, row, p)
  {
    updated := row.(updatedAt := env.now);
    if p.rest.Some? { updated := updated.(rest := p.rest.value); }
    if p.startAt.Some? { updated := updated.(startAt := p.startAt.value); }
    if p.dueAt.Some? { updated := updated.(dueAt := p.dueAt.value); }
    if p.dutyId.Some? && p.dutyId.value != existing.dutyId { updated := updated.(dutyId := p.dutyId.value); }
    if p.alertGroup.Some? && p.alertGroup.value != existing.alertGroup {
      updated := updated.(alertGroup := p.alertGroup.value);
    }
    if p.status.Some? { updated := updated.(status := p.status.value); }
  }

  lemma SameOtherwise(env: Env, read: TaskRow, t: TaskRow, p: Patch)
    ensures var c := Columns(env, read, t, p);
            c.assignee == t.assignee && c.reviewInitiator == t.reviewInitiator && c.priorAssignee == t.priorAssignee
              && c.priorStatus == t.priorStatus
  {}

  method CheckPeople(env: Env, t: TaskRow, p: Patch, exiting: bool) returns (refusal: Option<Refusal>)
    ensures refusal == PeopleRefusal(env, t, p, exiting)
  {
    if EntersReview(t, p) {
      if p.reviewer.None? { return Some(NoReviewer); }
      if !ActiveUser(env, p.reviewer.value) { return Some(BadAssignee); }
      var chain := GetSupervisorChainIds(env.chart, t.assignee);
      var pool := (set u | u in chain) + set u | u in env.users && env.users[u].role == Admin && env.users[u].isActive;
      if p.reviewer.value !in pool { return Some(ReviewerNotAllowed); }
    } else if p.assignee.Some? && p.assignee.value.Some? && !exiting {
      var who := p.assignee.value.value;
      if !ActiveUser(env, who) { return Some(BadAssignee); }
      if p.assignee.value != t.assignee && env.assignable.Some? && who !in env.assignable.value {
        return Some(AssigneeNotAllowed);
      }
    }
    refusal := None;
  }

  method CheckDuty(env: Env, t: TaskRow, p: Patch, exiting: bool) returns (refusal: Option<Refusal>)
    ensures refusal == DutyRefusal(env, t, p, exiting)
  {
    var afterDutyId := if p.dutyId.Some? then p.dutyId.value else t.dutyId;
    var dutyChanging := p.dutyId.Some? && p.dutyId.value != t.dutyId;
    if afterDutyId.None? { return None; }
    if dutyChanging && afterDutyId.value !in env.activeDuties { return Some(BadDuty); }
    if dutyChanging || (ChangesAssignee(t, p) && !(EntersReview(t, p) || exiting)) {
      var doer := Doer(t, p);
      if doer.Some? && (doer.value, afterDutyId.value) !in env.holders { return Some(LacksDuty); }
    }
    refusal := None;
  }

  // ----- The rules in the words of the product -----

  /** An ordinary edit sends the task to Review. */
  predicate SendsToReview(t: TaskRow, p: Patch) { p.status == Some(Review) && t.status != Review }

  /** An active administrator, or someone above the present assignee, who is active as well. */
  ghost predicate GoodReviewer(env: Env, t: TaskRow, reviewer: Option<UserId>) {
    && reviewer.Some? && reviewer.value in env.users && env.users[reviewer.value].isActive
    && (env.users[reviewer.value].role == Admin
        || exists b :: t.assignee == Some(b) && IsAbove(env.chart, reviewer.value, b))
  }

  /** The person the task would be with: while it is in Review, the one it goes back to. */
  predicate WouldBeWith(t: TaskRow, p: Patch, u: UserId) {
    var reviewAfter := p.status == Some(Review) || (p.status.None? && t.status == Review);
    if SendsToReview(t, p) then t.assignee == Some(u)
    else if reviewAfter then t.priorAssignee == Some(u) || (t.priorAssignee.None? && t.assignee == Some(u))
    else p.assignee == Some(Some(u)) || (p.assignee.None? && t.assignee == Some(u))
  }

  /**
   A duty stays, or is active; and whoever has the task by then holds it, where duty or person changes by this
   edit.
  */
  ghost predicate DutyIsFine(env: Env, t: TaskRow, p: Patch) {
    var dutyChanges := p.dutyId.Some? && p.dutyId.value != t.dutyId;
    var personChanges := p.assignee.Some? && p.assignee.value != t.assignee && !SendsToReview(t, p);
    forall d :: (p.dutyId == Some(Some(d)) || (p.dutyId.None? && t.dutyId == Some(d))) ==>
      && (dutyChanges ==> d in env.activeDuties)
      && (dutyChanges || personChanges ==> forall u: UserId :: WouldBeWith(t, p, u) ==> (u, d) in env.holders)
  }

  /** What an ordinary edit of this row needs, all of it. */
  ghost predicate EditIsFine(env: Env, t: TaskRow, p: Patch) {
    var personChanges := p.assignee.Some? && p.assignee.value != t.assignee;
    && (p.expectedUpdatedAt.Some? ==> p.expectedUpdatedAt.value == t.updatedAt) && env.level == Some(Full)
    // a finished task keeps its assignee and is not reviewed
    && (t.status in {Completed, Canceled} ==> !personChanges && p.status != Some(Review))
    // one in Review keeps assignee and status
    && (t.status == Review ==> !personChanges && (p.status.None? || p.status == Some(Review)))
    // neither Review nor completion before what blocks it is finished
    && (p.status in {Some(Review), Some(Completed)} ==> forall s :: s in env.predecessors ==>
        s in {Completed, Canceled})
    && (SendsToReview(t, p) ==> GoodReviewer(env, t, p.reviewer))
    // nobody inactive, and nobody the editor may not assign to
    && (!SendsToReview(t, p) && p.assignee.Some? && p.assignee.value.Some? ==>
          var u := p.assignee.value.value;
          u in env.users && env.users[u].isActive
          && (personChanges && env.assignable.Some? ==> u in env.assignable.value))
    && DutyIsFine(env, t, p)
    && (p.alertGroup.Some? && p.alertGroup.value.Some? && p.alertGroup.value != t.alertGroup ==>
          p.alertGroup.value.value in env.groups && env.groups[p.alertGroup.value.value])
    // the dates as they will be
    && !exists a, b :: (p.startAt == Some(Some(a)) || (p.startAt.None? && t.startAt == Some(a)))
                       && (p.dueAt == Some(Some(b)) || (p.dueAt.None? && t.dueAt == Some(b))) && a >= b
  }

  /** An ordinary edit passes its checks exactly when all of that holds. */
  lemma AcceptedWhenFine(env: Env, t: TaskRow, p: Patch)
    ensures Refused(env, t, p, false).None? <==> EditIsFine(env, t, p)
  {
    hide IsAbove;
    LocksAreFine(env, t, p);
    DutiesAreFine(env, t, p);
    hide DutyIsFine, DutyRefusal, LockRefusal;
  }

  lemma LocksAreFine(env: Env, t: TaskRow, p: Patch)
    ensures LockRefusal(t, p, false).None?
            <==> && (t.status in {Completed, Canceled} ==>
                       !(p.assignee.Some? && p.assignee.value != t.assignee) && p.status != Some(Review))
                 && (t.status == Review ==>
                       !(p.assignee.Some? && p.assignee.value != t.assignee)
                         && (p.status.None? || p.status == Some(Review)))
  {}

  lemma DutiesAreFine(env: Env, t: TaskRow, p: Patch)
    ensures DutyRefusal(env, t, p, false).None? <==> DutyIsFine(env, t, p)
  {
    forall u: UserId ensures WouldBeWith(t, p, u) <==> Doer(t, p) == Some(u) {}
  }

  /** Whatever an edit is turned down for is really so. */
  lemma RefusalIsReal(env: Env, t: TaskRow, p: Patch)
    ensures match Refused(env, t, p, false)
            case None => true
            case Some(Stale) => p.expectedUpdatedAt.Some? && p.expectedUpdatedAt.value != t.updatedAt
            case Some(NotFound) => env.level.None?
            case Some(ReadOnly) => env.level.Some? && env.level.value != Full
            case Some(TerminalLock) =>
              t.status in {Completed, Canceled}
              && (p.status == Some(Review) || (p.assignee.Some? && p.assignee.value != t.assignee))
            case Some(ReviewStatusLock) => t.status == Review && p.status.Some? && p.status.value != Review
            case Some(ReviewAssigneeLock) => t.status == Review && p.assignee.Some? && p.assignee.value != t.assignee
            case Some(Blocked) =>
              p.status in {Some(Review), Some(Completed)}
              && exists s :: s in env.predecessors && s !in {Completed, Canceled}
            case Some(NoReviewer) => SendsToReview(t, p) && p.reviewer.None?
            case Some(BadAssignee) =>
              exists u: UserId :: (if SendsToReview(t, p) then p.reviewer == Some(u) else p.assignee == Some(Some(u)))
                                  && (u !in env.users || !env.users[u].isActive)
            case Some(ReviewerNotAllowed) => SendsToReview(t, p) && !GoodReviewer(env, t, p.reviewer)
            case Some(AssigneeNotAllowed) =>
              p.assignee.Some? && p.assignee.value.Some? && env.assignable.Some?
              && p.assignee.value.value !in env.assignable.value
            case Some(BadDuty) => p.dutyId.Some? && p.dutyId.value.Some? && p.dutyId.value.value !in env.activeDuties
            case Some(LacksDuty) => !DutyIsFine(env, t, p)
            case Some(NoSuchGroup) =>
              p.alertGroup.Some? && p.alertGroup.value.Some? && p.alertGroup.value.value !in env.groups
            case Some(InactiveGroup) =>
              p.alertGroup.Some? && p.alertGroup.value.Some? && p.alertGroup.value.value in env.groups
              && !env.groups[p.alertGroup.value.value]
            case Some(StartNotBeforeDue) => (p.startAt.Some? || t.startAt.Some?) && (p.dueAt.Some? || t.dueAt.Some?)
            case Some(_) => false
  {
    hide IsAbove;
    DutiesAreFine(env, t, p);
    hide DutyIsFine;
  }

  /** What an accepted ordinary edit leaves, column by column, when nothing came between. */
  ghost predicate LeavesRow(env: Env, editor: UserId, t: TaskRow, p: Patch, r: TaskRow) {
    && r.status == (if p.status.Some? then p.status.value else t.status)
    && r.assignee == (if SendsToReview(t, p) then p.reviewer else if p.assignee.Some? then p.assignee.value
                      else t.assignee)
    && r.dutyId == (if p.dutyId.Some? then p.dutyId.value else t.dutyId)
    && r.alertGroup == (if p.alertGroup.Some? then p.alertGroup.value else t.alertGroup)
    && r.startAt == (if p.startAt.Some? then p.startAt.value else t.startAt)
    && r.dueAt == (if p.dueAt.Some? then p.dueAt.value else t.dueAt)
    && r.rest == (if p.rest.Some? then p.rest.value else t.rest) && r.updatedAt == env.now
    // the review record is of the editor, the assignee and the status before
    && (SendsToReview(t, p) ==>
          r.reviewInitiator == Some(editor) && r.priorAssignee == t.assignee && r.priorStatus == Some(t.status))
    && (!SendsToReview(t, p) ==>
          r.reviewInitiator == t.reviewInitiator && r.priorAssignee == t.priorAssignee
            && r.priorStatus == t.priorStatus)
  }

  lemma EditLeaves(env: Env, editor: UserId, t: TaskRow, p: Patch)
    ensures LeavesRow(env, editor, t, p, Patched(env, editor, t, p, false))
  {}

  /** What creating a task needs, and the row it makes. */
  lemma CreatedWhenFine(env: Env, who: UserId, dutyId: Option<DutyId>, startAt: Option<Time>, dueAt: Option<Time>)
    ensures CreateRefused(env, who, dutyId, startAt, dueAt).None?
            <==> && who in env.users && env.users[who].isActive
                 && (env.assignable.Some? ==> who in env.assignable.value)
                 && (dutyId.Some? ==> dutyId.value in env.activeDuties && (who, dutyId.value) in env.holders)
                 && (startAt.Some? && dueAt.Some? ==> startAt.value < dueAt.value)
  {}

  lemma CreatedRow(now: Time, assignee: UserId, status: Option<Status>, dutyId: Option<DutyId>,
                   startAt: Option<Time>, dueAt: Option<Time>, rest: string)
    ensures var r := NewRow(now, assignee, status, dutyId, startAt, dueAt, rest);
            && r.status == (if status.Some? then status.value else Open) && r.assignee == Some(assignee)
            && r.reviewInitiator.None? && r.priorAssignee.None? && r.priorStatus.None? && r.alertGroup.None?
            && r.dutyId == dutyId && r.startAt == startAt && r.dueAt == dueAt && r.rest == rest && r.updatedAt == now
  {}

  /**
   The reviewer, an administrator and people above the reviewer end a review; who sent it and who had it recall
   it.
  */
  lemma ExitsInWords(env: Env, actor: Actor, t: TaskRow)
    ensures MayExit(env, actor, t, Reviewed)
            <==> actor.role == Admin || exists a ::
                 t.assignee == Some(a) && (actor.id == a || IsAbove(env.chart, actor.id, a))
    ensures MayExit(env, actor, t, Recall) <==> t.reviewInitiator == Some(actor.id) || t.priorAssignee == Some(actor.id)
  {
    hide IsAbove;
  }

  // ----- Runs of one task -----

  datatype Action =
    // read is the row the edit read and checked
    | Edit(env: Env, actor: Actor, patch: Patch, read: TaskRow)
    // seen is the row the exit read first
    | Exit(env: Env, actor: Actor, via: Via, seen: TaskRow, read: TaskRow)
    // the template's owner edits "this and following": everything but status, assignee and review fields
    | Sync(now: Time, dutyId: Option<DutyId>, startAt: Option<Time>, dueAt: Option<Time>, rest: string)

  ghost predicate Accepted(t: TaskRow, a: Action) {
    match a
    case Edit(env, actor, p, read) => Refused(env, read, p, false).None?
    case Exit(env, actor, via, seen, read) =>
      seen.status == Review && MayExit(env, actor, seen, via) && Refused(env, read, ExitPatch(seen), true).None?
    case Sync(_, _, _, _, _) => !Terminal(t.status)
  }

  ghost function Next(t: TaskRow, a: Action): TaskRow {
    if !Accepted(t, a) then t
    else match a
      case Edit(env, actor, p, read) => Written(env, actor.id, read, t, p, false)
      case Exit(env, actor, via, seen, read) => Written(env, actor.id, read, t, ExitPatch(seen), true)
      case Sync(now, dutyId, startAt, dueAt, rest) =>
        t.(dutyId := dutyId, startAt := startAt, dueAt := dueAt, rest := rest, updatedAt := now)
  }

  ghost function After(t: TaskRow, run: seq<Action>): TaskRow {
    if run == [] then t else Next(After(t, run[..|run| - 1]), run[|run| - 1])
  }

  /** A row out of Review holds no review fields; one in Review holds all of them, or, if it was created there, none. */
  predicate Remembers(t: TaskRow) {
    if t.status == Review && t.priorStatus.Some? then
      t.reviewInitiator.Some? && t.priorStatus.value != Review && !Terminal(t.priorStatus.value)
    else t.reviewInitiator.None? && t.priorAssignee.None? && t.priorStatus.None?
  }

  /** What no ordinary write touches while a task is in Review. */
  ghost predicate SameReview(a: TaskRow, b: TaskRow) {
    && a.status == b.status && a.assignee == b.assignee
    && a.reviewInitiator == b.reviewInitiator && a.priorAssignee == b.priorAssignee && a.priorStatus == b.priorStatus
  }

  /** Since the row was read its status, assignee and review fields are as they were; other columns may have changed. */
  ghost predicate InTime(t: TaskRow, a: Action) {
    !a.Sync? ==> SameReview(a.read, t)
  }

  /** No edit is overtaken in what the locks look at, and exits first saw a row some task really had. */
  ghost predicate Plausible(t: TaskRow, run: seq<Action>) {
    forall i :: 0 <= i < |run| ==> InTime(After(t, run[..i]), run[i]) && (run[i].Exit? ==> Remembers(run[i].seen))
  }

  lemma PlausibleInit(t: TaskRow, run: seq<Action>)
    requires Plausible(t, run) && run != []
    ensures Plausible(t, run[..|run| - 1])
    ensures InTime(After(t, run[..|run| - 1]), run[|run| - 1])
            && (run[|run| - 1].Exit? ==> Remembers(run[|run| - 1].seen))
  {
    hide After, InTime, Remembers;
    var init := run[..|run| - 1];
    forall i | 0 <= i < |init|
      ensures InTime(After(t, init[..i]), init[i]) && (init[i].Exit? ==> Remembers(init[i].seen)) {
      assert init[..i] == run[..i];
    }
  }

  lemma EditRemembers(env: Env, actorId: UserId, read: TaskRow, t: TaskRow, p: Patch, exiting: bool)
    requires Remembers(t) && SameReview(read, t) && Refused(env, read, p, exiting).None?
    requires exiting ==> exists seen: TaskRow :: Remembers(seen) && p == ExitPatch(seen)
    ensures Remembers(Written(env, actorId, read, t, p, exiting))
  {}

  lemma StepRemembers(t: TaskRow, a: Action)
    requires Remembers(t) && InTime(t, a) && (a.Exit? ==> Remembers(a.seen))
    ensures Remembers(Next(t, a))
  {
    if Accepted(t, a) {
      match a
      case Edit(env, actor, p, read) => EditRemembers(env, actor.id, read, t, p, false);
      case Exit(env, actor, via, seen, read) => EditRemembers(env, actor.id, read, t, ExitPatch(seen), true);
      case Sync(_, _, _, _, _) =>
    }
  }

  lemma {:induction false} RunRemembers(t: TaskRow, run: seq<Action>)
    requires Remembers(t) && Plausible(t, run)
    ensures Remembers(After(t, run))
  {
    hide Next, Remembers, InTime;
    if run != [] {
      PlausibleInit(t, run);
      RunRemembers(t, run[..|run| - 1]);
      StepRemembers(After(t, run[..|run| - 1]), run[|run| - 1]);
    }
  }

  /** A step from Review either leaves it, by an exit, or freezes all of it. */
  lemma FrozenUnlessExit(t: TaskRow, a: Action)
    requires t.status == Review && InTime(t, a) && (a.Exit? ==> Remembers(a.seen))
    ensures if a.Exit? && Accepted(t, a) then Next(t, a).status != Review else SameReview(t, Next(t, a))
  {}

  /** The only way into Review is an edit of an open task that names a permitted reviewer. */
  lemma EntryRecords(t: TaskRow, a: Action)
    requires Remembers(t) && t.status != Review && Next(t, a).status == Review && InTime(t, a)
             && (a.Exit? ==> Remembers(a.seen))
    ensures a.Edit? && !Terminal(t.status) && a.patch.reviewer.Some?
    ensures PredecessorsDone(a.env) && ActiveUser(a.env, a.patch.reviewer.value)
    ensures MayReview(a.env, t.assignee, a.patch.reviewer.value)
    ensures Next(t, a).assignee == a.patch.reviewer && Next(t, a).reviewInitiator == Some(a.actor.id)
    ensures Next(t, a).priorAssignee == t.assignee && Next(t, a).priorStatus == Some(t.status)
  {}

  /** Whatever else happened, a task in Review is just as it went in at one moment, and holds what it was before. */
  ghost predicate InReviewSince(t0: TaskRow, run: seq<Action>, k: nat) {
    && k < |run| && After(t0, run[..k]).status != Review
    && forall j :: k < j <= |run| ==> SameReview(After(t0, run[..j]), After(t0, run[..k + 1]))
  }

  /**
   In every run of a task that was not created in Review: when it is in Review, there was a last moment
   it was not; from the step after it, status, assignee and review fields have not moved, and they hold
   the assignee and status of that moment, which was not a terminal one.
   */
  /**
   A task becomes Completed only by an edit that asks for it, accepted while every task that blocks it was
   Completed or Canceled.
  */
  lemma CompletionNeedsPredecessors(t: TaskRow, a: Action)
    requires t.status != Completed && Next(t, a).status == Completed && (a.Exit? ==> Remembers(a.seen))
    ensures a.Edit? && a.patch.status == Some(Completed) && Accepted(t, a)
    ensures forall s :: s in a.env.predecessors ==> s in {Completed, Canceled}
  {}

  /** An edit to Completed or to Review is never accepted while some task that blocks it is unfinished. */
  lemma BlockedIsNeverAccepted(t: TaskRow, a: Action, s: Status)
    requires a.Edit? && a.patch.status in {Some(Completed), Some(Review)}
    requires s in a.env.predecessors && s !in {Completed, Canceled}
    ensures !Accepted(t, a) && Next(t, a) == t
  {}

  /** So in every run a task that is Completed and was not before was completed by such an edit, and stayed so since. */
  lemma {:induction false} CompletedByAnEdit(t0: TaskRow, run: seq<Action>) returns (k: nat)
    requires t0.status != Completed && After(t0, run).status == Completed
    requires forall i :: 0 <= i < |run| && run[i].Exit? ==> Remembers(run[i].seen)
    ensures k < |run| && run[k].Edit? && run[k].patch.status == Some(Completed) && Accepted(After(t0, run[..k]), run[k])
    ensures forall s :: s in run[k].env.predecessors ==> s in {Completed, Canceled}
    ensures forall j :: k < j <= |run| ==> After(t0, run[..j]).status == Completed
  {
    hide Accepted, Next;
    var n := |run| - 1;
    assert run[..|run|] == run;
    if After(t0, run[..n]).status == Completed {
      k := CompletedByAnEdit(t0, run[..n]);
      forall j | 0 <= j <= n ensures run[..n][..j] == run[..j] {}
      forall j | k < j <= |run| ensures After(t0, run[..j]).status == Completed {
        if j <= n { assert After(t0, run[..n][..j]).status == Completed; }
      }
    } else {
      k := n;
      CompletionNeedsPredecessors(After(t0, run[..n]), run[n]);
    }
  }

  lemma {:induction false} ReviewIsRemembered(t0: TaskRow, run: seq<Action>) returns (k: nat)
    requires Remembers(t0) && t0.status != Review && Plausible(t0, run) && After(t0, run).status == Review
    ensures InReviewSince(t0, run, k)
    ensures var entry := After(t0, run[..k]);
            !Terminal(entry.status) && After(t0, run).priorAssignee == entry.assignee
              && After(t0, run).priorStatus == Some(entry.status)
  {
    hide Accepted, Next, Remembers, Terminal, InTime;
    var init, last := run[..|run| - 1], run[|run| - 1];
    var t := After(t0, init);
    PlausibleInit(t0, run);
    RunRemembers(t0, init);
    if t.status != Review {
      k := |init|;
      EntryRecords(t, last);
      assert run[..k] == init && run[..k + 1] == run;
    } else {
      k := ReviewIsRemembered(t0, init);
      FrozenUnlessExit(t, last);
      assert run[..k] == init[..k] && run[..k + 1] == init[..k + 1];
      forall j | k < j <= |run| ensures SameReview(After(t0, run[..j]), After(t0, run[..k + 1])) {
        if j < |run| { assert run[..j] == init[..j]; } else { assert run[..j] == run; assert init[..|init|] == init; }
      }
    }
  }

  /**
   An exit is turned down only for want of standing or for dates out of order; no blocker or lock can hold a
   task in Review.
  */
  lemma ExitGoesThrough(t: TaskRow, env: Env, actor: Actor, via: Via)
    requires Remembers(t) && t.status == Review
    ensures Accepted(t, Exit(env, actor, via, t, t)) <==> MayExit(env, actor, t, via) && InOrder(t.startAt, t.dueAt)
  {}

  /** Every edit reads the row it writes. */
  ghost predicate InOneStep(t: TaskRow, a: Action) {
    !a.Sync? ==> a.read == t && (a.Exit? ==> a.seen == t)
  }

  ghost predicate AllInOneStep(t: TaskRow, run: seq<Action>) {
    forall i :: 0 <= i < |run| ==> InOneStep(After(t, run[..i]), run[i])
  }

  /** The last step that changed anything saved a template whose dates for this task are out of order. */
  ghost predicate LastSaveDisorders(t: TaskRow, run: seq<Action>, i: nat) {
    && i < |run| && run[i].Sync? && Accepted(After(t, run[..i]), run[i]) && !InOrder(run[i].startAt, run[i].dueAt)
    && forall j :: i < j < |run| ==> !Accepted(After(t, run[..j]), run[j])
  }

  /** No step of the run changed anything. */
  ghost predicate NothingAccepted(t: TaskRow, run: seq<Action>) {
    forall j :: 0 <= j < |run| ==> !Accepted(After(t, run[..j]), run[j])
  }

  /** Out of order from the start and never changed since, or by the last step that changed anything. */
  ghost predicate StillDisordered(t: TaskRow, run: seq<Action>) {
    || (!InOrder(t.startAt, t.dueAt) && NothingAccepted(t, run))
    || exists i: nat :: LastSaveDisorders(t, run, i)
  }

  /** Dates come out of order only by saving a template, and stay so only while every edit is turned down. */
  lemma {:induction false} OutOfOrderIff(t0: TaskRow, run: seq<Action>)
    requires AllInOneStep(t0, run)
    ensures !InOrder(After(t0, run).startAt, After(t0, run).dueAt) <==> StillDisordered(t0, run)
  {
    hide Accepted, Next, InOrder, InOneStep;
    if run != [] {
      hide LastSaveDisorders, NothingAccepted;
      var n := |run| - 1;
      forall j | 0 <= j < n ensures InOneStep(After(t0, run[..n][..j]), run[j]) { assert run[..n][..j] == run[..j]; }
      OutOfOrderIff(t0, run[..n]);
      DatesAfterStep(After(t0, run[..n]), run[n]);
      DisorderAfterStep(t0, run, n);
    }
  }

  lemma DisorderAfterStep(t0: TaskRow, run: seq<Action>, n: nat)
    requires n + 1 == |run|
    ensures NothingAccepted(t0, run)
            <==> NothingAccepted(t0, run[..n]) && !Accepted(After(t0, run[..n]), run[n])
    ensures (exists i: nat :: LastSaveDisorders(t0, run, i))
            <==> if Accepted(After(t0, run[..n]), run[n]) then run[n].Sync? && !InOrder(run[n].startAt, run[n].dueAt)
                 else exists i: nat :: LastSaveDisorders(t0, run[..n], i)
  {
    hide Accepted, After, InOrder;
    forall j | 0 <= j <= n ensures run[..n][..j] == run[..j] {}
    if Accepted(After(t0, run[..n]), run[n]) {
      if run[n].Sync? && !InOrder(run[n].startAt, run[n].dueAt) { assert LastSaveDisorders(t0, run, n); }
    } else {
      forall i: nat ensures LastSaveDisorders(t0, run, i) <==> LastSaveDisorders(t0, run[..n], i) {}
    }
  }

  lemma DatesAfterStep(t: TaskRow, a: Action)
    requires InOneStep(t, a)
    ensures !Accepted(t, a) ==> Next(t, a) == t
    ensures Accepted(t, a) ==>
            (InOrder(Next(t, a).startAt, Next(t, a).dueAt) <==> a.Sync? ==> InOrder(a.startAt, a.dueAt))
  {}

  /**
   A review that cannot be ended: someone who may leave Review is turned down exactly when the last step that
   changed anything saved a template that starts the task no earlier than it is due, or when it was made so and
   nothing has changed it since.
   */
  lemma ReviewCannotEndIff(t0: TaskRow, run: seq<Action>, env: Env, actor: Actor, via: Via)
    requires Remembers(t0) && Plausible(t0, run) && AllInOneStep(t0, run)
    requires After(t0, run).status == Review && MayExit(env, actor, After(t0, run), via)
    ensures var t := After(t0, run);
            !Accepted(t, Exit(env, actor, via, t, t)) <==> StillDisordered(t0, run)
  {
    hide Accepted, Next, MayExit, StillDisordered;
    RunRemembers(t0, run);
    OutOfOrderIff(t0, run);
    ExitGoesThrough(After(t0, run), env, actor, via);
  }

  /**
   The end of every review, however late the exit's own two readings are by the time it writes: it puts back
   the assignee and the non-terminal status of the last moment before Review and clears the review fields,
   exactly when the row it first saw holds the same prior assignee and status as the row it writes, and the
   row it checked was in Review.
   */
  lemma ExitRestores(t0: TaskRow, run: seq<Action>, exit: Action) returns (k: nat)
    requires Remembers(t0) && t0.status != Review && Plausible(t0, run) && After(t0, run).status == Review
    requires exit.Exit? && Remembers(exit.seen) && Accepted(After(t0, run), exit)
    ensures InReviewSince(t0, run, k) && !Terminal(After(t0, run[..k]).status)
    ensures var entry, row, left := After(t0, run[..k]), After(t0, run), Next(After(t0, run), exit);
            && left.assignee == entry.assignee && left.status == entry.status
            && left.reviewInitiator.None? && left.priorAssignee.None? && left.priorStatus.None?
            <==>
            && exit.read.status == Review && exit.seen.priorAssignee == row.priorAssignee
            && (exit.seen.priorStatus == row.priorStatus || (exit.seen.priorStatus.None? && entry.status == Open))
  {
    hide Refused, MayExit;
    RunRemembers(t0, run);
    k := ReviewIsRemembered(t0, run);
  }

  /** An exit that nothing overtook always restores. */
  lemma ExitInOneStepRestores(t0: TaskRow, run: seq<Action>, exit: Action) returns (k: nat)
    requires Remembers(t0) && t0.status != Review && Plausible(t0, run) && After(t0, run).status == Review
    requires exit.Exit? && exit.seen == exit.read == After(t0, run) && Accepted(After(t0, run), exit)
    ensures InReviewSince(t0, run, k)
    ensures var entry, left := After(t0, run[..k]), Next(After(t0, run), exit);
            left.assignee == entry.assignee && left.status == entry.status
  {
    hide Refused, MayExit;
    RunRemembers(t0, run);
    k := ExitRestores(t0, run, exit);
  }

  /** A task created in Review has nothing to go back to: it leaves as Open with nobody assigned. */
  lemma {:induction false} CreatedInReviewLeavesUnassigned(t0: TaskRow, run: seq<Action>, exit: Action)
    requires t0.status == Review && Remembers(t0) && t0.priorStatus.None?
    requires Plausible(t0, run) && forall i :: 0 <= i < |run| && run[i].Exit? ==> !Accepted(After(t0, run[..i]), run[i])
    requires exit.Exit? && exit.seen == exit.read == After(t0, run) && Accepted(After(t0, run), exit)
    ensures Next(After(t0, run), exit).status == Open && Next(After(t0, run), exit).assignee.None?
  {
    hide Refused, MayExit;
    StillAsCreated(t0, run);
  }

  lemma {:induction false} StillAsCreated(t0: TaskRow, run: seq<Action>)
    requires t0.status == Review && Plausible(t0, run)
    requires forall i :: 0 <= i < |run| && run[i].Exit? ==> !Accepted(After(t0, run[..i]), run[i])
    ensures SameReview(t0, After(t0, run))
  {
    hide Accepted, Next, InTime;
    if run != [] {
      var init := run[..|run| - 1];
      PlausibleInit(t0, run);
      forall i | 0 <= i < |init| && init[i].Exit? ensures !Accepted(After(t0, init[..i]), init[i]) {
        assert init[..i] == run[..i];
      }
      StillAsCreated(t0, init);
      FrozenUnlessExit(After(t0, init), run[|run| - 1]);
    }
  }

  /** The assignee of a finished task cannot change, whoever edits it. */
  lemma TerminalAssigneeStays(t: TaskRow, a: Action)
    requires Terminal(t.status) && Terminal(Next(t, a).status) && InTime(t, a) && (a.Exit? ==> Remembers(a.seen))
    ensures Next(t, a).assignee == t.assignee
  {}

  lemma {:induction false} FinishedTaskKeepsAssignee(t: TaskRow, run: seq<Action>)
    requires Plausible(t, run) && forall j :: 0 <= j <= |run| ==> Terminal(After(t, run[..j]).status)
    ensures After(t, run).assignee == t.assignee
  {
    hide Accepted, Next, Terminal, Remembers, InTime;
    if run != [] {
      var init := run[..|run| - 1];
      PlausibleInit(t, run);
      forall j | 0 <= j <= |init| ensures Terminal(After(t, init[..j]).status) { assert init[..j] == run[..j]; }
      FinishedTaskKeepsAssignee(t, init);
      assert run[..|run|] == run && init[..|init|] == init;
      TerminalAssigneeStays(After(t, init), run[|run| - 1]);
    }
  }

  /**
   Without exits overtaken by other writes, a finished task's assignee changes only after a step that reopens
   it, and that step keeps it.
  */
  lemma ReopeningKeepsAssignee(t: TaskRow, a: Action)
    requires Terminal(t.status) && InTime(t, a) && (a.Exit? ==> a.seen == t)
    ensures Next(t, a).assignee == t.assignee
  {}

  /**
   Whatever it checked, an exit that first saw the row in Review writes straight over a finished task, reopening
   it for someone else.
  */
  lemma OvertakenExit(t: TaskRow, exit: Action)
    requires Terminal(t.status) && exit.Exit? && Remembers(exit.seen) && Accepted(t, exit)
    ensures !Terminal(Next(t, exit).status) && Next(t, exit).status != Review
            && Next(t, exit).assignee == exit.seen.priorAssignee
  {}

  /** It is accepted with the row as it is, finished, and with the row as it was, in Review. */
  lemma OvertakenExitIsAccepted(env: Env, actor: Actor, t: TaskRow, seen: TaskRow, read: TaskRow, via: Via)
    requires seen.status == Review && Remembers(seen) && MayExit(env, actor, seen, via)
             && InOrder(read.startAt, read.dueAt)
    ensures Accepted(t, Exit(env, actor, via, seen, read))
  {}

  /** A task sent to Review by 1 for 2 to look at, and as it was before. */
  const IN_REVIEW: TaskRow := TaskRow(Review, Some(2), Some(1), Some(3), Some(Open), None, None, None, None, "", 1)

  const BEFORE_REVIEW: TaskRow := TaskRow(Open, Some(3), None, None, None, None, None, None, None, "", 0)

  const QUIET: Env := Env(2, map[], map[], Some(Full), None, [], {}, {}, map[])

  /**
   Recalled between the exit's two readings, and sent to Review again before it writes: the exit restores
   assignee and status and leaves the whole review record behind.
   */
  lemma AnExitThatLeavesTheRecord()
    ensures var exit := Exit(QUIET, Actor(2, Admin), Reviewed, IN_REVIEW, BEFORE_REVIEW);
            && Accepted(IN_REVIEW, exit) && SameReview(exit.seen, IN_REVIEW)
            && var left := Next(IN_REVIEW, exit);
               left.assignee == BEFORE_REVIEW.assignee && left.status == BEFORE_REVIEW.status
               && left.reviewInitiator == Some(1) && left.priorAssignee == Some(3) && left.priorStatus == Some(Open)
                  && !Remembers(left)
  {}

  const ASKING: Env := QUIET.(now := 1, users := map[2 := User(Admin, true)])

  const TO_REVIEW: Patch := Patch(None, Some(Review), None, Some(2), None, None, None, None, None)

  /** The task goes to 2 for review, and then its template is saved with the start behind the due date. */
  const DISORDERED: seq<Action> :=
    [Edit(ASKING, Actor(1, Admin), TO_REVIEW, BEFORE_REVIEW), Sync(2, None, Some(20), Some(10), "")]

  /** From then on neither the reviewer nor the one who sent it can take it out of Review. */
  lemma ASaveThatHoldsAReview()
    ensures Plausible(BEFORE_REVIEW, DISORDERED) && AllInOneStep(BEFORE_REVIEW, DISORDERED)
    ensures var t := After(BEFORE_REVIEW, DISORDERED);
            && t.status == Review && t.assignee == Some(2) && t.reviewInitiator == Some(1)
            && !Accepted(t, Exit(QUIET, Actor(2, Admin), Reviewed, t, t))
            && !Accepted(t, Exit(QUIET, Actor(1, Admin), Recall, t, t))
  {
    var first := DISORDERED[..1];
    assert DISORDERED[..0] == first[..0] == [];
    assert After(BEFORE_REVIEW, first) == Next(BEFORE_REVIEW, DISORDERED[0]);
    var sent := BEFORE_REVIEW.(status := Review, assignee := Some(2), reviewInitiator := Some(1),
                               priorAssignee := Some(3), priorStatus := Some(Open), updatedAt := 1);
    assert Next(BEFORE_REVIEW, DISORDERED[0]) == sent;
    assert After(BEFORE_REVIEW, DISORDERED) == Next(sent, DISORDERED[1]);
  }

  // ----- Edits that were overtaken -----

  /** An edit by someone with full access that drops the dates and does no more. */
  function PlainEdit(read: TaskRow, status: Option<Status>, assignee: Option<Option<UserId>>): Action {
    var users := if assignee.Some? && assignee.value.Some? then map[assignee.value.value := User(Member, true)]
        else map[];
    var holders := if assignee.Some? && assignee.value.Some? && read.dutyId.Some? then
        {(assignee.value.value, read.dutyId.value)} else {};
    Edit(Env(0, users, map[], Some(Full), None, [], {}, holders, map[]), Actor(0, Admin),
         Patch(None, status, assignee, None, None, None, Some(None), Some(None), None), read)
  }

  /** Naming the assignee that was read is always allowed. */
  lemma NamingTheAssigneeRead(read: TaskRow, t: TaskRow)
    ensures var a := PlainEdit(read, None, Some(read.assignee));
            Accepted(t, a) && Next(t, a).assignee == read.assignee && Next(t, a).status == t.status
  {}

  /** Out of Review the status may be set to On Hold. */
  lemma PuttingOnHold(read: TaskRow, t: TaskRow)
    requires read.status != Review
    ensures var a := PlainEdit(read, Some(OnHold), None); Accepted(t, a) && Next(t, a).status == OnHold
  {}

  /** An open row may be given to anyone who holds its duty. */
  lemma HandingOver(read: TaskRow, t: TaskRow, u: UserId)
    requires !Terminal(read.status) && read.status != Review
    ensures var a := PlainEdit(read, None, Some(Some(u)));
            Accepted(t, a) && Next(t, a).assignee == Some(u) && Next(t, a).status == t.status
  {}

  /** Whatever edit passes the checks on what was read, a row now in Review stays as it is. */
  ghost predicate ReadProtectsReview(read: TaskRow, t: TaskRow) {
    forall a: Action :: a.Edit? && a.read == read && Accepted(t, a) ==> SameReview(t, Next(t, a))
  }

  /** It does exactly when the row was in Review, with the same assignee, when it was read. */
  lemma ReadProtectsReviewIff(read: TaskRow, t: TaskRow)
    requires t.status == Review
    ensures ReadProtectsReview(read, t) <==> read.status == Review && read.assignee == t.assignee
  {
    if read.status == Review && read.assignee == t.assignee {
      forall a: Action | a.Edit? && a.read == read && Accepted(t, a) ensures SameReview(t, Next(t, a)) {}
    } else if read.status == Review {
      hide Next, Accepted;
      NamingTheAssigneeRead(read, t);
      assert !SameReview(t, Next(t, PlainEdit(read, None, Some(read.assignee))));
    } else {
      hide Next, Accepted;
      PuttingOnHold(read, t);
      assert !SameReview(t, Next(t, PlainEdit(read, Some(OnHold), None)));
    }
  }

  /** Whatever edit passes the checks on what was read, a finished row that stays finished keeps its assignee. */
  ghost predicate ReadProtectsFinished(read: TaskRow, t: TaskRow) {
    forall a: Action :: a.Edit? && a.read == read && Accepted(t, a) && Terminal(Next(t, a).status) ==>
      Next(t, a).assignee == t.assignee
  }

  /**
   It does exactly when the row was locked, by Review or by being finished, with the same assignee, when it was
   read.
  */
  lemma ReadProtectsFinishedIff(read: TaskRow, t: TaskRow)
    requires Terminal(t.status)
    ensures ReadProtectsFinished(read, t)
            <==> (Terminal(read.status) || read.status == Review) && read.assignee == t.assignee
  {
    if (Terminal(read.status) || read.status == Review) && read.assignee == t.assignee {
      forall a: Action | a.Edit? && a.read == read && Accepted(t, a) && Terminal(Next(t, a).status)
        ensures Next(t, a).assignee == t.assignee {}
    } else if Terminal(read.status) || read.status == Review {
      hide Next, Accepted;
      NamingTheAssigneeRead(read, t);
      assert Next(t, PlainEdit(read, None, Some(read.assignee))).assignee != t.assignee;
    } else {
      hide Next, Accepted;
      var u := if t.assignee == Some(0) then 1 else 0;
      HandingOver(read, t, u);
      assert Next(t, PlainEdit(read, None, Some(Some(u)))).assignee != t.assignee;
    }
  }

  /**
   An edit that read an open row and writes after it entered Review takes it out again, with the review record
   left behind.
  */
  lemma OvertakenEdit(read: TaskRow, t: TaskRow)
    requires t.status == Review && t.priorStatus.Some? && !Terminal(read.status) && read.status != Review
    ensures var a := PlainEdit(read, Some(OnHold), None);
            Accepted(t, a) && Next(t, a).status == OnHold && Next(t, a).assignee == t.assignee && !Remembers(Next(t, a))
  {}
}
