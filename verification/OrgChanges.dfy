/**
 Staged edits of who reports to whom and who holds which duty, saved as one batch. The service only
 walks upward from the people being moved; the lemmas here show why that is enough. It checks on what it
 has read and writes in a later transaction, without a lock; so two batches may pass their checks side by
 side and close a loop together, and the last part says just when that happens.
 */
module OrgChanges {
  import opened Wrappers
  import opened Entities
  import opened Graphs
  import opened OrgChart
  import opened TaskAccess

  datatype Person = Person(role: Role, isActive: bool, supervisor: Option<UserId>)

  type People = map<UserId, Person>

  datatype Move = Move(userId: UserId, supervisorId: Option<UserId>, expectedSupervisorId: Option<UserId>)

  datatype DutyChange = DutyChange(userId: UserId, add: set<DutyId>, remove: set<DutyId>)

  datatype Refusal =
    | NotAllowed | NoSuchPerson | NotYourReport | Stale | TopLevelIsAdminOnly
    | OwnSupervisor | NoSuchSupervisor | NotASupervisor | OutsideTeam | WouldLoop
    | BadDuty | DutyNeeded

  function ChartOf(people: People): (chart: Chart)
    ensures chart.Keys == people.Keys && forall u :: u in people ==> chart[u] == people[u].supervisor
  {
    map u | u in people :: people[u].supervisor
  }

  /** Why someone may not be changed at all. manageable is None for an admin. */
  function CheckPerson(people: People, manageable: Option<set<UserId>>, u: UserId): Option<Refusal> {
    if u !in people || !people[u].isActive then Some(NoSuchPerson)
    else if manageable.Some? && u !in manageable.value then Some(NotYourReport)
    else None
  }

  /** Why one staged move is refused, if it is. */
  function CheckMove(people: People, actorId: UserId, manageable: Option<set<UserId>>, c: Move): Option<Refusal> {
    if CheckPerson(people, manageable, c.userId).Some? then CheckPerson(people, manageable, c.userId)
    else if people[c.userId].supervisor != c.expectedSupervisorId then Some(Stale)
    else if c.supervisorId.None? then (if manageable.Some? then Some(TopLevelIsAdminOnly) else None)
    else
      var sup := c.supervisorId.value;
      if sup == c.userId then Some(OwnSupervisor)
      else if sup !in people || !people[sup].isActive then Some(NoSuchSupervisor)
      else if people[sup].role == Member then Some(NotASupervisor)
      else if manageable.Some? && sup != actorId && sup !in manageable.value then Some(OutsideTeam)
      else None
  }

  function FirstRefusal(people: People, actorId: UserId, manageable: Option<set<UserId>>,
                        moves: seq<Move>): (r: Option<Refusal>)
    ensures r.None? <==> forall c :: c in moves ==> CheckMove(people, actorId, manageable, c).None?
  {
    if moves == [] then None
    else
      var r := CheckMove(people, actorId, manageable, moves[0]);
      assert forall c :: c in moves <==> c == moves[0] || c in moves[1..];
      if r.Some? then r else FirstRefusal(people, actorId, manageable, moves[1..])
  }

  // ----- Duties -----

  /** Changes that change nothing are dropped before anything is checked. */
  function Effective(changes: seq<DutyChange>): (r: seq<DutyChange>)
    ensures forall c :: c in r <==> c in changes && c.add + c.remove != {}
  {
    if changes == [] then []
    else
      var init, last := changes[..|changes| - 1], changes[|changes| - 1];
      assert changes == init + [last];
      if last.add + last.remove == {} then Effective(init) else Effective(init) + [last]
  }

  function FirstPersonRefusal(people: People, manageable: Option<set<UserId>>,
                              changes: seq<DutyChange>): (r: Option<Refusal>)
    ensures r.None? <==> forall c :: c in changes ==> CheckPerson(people, manageable, c.userId).None?
  {
    if changes == [] then None
    else
      assert forall c :: c in changes <==> c == changes[0] || c in changes[1..];
      var r := CheckPerson(people, manageable, changes[0].userId);
      if r.Some? then r else FirstPersonRefusal(people, manageable, changes[1..])
  }

  predicate AddsInactive(changes: seq<DutyChange>, active: set<DutyId>) {
    exists c :: c in changes && !(c.add <= active)
  }

  /** A duty that a role the person fills on Alert Task Setup needs may not be taken away. */
  predicate RemovesNeeded(changes: seq<DutyChange>, needed: set<(UserId, DutyId)>) {
    exists c :: c in changes && exists d :: d in c.remove && (c.userId, d) in needed
  }

  function DutyRefusal(people: People, manageable: Option<set<UserId>>, changes: seq<DutyChange>,
                       active: set<DutyId>, needed: set<(UserId, DutyId)>): Option<Refusal> {
    if FirstPersonRefusal(people, manageable, changes).Some? then FirstPersonRefusal(people, manageable, changes)
    else if AddsInactive(changes, active) then Some(BadDuty)
    else if RemovesNeeded(changes, needed) then Some(DutyNeeded)
    else None
  }

  method CheckDuties(people: People, manageable: Option<set<UserId>>, changes: seq<DutyChange>,
                     active: set<DutyId>, needed: set<(UserId, DutyId)>) returns (r: Option<Refusal>)
    ensures r == DutyRefusal(people, manageable, changes, active, needed)
  {
    var i := 0;
    while i < |changes|
      invariant 0 <= i <= |changes|
      invariant FirstPersonRefusal(people, manageable, changes) == FirstPersonRefusal(people, manageable, changes[i..])
    {
      assert changes[i..][0] == changes[i] && changes[i..][1..] == changes[i + 1..];
      var refusal := CheckPerson(people, manageable, changes[i].userId);
      if refusal.Some? { return refusal; }
      i := i + 1;
    }
    if AddsInactive(changes, active) { return Some(BadDuty); }
    r := if RemovesNeeded(changes, needed) then Some(DutyNeeded) else None;
  }

  /** Who holds what after the changes, one after the other: removals first, then additions. */
  function Given(holders: set<(UserId, DutyId)>, changes: seq<DutyChange>): set<(UserId, DutyId)> {
    if changes == [] then holders
    else GiveOne(Given(holders, changes[..|changes| - 1]), changes[|changes| - 1])
  }

  function GiveOne(holders: set<(UserId, DutyId)>, c: DutyChange): (r: set<(UserId, DutyId)>)
    ensures forall u, d ::
              (u, d) in r
              <==> (u == c.userId && d in c.add) || ((u, d) in holders && !(u == c.userId && d in c.remove))
  {
    var added := set d | d in c.add :: (c.userId, d);
    assert forall u, d :: (u, d) in added <==> u == c.userId && d in c.add;
    (set h | h in holders && !(h.0 == c.userId && h.1 in c.remove)) + added
  }

  /** The last change that names the duty for this person. */
  ghost predicate Names(changes: seq<DutyChange>, u: UserId, d: DutyId, i: nat) {
    && i < |changes| && changes[i].userId == u && d in changes[i].add + changes[i].remove
    && forall j :: i < j < |changes| && changes[j].userId == u ==> d !in changes[j].add + changes[j].remove
  }

  /** Someone holds a duty afterwards if the last change that names it adds it, or if none does and they held it. */
  lemma {:induction false} GivenMeans(holders: set<(UserId, DutyId)>, changes: seq<DutyChange>, u: UserId, d: DutyId)
    ensures (u, d) in Given(holders, changes) <==>
            if exists i: nat :: Names(changes, u, d, i) then
              exists i: nat :: Names(changes, u, d, i) && d in changes[i].add
            else (u, d) in holders
    decreases |changes|
  {
    if changes != [] {
      var n := |changes| - 1;
      var init, last := changes[..n], changes[n];
      GivenMeans(holders, init, u, d);
      if last.userId == u && d in last.add + last.remove {
        assert Names(changes, u, d, n);
        forall i: nat | Names(changes, u, d, i) ensures i == n {}
      } else {
        forall i: nat ensures Names(changes, u, d, i) <==> Names(init, u, d, i) {
          if Names(init, u, d, i) {
            forall j | i < j < |changes| && changes[j].userId == u ensures d !in changes[j].add + changes[j].remove {
              if j < n { assert init[j] == changes[j]; }
            }
          }
        }
      }
    }
  }

  // ----- The staged chart -----

  /** The chart after the moves, later ones winning. */
  function Moved(chart: Chart, moves: seq<Move>): Chart {
    if moves == [] then chart
    else Moved(chart, moves[..|moves| - 1])[moves[|moves| - 1].userId := moves[|moves| - 1].supervisorId]
  }

  ghost function MovedIds(moves: seq<Move>): (s: set<UserId>)
    ensures forall u :: u in s <==> exists c :: c in moves && c.userId == u
  {
    var s := set c | c in moves :: c.userId;
    s
  }

  /** Each moved person ends under the supervisor of one of their moves; nobody else changes. */
  lemma {:induction false} MovedMeans(chart: Chart, moves: seq<Move>)
    requires forall c :: c in moves ==> c.userId in chart
    ensures var f := Moved(chart, moves);
            && f.Keys == chart.Keys
            && (forall u :: u in chart && u !in MovedIds(moves) ==> f[u] == chart[u])
            && (forall u :: u in MovedIds(moves) ==> exists c :: c in moves && c.userId == u && f[u] == c.supervisorId)
    decreases |moves|
  {
    if moves != [] {
      var init, last := moves[..|moves| - 1], moves[|moves| - 1];
      assert moves == init + [last];
      MovedMeans(chart, init);
      var g, f := Moved(chart, init), Moved(chart, moves);
      forall u | u in MovedIds(moves) ensures exists c :: c in moves && c.userId == u && f[u] == c.supervisorId {
        if u != last.userId {
          var c' :| c' in moves && c'.userId == u;
          assert c' in init && u in MovedIds(init);
          var c :| c in init && c.userId == u && g[u] == c.supervisorId;
          assert c in moves;
        }
      }
      forall u | u in chart && u !in MovedIds(moves) ensures f[u] == chart[u] {
        assert last in moves;
        assert forall c :: c in init ==> c in moves;
      }
    }
  }

  // ----- The upward walk -----

  predicate IsTop(chart: Chart, u: UserId) {
    u !in chart || chart[u].None?
  }

  /** A chain that ends at someone without a supervisor meets no loop. */
  lemma EndedTrailIsLoopFree(chart: Chart, t: seq<UserId>)
    requires Trail(chart, t)
    requires IsTop(chart, t[|t| - 1])
    ensures LoopFreeFrom(Reports(chart), t[0])
  {
    var e, s := Reports(chart), Elements(t);
    assert Closed(e, s) by { TrailClosed(chart, t, 0); }
    forall v | Reaches(e, t[0], v) ensures !StrictlyReaches(e, v, v) {
      var n: nat :| Walk(e, t[0], v, n);
      ClosedWalk(e, s, t[0], v, n);
      var j :| 0 <= j < |t| && t[j] == v;
      if StrictlyReaches(e, v, v) {
        var c := FirstStep(e, v, v);
        assert j + 1 < |t| && (t[j + 1 - 1], t[j + 1]) in e;
        var rest := Elements(t[j + 1..]);
        TrailClosed(chart, t, j + 1);
        assert t[j + 1..][0] == c;
        ClosedNotReached(e, rest, c, v);
      }
    }
  }

  lemma TrailClosed(chart: Chart, t: seq<UserId>, j: nat)
    requires Trail(chart, t) && j < |t|
    requires IsTop(chart, t[|t| - 1])
    ensures Closed(Reports(chart), Elements(t[j..]))
  {
    forall a, b | (a, b) in Reports(chart) && a in Elements(t[j..]) ensures b in Elements(t[j..]) {
      var i :| 0 <= i < |t[j..]| && t[j..][i] == a;
      assert t[j + i] == a && j + i + 1 < |t|;
      assert (t[j + i + 1 - 1], t[j + i + 1]) in Reports(chart);
      assert t[j..][i + 1] == b;
    }
  }

  ghost function Bosses(chart: Chart): set<UserId> {
    set u | u in chart && chart[u].Some? :: chart[u].value
  }

  /** The walk from one moved person: does following supervisors ever come back to someone already seen? */
  method MeetsLoop(chart: Chart, userId: UserId) returns (loop: bool)
    ensures loop <==> !LoopFreeFrom(Reports(chart), userId)
  {
    ghost var e := Reports(chart);
    ghost var trail := [userId];
    var seen := {userId};
    var cur := if userId in chart then chart[userId] else None;
    while cur.Some?
      invariant Trail(chart, trail) && trail[0] == userId && seen == Elements(trail)
      invariant forall b :: (trail[|trail| - 1], b) in e <==> cur == Some(b)
      invariant cur.None? <==> IsTop(chart, trail[|trail| - 1])
      decreases Bosses(chart) - seen, cur.Some?
    {
      if cur.value in seen {
        ghost var i :| 0 <= i < |trail| && trail[i] == cur.value;
        TrailWalk(chart, trail, i);
        TrailWalk(chart, trail, |trail| - 1);
        Comparable(e, userId, trail[i], trail[|trail| - 1], i, |trail| - 1);
        EdgeReaches(e, trail[|trail| - 1], cur.value);
        ReachesTrans(e, trail[i], trail[|trail| - 1], cur.value);
        return true;
      }
      TrailExtend(chart, trail, cur.value);
      trail := trail + [cur.value];
      seen := seen + {cur.value};
      cur := if cur.value in chart then chart[cur.value] else None;
    }
    EndedTrailIsLoopFree(chart, trail);
    loop := false;
  }

  // ----- Why walking from the moved people suffices -----

  /** The charts agree on everyone outside s. */
  ghost predicate SameOutside(e: set<(UserId, UserId)>, f: set<(UserId, UserId)>, s: set<UserId>) {
    forall a, b :: a !in s ==> ((a, b) in e <==> (a, b) in f)
  }

  /** A walk in one chart is a walk in the other, unless it passes a moved person; up to the first one it still is. */
  lemma {:induction false} WalkUnlessMoved(e: set<(UserId, UserId)>, f: set<(UserId, UserId)>, s: set<UserId>,
                                           a: UserId, b: UserId, n: nat)
    requires SameOutside(e, f, s) && Walk(e, a, b, n)
    ensures Walk(f, a, b, n) || exists m :: m in s && Reaches(f, a, m) && Reaches(e, a, m) && Reaches(e, m, b)
    decreases n
  {
    if n > 0 {
      var c :| (a, c) in e && Walk(e, c, b, n - 1);
      if a in s {
        SelfReaches(e, a);
        SelfReaches(f, a);
        assert Reaches(e, a, b);
      } else {
        assert (a, c) in f;
        WalkUnlessMoved(e, f, s, c, b, n - 1);
        if !Walk(f, c, b, n - 1) {
          var m :| m in s && Reaches(f, c, m) && Reaches(e, c, m) && Reaches(e, m, b);
          EdgeReaches(e, a, c);
          EdgeReaches(f, a, c);
          ReachesTrans(e, a, c, m);
          ReachesTrans(f, a, c, m);
        }
      }
    }
  }

  /** Any loop the batch could create contains someone it moved. */
  lemma LoopsNeedAMovedPerson(e: set<(UserId, UserId)>, f: set<(UserId, UserId)>, s: set<UserId>)
    requires SameOutside(e, f, s) && Acyclic(e)
    ensures Acyclic(f) <==> forall m :: m in s ==> LoopFreeFrom(f, m)
  {
    if forall m :: m in s ==> LoopFreeFrom(f, m) {
      forall v ensures !StrictlyReaches(f, v, v) {
        if StrictlyReaches(f, v, v) {
          var n: nat :| n > 0 && Walk(f, v, v, n);
          assert !StrictlyReaches(e, v, v);
          WalkUnlessMoved(f, e, s, v, v, n);
        }
      }
    }
  }

  /**
   Moving people only within a team keeps the team the same, whatever the rest of the chart looks
   like (loops elsewhere included), as long as no moved person's chain meets a loop.
   */
  lemma TeamUnchanged(before: Chart, after: Chart, s: set<UserId>, boss: UserId, u: UserId)
    requires SameOutside(Reports(before), Reports(after), s)
    requires forall m :: m in s ==> IsAbove(before, boss, m) && LoopFreeFrom(Reports(after), m)
    requires forall m :: m in s ==>
               m in after && after[m].Some? && (after[m].value == boss || IsAbove(before, boss, after[m].value))
    ensures IsAbove(before, boss, u) <==> IsAbove(after, boss, u)
  {
    var e, f := Reports(before), Reports(after);
    if IsAbove(before, boss, u) {
      var n: nat :| n > 0 && Walk(e, u, boss, n);
      WalkUnlessMoved(e, f, s, u, boss, n);
      if !Walk(f, u, boss, n) {
        var m :| m in s && Reaches(f, u, m) && Reaches(e, m, boss);
        TeamStillReaches(before, after, s, boss, m);
        assert Reaches(f, m, boss);
        ReachesTrans(f, u, m, boss);
      }
    }
    if IsAbove(after, boss, u) && !IsAbove(before, boss, u) {
      var n: nat :| Walk(f, u, boss, n);
      OutsidersStayOut(before, after, s, boss, u, n);
    }
  }

  /** Where a moved person ends up is in the team as it was. */
  ghost predicate MovedIntoTeam(before: Chart, after: Chart, boss: UserId, m: UserId) {
    m in after && after[m].Some? && (after[m].value == boss || IsAbove(before, boss, after[m].value))
  }

  /**
   On a chart without loops afterwards, a team stays the same exactly when every moved person ends up in it
   who was in it, and no other.
   */
  lemma TeamUnchangedIff(before: Chart, after: Chart, s: set<UserId>, boss: UserId)
    requires SameOutside(Reports(before), Reports(after), s) && Acyclic(Reports(after))
    ensures (forall u :: IsAbove(before, boss, u) <==> IsAbove(after, boss, u))
            <==> forall m :: m in s ==> (IsAbove(before, boss, m) <==> MovedIntoTeam(before, after, boss, m))
  {
    hide Acyclic, StrictlyReaches;
    if forall u :: IsAbove(before, boss, u) <==> IsAbove(after, boss, u) {
      forall m | m in s ensures IsAbove(before, boss, m) <==> MovedIntoTeam(before, after, boss, m) {
        AboveByOneStep(after, boss, m);
      }
    }
    if forall m :: m in s ==> (IsAbove(before, boss, m) <==> MovedIntoTeam(before, after, boss, m)) {
      forall u ensures IsAbove(before, boss, u) <==> IsAbove(after, boss, u) {
        if IsAbove(before, boss, u) {
          NoLoopFrom(after, u);
          TeamStillReaches(before, after, s, boss, u);
        }
        if IsAbove(after, boss, u) { NobodyJoins(before, after, s, boss, u); }
      }
    }
  }

  lemma NoLoopFrom(chart: Chart, u: UserId)
    requires Acyclic(Reports(chart))
    ensures LoopFreeFrom(Reports(chart), u)
  {}

  /** On a chart without loops: someone is below the boss exactly when their supervisor is the boss or below. */
  lemma AboveByOneStep(chart: Chart, boss: UserId, u: UserId)
    requires Acyclic(Reports(chart))
    ensures IsAbove(chart, boss, u) <==>
            u in chart && chart[u].Some? && (chart[u].value == boss || IsAbove(chart, boss, chart[u].value))
  {
    var e := Reports(chart);
    assert !StrictlyReaches(e, boss, boss);
    if IsAbove(chart, boss, u) {
      var c := FirstStep(e, u, boss);
      if c != boss { StrictUnlessSame(e, c, boss); }
    }
    if u in chart && chart[u].Some? && (chart[u].value == boss || IsAbove(chart, boss, chart[u].value)) {
      EdgeReaches(e, u, chart[u].value);
      if chart[u].value != boss {
        assert Reaches(e, chart[u].value, boss);
        ReachesTrans(e, u, chart[u].value, boss);
      }
    }
  }

  /** As long as nobody leaves it and no loop is met, everyone of the team as it was still leads up to the boss. */
  lemma TeamStillReaches(before: Chart, after: Chart, s: set<UserId>, boss: UserId, u: UserId)
    requires SameOutside(Reports(before), Reports(after), s) && LoopFreeFrom(Reports(after), u)
    requires forall m :: m in s && IsAbove(before, boss, m) ==> MovedIntoTeam(before, after, boss, m)
    requires IsAbove(before, boss, u)
    ensures StrictlyReaches(Reports(after), u, boss)
  {
    var f := Reports(after);
    var team := set x | x in before && IsAbove(before, boss, x);
    forall x | x in team ensures exists y :: (x, y) in f && (y == boss || y in team) {
      if x in s {
        assert MovedIntoTeam(before, after, boss, x) && (x, after[x].value) in f;
        if after[x].value != boss { TeamMember(before, boss, after[x].value); }
      } else {
        var c := FirstStep(Reports(before), x, boss);
        assert (x, c) in f;
        if c != boss { StrictUnlessSame(Reports(before), c, boss); TeamMember(before, boss, c); }
      }
    }
    TeamMember(before, boss, u);
    var out := LeadsOut(f, team, u);
    var n: nat :| Walk(f, u, out, n);
    FirstOutsider(f, team, boss, u, out, n);
  }

  lemma NobodyJoins(before: Chart, after: Chart, s: set<UserId>, boss: UserId, u: UserId)
    requires SameOutside(Reports(before), Reports(after), s) && Acyclic(Reports(after))
    requires forall m :: m in s && MovedIntoTeam(before, after, boss, m) ==> IsAbove(before, boss, m)
    requires IsAbove(after, boss, u)
    ensures IsAbove(before, boss, u)
  {
    var n: nat :| Walk(Reports(after), u, boss, n);
    JoinsByWalk(before, after, s, boss, u, n);
  }

  lemma {:induction false} JoinsByWalk(before: Chart, after: Chart, s: set<UserId>, boss: UserId, u: UserId, n: nat)
    requires SameOutside(Reports(before), Reports(after), s)
    requires forall m :: m in s && MovedIntoTeam(before, after, boss, m) ==> IsAbove(before, boss, m)
    requires u != boss && Walk(Reports(after), u, boss, n)
    ensures IsAbove(before, boss, u)
    decreases n
  {
    var c :| (u, c) in Reports(after) && Walk(Reports(after), c, boss, n - 1);
    if c != boss { JoinsByWalk(before, after, s, boss, c, n - 1); }
    if u in s {
      assert MovedIntoTeam(before, after, boss, u);
    } else {
      EdgeReaches(Reports(before), u, c);
      if c != boss {
        assert Reaches(Reports(before), c, boss);
        ReachesTrans(Reports(before), u, c, boss);
      }
    }
  }

  lemma TeamMember(chart: Chart, boss: UserId, x: UserId)
    requires IsAbove(chart, boss, x)
    ensures x in chart
  {
    var c := FirstStep(Reports(chart), x, boss);
  }

  /** The only way out of the team is through the boss. */
  lemma {:induction false} FirstOutsider(f: set<(UserId, UserId)>, team: set<UserId>, boss: UserId,
                                         a: UserId, b: UserId, n: nat)
    requires forall x, y :: (x, y) in f && x in team ==> y == boss || y in team
    requires a in team && b !in team && Walk(f, a, b, n)
    ensures StrictlyReaches(f, a, boss)
    decreases n
  {
    var c :| (a, c) in f && Walk(f, c, b, n - 1);
    EdgeReaches(f, a, c);
    if c != boss {
      FirstOutsider(f, team, boss, c, b, n - 1);
      assert Reaches(f, c, boss);
      ReachesTrans(f, a, c, boss);
    }
  }

  lemma {:induction false} OutsidersStayOut(before: Chart, after: Chart, s: set<UserId>, boss: UserId, u: UserId,
                                            n: nat)
    requires SameOutside(Reports(before), Reports(after), s)
    requires forall m :: m in s ==> IsAbove(before, boss, m)
    requires u != boss && !IsAbove(before, boss, u)
    ensures !Walk(Reports(after), u, boss, n)
    decreases n
  {
    if Walk(Reports(after), u, boss, n) {
      var c :| (u, c) in Reports(after) && Walk(Reports(after), c, boss, n - 1);
      EdgeReaches(Reports(before), u, c);
      if IsAbove(before, boss, c) {
        assert Reaches(Reports(before), c, boss);
        ReachesTrans(Reports(before), u, c, boss);
      }
      OutsidersStayOut(before, after, s, boss, c, n - 1);
    }
  }

  // ----- The service -----

  method StageMoves(people: People, actorId: UserId, manageable: Option<set<UserId>>, moves: seq<Move>)
    returns (r: Result<Chart, Refusal>)
    ensures r == match FirstRefusal(people, actorId, manageable, moves)
                 case Some(e) => Err(e)
                 case None => Ok(Moved(ChartOf(people), moves))
  {
    var finalSup := ChartOf(people);
    var i := 0;
    while i < |moves|
      invariant 0 <= i <= |moves|
      invariant finalSup == Moved(ChartOf(people), moves[..i])
      invariant FirstRefusal(people, actorId, manageable, moves)
                == FirstRefusal(people, actorId, manageable, moves[i..])
    {
      assert moves[i..][0] == moves[i] && moves[i..][1..] == moves[i + 1..];
      var refusal := CheckMove(people, actorId, manageable, moves[i]);
      if refusal.Some? { return Err(refusal.value); }
      finalSup := finalSup[moves[i].userId := moves[i].supervisorId];
      assert moves[..i + 1][..|moves[..i + 1]| - 1] == moves[..i];
      i := i + 1;
    }
    assert moves[..|moves|] == moves && moves[|moves|..] == [];
    r := Ok(finalSup);
  }

  method AnyMovedMeetsLoop(chart: Chart, moves: seq<Move>) returns (loop: bool)
    ensures loop <==> exists m :: m in MovedIds(moves) && !LoopFreeFrom(Reports(chart), m)
  {
    var j := 0;
    while j < |moves|
      invariant 0 <= j <= |moves|
      invariant forall k :: 0 <= k < j ==> LoopFreeFrom(Reports(chart), moves[k].userId)
    {
      loop := MeetsLoop(chart, moves[j].userId);
      if loop { assert moves[j].userId in MovedIds(moves); return; }
      j := j + 1;
    }
    loop := false;
  }

  lemma StagedChart(people: People, actorId: UserId, manageable: Option<set<UserId>>, moves: seq<Move>)
    requires FirstRefusal(people, actorId, manageable, moves).None?
    ensures var chart, f := ChartOf(people), Moved(ChartOf(people), moves);
            && f.Keys == people.Keys
            && (forall u :: u in chart && u !in MovedIds(moves) ==> f[u] == chart[u])
            && (forall u :: u in MovedIds(moves) ==> exists c :: c in moves && c.userId == u && f[u] == c.supervisorId)
  {
    forall c | c in moves ensures c.userId in people {
      assert CheckMove(people, actorId, manageable, c).None?;
    }
    MovedMeans(ChartOf(people), moves);
  }

  /** The outcome of the checks, on what was read. */
  ghost predicate Decided(people: People, actor: Actor, manageable: Option<set<UserId>>, moves: seq<Move>,
                          changes: seq<DutyChange>, active: set<DutyId>, needed: set<(UserId, DutyId)>,
                          r: Result<(), Refusal>) {
    && ManageableIs(people, actor, manageable)
    && match FirstRefusal(people, actor.id, manageable, moves)
       case Some(e) => r == Err(e)
       case None =>
         if exists m :: m in MovedIds(moves) && !LoopFreeFrom(Reports(Moved(ChartOf(people), moves)), m) then
           r == Err(WouldLoop)
         else match DutyRefusal(people, manageable, Effective(changes), active, needed)
              case Some(e) => r == Err(e)
              case None => r == Ok(())
  }

  /** The rows a transaction writes to, or names, are still there; duties are those that are. */
  ghost predicate CanCommit(people: People, duties: set<DutyId>, moves: seq<Move>, changes: seq<DutyChange>) {
    && (forall c :: c in moves ==> c.userId in people && (c.supervisorId.Some? ==> c.supervisorId.value in people))
    && forall c :: c in changes && c.add != {} ==> c.userId in people && c.add <= duties
  }

  function Supervised(people: People, chart: Chart): People
    requires people.Keys <= chart.Keys
  {
    map u | u in people :: people[u].(supervisor := chart[u])
  }

  /** The supervisor column written move by move. */
  method WriteMoves(before: People, moves: seq<Move>) returns (people: People)
    requires forall c :: c in moves ==> c.userId in before
    ensures people.Keys == before.Keys && ChartOf(people) == Moved(ChartOf(before), moves)
    ensures forall u :: u in people ==> people[u] == before[u].(supervisor := people[u].supervisor)
  {
    people := before;
    var i := 0;
    while i < |moves|
      invariant 0 <= i <= |moves|
      invariant people.Keys == before.Keys && ChartOf(people) == Moved(ChartOf(before), moves[..i])
      invariant forall u :: u in people ==> people[u] == before[u].(supervisor := people[u].supervisor)
    {
      var c := moves[i];
      assert moves[..i + 1][..|moves[..i + 1]| - 1] == moves[..i];
      people := people[c.userId := people[c.userId].(supervisor := c.supervisorId)];
      i := i + 1;
    }
    assert moves[..|moves|] == moves;
  }

  method WriteDuties(before: set<(UserId, DutyId)>, changes: seq<DutyChange>) returns (holders: set<(UserId, DutyId)>)
    ensures holders == Given(before, changes)
  {
    holders := before;
    assert changes[..0] == [] && changes[..|changes|] == changes;
    var i := 0;
    while i < |changes|
      invariant 0 <= i <= |changes| && holders == Given(before, changes[..i])
    {
      assert changes[..i + 1][..|changes[..i + 1]| - 1] == changes[..i];
      holders := GiveOne(holders, changes[i]);
      i := i + 1;
    }
  }

  // ----- The same in the words of the product -----

  /** An active person, and one below the actor unless an administrator asks. */
  ghost predicate MayChange(people: People, actor: Actor, u: UserId) {
    u in people && people[u].isActive && (actor.role == Admin || IsAbove(ChartOf(people), actor.id, u))
  }

  /**
   Nothing has changed since it was looked at, and the new supervisor is someone else, active, no Member and, unless
   an administrator asks, of the same team; only an administrator may leave someone without one.
  */
  ghost predicate MoveIsFine(people: People, actor: Actor, c: Move) {
    && MayChange(people, actor, c.userId) && people[c.userId].supervisor == c.expectedSupervisorId
    && (c.supervisorId.None? ==> actor.role == Admin)
    && (c.supervisorId.Some? ==>
          var sup := c.supervisorId.value;
          && sup != c.userId && sup in people && people[sup].isActive && people[sup].role in {Manager, Admin}
          && (actor.role == Admin || sup == actor.id || IsAbove(ChartOf(people), actor.id, sup)))
  }

  ghost predicate BatchIsFine(people: People, actor: Actor, moves: seq<Move>, changes: seq<DutyChange>,
                              active: set<DutyId>, needed: set<(UserId, DutyId)>) {
    && actor.role in {Manager, Admin}
    && (forall c :: c in moves ==>
          MoveIsFine(people, actor, c) && LoopFreeFrom(Reports(Moved(ChartOf(people), moves)), c.userId))
    && forall c :: c in changes && (c.add != {} || c.remove != {}) ==>
         && MayChange(people, actor, c.userId) && (forall d :: d in c.add ==> d in active)
         && forall d :: d in c.remove ==> (c.userId, d) !in needed
  }

  /** Why one move is turned down: each reason is real, and without one the move is fine. */
  lemma MoveRefusalIsReal(people: People, actor: Actor, manageable: Option<set<UserId>>, c: Move)
    requires actor.role != Member && ManageableIs(people, actor, manageable)
    ensures match CheckMove(people, actor.id, manageable, c)
            case None => MoveIsFine(people, actor, c)
            case Some(NoSuchPerson) => c.userId !in people || !people[c.userId].isActive
            case Some(NotYourReport) => actor.role == Manager && !IsAbove(ChartOf(people), actor.id, c.userId)
            case Some(Stale) => c.userId in people && people[c.userId].supervisor != c.expectedSupervisorId
            case Some(TopLevelIsAdminOnly) => c.supervisorId.None? && actor.role == Manager
            case Some(OwnSupervisor) => c.supervisorId == Some(c.userId)
            case Some(NoSuchSupervisor) =>
              c.supervisorId.Some? && (c.supervisorId.value !in people || !people[c.supervisorId.value].isActive)
            case Some(NotASupervisor) =>
              c.supervisorId.Some? && c.supervisorId.value in people && people[c.supervisorId.value].role == Member
            case Some(OutsideTeam) =>
              c.supervisorId.Some? && actor.role == Manager && c.supervisorId.value != actor.id
              && !IsAbove(ChartOf(people), actor.id, c.supervisorId.value)
            case Some(_) => false
    ensures MoveIsFine(people, actor, c) ==> CheckMove(people, actor.id, manageable, c).None?
  {
    hide IsAbove;
  }

  /** A batch is accepted exactly when every part of it is fine. */
  lemma AcceptedWhenFine(people: People, actor: Actor, manageable: Option<set<UserId>>, moves: seq<Move>,
                         changes: seq<DutyChange>, active: set<DutyId>, needed: set<(UserId, DutyId)>,
                         r: Result<(), Refusal>)
    requires actor.role != Member && Decided(people, actor, manageable, moves, changes, active, needed, r)
    ensures r.Ok? <==> BatchIsFine(people, actor, moves, changes, active, needed)
  {
    hide IsAbove, LoopFreeFrom, Moved, CheckMove, MoveIsFine;
    forall c | c in moves ensures CheckMove(people, actor.id, manageable, c).None? <==> MoveIsFine(people, actor, c) {
      MoveRefusalIsReal(people, actor, manageable, c);
    }
    assert (forall m :: m in MovedIds(moves) ==> LoopFreeFrom(Reports(Moved(ChartOf(people), moves)), m))
           <==> forall c :: c in moves ==> LoopFreeFrom(Reports(Moved(ChartOf(people), moves)), c.userId);
    DutiesAreFine(people, actor, manageable, changes, active, needed);
  }

  lemma DutiesAreFine(people: People, actor: Actor, manageable: Option<set<UserId>>, changes: seq<DutyChange>,
                      active: set<DutyId>, needed: set<(UserId, DutyId)>)
    requires actor.role != Member && ManageableIs(people, actor, manageable)
    ensures DutyRefusal(people, manageable, Effective(changes), active, needed).None?
            <==> forall c :: c in changes && (c.add != {} || c.remove != {}) ==>
                   && MayChange(people, actor, c.userId) && (forall d :: d in c.add ==> d in active)
                   && forall d :: d in c.remove ==> (c.userId, d) !in needed
  {
    hide IsAbove;
    forall c: DutyChange ensures c.add + c.remove != {} <==> c.add != {} || c.remove != {} {}
  }

  lemma MembersChangeNothing(people: People, actor: Actor, moves: seq<Move>, changes: seq<DutyChange>,
                             active: set<DutyId>, needed: set<(UserId, DutyId)>)
    ensures actor.role == Member ==> !BatchIsFine(people, actor, moves, changes, active, needed)
  {}

  /** Of several moves of one person the last decides; whoever is not moved keeps their supervisor. */
  lemma {:induction false} LastMoveDecides(chart: Chart, moves: seq<Move>, u: UserId)
    ensures var f := Moved(chart, moves);
            if exists i: nat :: LastMoveOf(moves, u, i) then
              u in f && exists i: nat :: LastMoveOf(moves, u, i) && f[u] == moves[i].supervisorId
            else (u in f <==> u in chart) && (u in chart ==> f[u] == chart[u])
    decreases |moves|
  {
    if moves != [] {
      var n := |moves| - 1;
      LastMoveDecides(chart, moves[..n], u);
      if moves[n].userId == u {
        assert LastMoveOf(moves, u, n);
      } else {
        forall i: nat ensures LastMoveOf(moves, u, i) <==> LastMoveOf(moves[..n], u, i) {}
      }
    }
  }

  ghost predicate LastMoveOf(moves: seq<Move>, u: UserId, i: nat) {
    i < |moves| && moves[i].userId == u && forall j :: i < j < |moves| ==> moves[j].userId != u
  }

  class Organization {
    var people: People
    var holders: set<(UserId, DutyId)>

    constructor (people: People, holders: set<(UserId, DutyId)>)
      ensures this.people == people && this.holders == holders
    {
      this.people, this.holders := people, holders;
    }

    /** Everything before the transaction. */
    method Check(actor: Actor, moves: seq<Move>, changes: seq<DutyChange>, active: set<DutyId>,
                 needed: set<(UserId, DutyId)>)
      returns (r: Result<(), Refusal>)
      ensures actor.role == Member <==> r == Err(NotAllowed)
      ensures actor.role != Member ==>
              exists manageable :: Decided(people, actor, manageable, moves, changes, active, needed, r)
      ensures r.Ok? <==> BatchIsFine(people, actor, moves, changes, active, needed)
    {
      hide IsAbove, LoopFreeFrom, Moved, FirstRefusal, MovedIds, DutyRefusal, Effective, BatchIsFine;
      MembersChangeNothing(people, actor, moves, changes, active, needed);
      if actor.role == Member { return Err(NotAllowed); }
      var chart := ChartOf(people);
      var manageable: Option<set<UserId>> := None;
      if actor.role == Manager {
        var downline := GetDownlineIds(chart, actor.id);
        manageable := Some(set u | u in downline);
      }
      assert ManageableIs(people, actor, manageable);
      RefusalsOfTheirOwn(people, actor.id, manageable, moves, Effective(changes), active, needed);
      var staged := StageMoves(people, actor.id, manageable, moves);
      if staged.Err? {
        r := Err(staged.error);
        AcceptedWhenFine(people, actor, manageable, moves, changes, active, needed, r);
        return;
      }
      var loop := AnyMovedMeetsLoop(staged.value, moves);
      if loop {
        r := Err(WouldLoop);
        AcceptedWhenFine(people, actor, manageable, moves, changes, active, needed, r);
        return;
      }
      var refusal := CheckDuties(people, manageable, Effective(changes), active, needed);
      r := if refusal.Some? then Err(refusal.value) else Ok(());
      AcceptedWhenFine(people, actor, manageable, moves, changes, active, needed, r);
    }

    /** The transaction. It writes each row in turn, and is rolled back when one it needs has gone. */
    method Commit(duties: set<DutyId>, moves: seq<Move>, changes: seq<DutyChange>) returns (ok: bool)
      modifies this
      ensures ok <==>
                && (forall c :: c in moves ==>
                      c.userId in old(people) && (c.supervisorId.Some? ==> c.supervisorId.value in old(people)))
                && forall c :: c in changes && c.add != {} ==>
                     c.userId in old(people) && forall d :: d in c.add ==> d in duties
      ensures ok <==> CanCommit(old(people), duties, moves, changes)
      ensures !ok ==> people == old(people) && holders == old(holders)
      ensures ok ==> people.Keys == old(people).Keys && ChartOf(people) == Moved(ChartOf(old(people)), moves)
      ensures ok ==> forall u :: u in people ==> people[u] == old(people)[u].(supervisor := people[u].supervisor)
      ensures ok ==> holders == Given(old(holders), changes)
    {
      hide CanCommit, Given, Moved;
      var allThere := (forall c :: c in moves ==>
                       c.userId in people && (c.supervisorId.Some? ==> c.supervisorId.value in people))
                      && forall c :: c in changes && c.add != {} ==> c.userId in people && c.add <= duties;
      RowsThere(people, duties, moves, changes);
      if !allThere { return false; }
      people := WriteMoves(people, moves);
      holders := WriteDuties(holders, changes);
      ok := true;
    }

    /** Check and transaction with nothing in between. */
    method SaveOrgChanges(actor: Actor, moves: seq<Move>, changes: seq<DutyChange>, active: set<DutyId>,
                          needed: set<(UserId, DutyId)>)
      returns (r: Result<(), Refusal>)
      modifies this
      // what is refused, and why
      ensures actor.role == Member <==> r == Err(NotAllowed)
      ensures actor.role != Member ==>
              exists manageable :: Decided(old(people), actor, manageable, moves, changes, active, needed, r)
      ensures r.Ok? <==> BatchIsFine(old(people), actor, moves, changes, active, needed)
      // what changes: the supervisor column and the holders, as staged
      ensures r.Err? ==> people == old(people) && holders == old(holders)
      ensures r.Ok? ==> people.Keys == old(people).Keys && ChartOf(people) == Moved(ChartOf(old(people)), moves)
      ensures r.Ok? ==> forall u :: u in people ==> people[u] == old(people)[u].(supervisor := people[u].supervisor)
      ensures r.Ok? ==> holders == Given(old(holders), Effective(changes))
      // what an accepted batch keeps
      ensures r.Ok? && Acyclic(Reports(ChartOf(old(people)))) ==> Acyclic(Reports(ChartOf(people)))
      ensures r.Ok? && actor.role == Manager ==>
                forall u :: IsAbove(ChartOf(old(people)), actor.id, u) <==> IsAbove(ChartOf(people), actor.id, u)
    {
      hide IsAbove, LoopFreeFrom, Acyclic, Moved, FirstRefusal, MovedIds, Decided, Given, Effective, CanCommit,
           BatchIsFine;
      r := Check(actor, moves, changes, active, needed);
      if r.Err? { return; }
      ghost var manageable :| Decided(people, actor, manageable, moves, changes, active, needed, r);
      AcceptedCanCommit(people, actor, manageable, moves, changes, active, needed, r);
      Consequences(people, actor, manageable, moves);
      var ok := Commit(active, moves, Effective(changes));
    }
  }

  lemma RefusalsOfTheirOwn(people: People, actorId: UserId, manageable: Option<set<UserId>>, moves: seq<Move>,
                           changes: seq<DutyChange>, active: set<DutyId>, needed: set<(UserId, DutyId)>)
    ensures FirstRefusal(people, actorId, manageable, moves) != Some(NotAllowed)
    ensures DutyRefusal(people, manageable, changes, active, needed) != Some(NotAllowed)
  {
    RefusalIsSomeones(people, actorId, manageable, moves);
    PersonRefusalIsSomeones(people, manageable, changes);
  }

  lemma {:induction false} RefusalIsSomeones(people: People, actorId: UserId, manageable: Option<set<UserId>>,
                                             moves: seq<Move>)
    ensures FirstRefusal(people, actorId, manageable, moves) != Some(NotAllowed)
    decreases |moves|
  {
    if moves != [] { RefusalIsSomeones(people, actorId, manageable, moves[1..]); }
  }

  lemma {:induction false} PersonRefusalIsSomeones(people: People, manageable: Option<set<UserId>>,
                                                   changes: seq<DutyChange>)
    ensures FirstPersonRefusal(people, manageable, changes) != Some(NotAllowed)
    decreases |changes|
  {
    if changes != [] { PersonRefusalIsSomeones(people, manageable, changes[1..]); }
  }

  lemma RowsThere(people: People, duties: set<DutyId>, moves: seq<Move>, changes: seq<DutyChange>)
    ensures CanCommit(people, duties, moves, changes) <==>
            (forall c :: c in moves ==> c.userId in people && (c.supervisorId.Some? ==> c.supervisorId.value in people))
            && forall c :: c in changes && c.add != {} ==> c.userId in people && c.add <= duties
  {}

  /** On the rows it was checked against, an accepted batch finds all it needs. */
  lemma AcceptedCanCommit(people: People, actor: Actor, manageable: Option<set<UserId>>, moves: seq<Move>,
                          changes: seq<DutyChange>, active: set<DutyId>, needed: set<(UserId, DutyId)>,
                          r: Result<(), Refusal>)
    requires Decided(people, actor, manageable, moves, changes, active, needed, r) && r.Ok?
    ensures FirstRefusal(people, actor.id, manageable, moves).None? && ManageableIs(people, actor, manageable)
    ensures CanCommit(people, active, moves, Effective(changes))
    ensures forall m :: m in MovedIds(moves) ==> LoopFreeFrom(Reports(Moved(ChartOf(people), moves)), m)
  {
    hide LoopFreeFrom, MovedIds, Effective, Moved;
    forall c | c in moves ensures c.userId in people && (c.supervisorId.Some? ==> c.supervisorId.value in people) {
      assert CheckMove(people, actor.id, manageable, c).None?;
    }
    forall c | c in Effective(changes) ensures c.userId in people && c.add <= active {
      assert CheckPerson(people, manageable, c.userId).None?;
    }
  }

  ghost predicate ManageableIs(people: People, actor: Actor, manageable: Option<set<UserId>>) {
    if actor.role == Admin then manageable.None?
    else manageable.Some? && forall u :: u in manageable.value <==> IsAbove(ChartOf(people), actor.id, u)
  }

  lemma OnlyMovedChange(people: People, actorId: UserId, manageable: Option<set<UserId>>, moves: seq<Move>)
    requires FirstRefusal(people, actorId, manageable, moves).None?
    ensures SameOutside(Reports(ChartOf(people)), Reports(Moved(ChartOf(people), moves)), MovedIds(moves))
  {
    StagedChart(people, actorId, manageable, moves);
  }

  /** The staged move that decides where someone ends up. */
  lemma MoveBehind(people: People, actorId: UserId, manageable: Option<set<UserId>>, moves: seq<Move>, m: UserId)
    returns (c: Move)
    requires FirstRefusal(people, actorId, manageable, moves).None? && m in MovedIds(moves)
    ensures CheckMove(people, actorId, manageable, c).None? && c.userId == m
    ensures m in Moved(ChartOf(people), moves) && Moved(ChartOf(people), moves)[m] == c.supervisorId
  {
    StagedChart(people, actorId, manageable, moves);
    c :| c in moves && c.userId == m && Moved(ChartOf(people), moves)[m] == c.supervisorId;
  }

  /** An accepted batch of a Manager moves only people of the team, and only within it. */
  lemma MovesStayInTeam(people: People, boss: UserId, manageable: set<UserId>, moves: seq<Move>, m: UserId)
    requires forall u :: u in manageable <==> IsAbove(ChartOf(people), boss, u)
    requires FirstRefusal(people, boss, Some(manageable), moves).None? && m in MovedIds(moves)
    ensures IsAbove(ChartOf(people), boss, m)
    ensures var after := Moved(ChartOf(people), moves);
            && m in after && after[m].Some?
            && (after[m].value == boss || IsAbove(ChartOf(people), boss, after[m].value))
  {
    var c := MoveBehind(people, boss, Some(manageable), moves, m);
    assert m in manageable && (c.supervisorId.value == boss || c.supervisorId.value in manageable);
  }

  /** Everything an accepted batch keeps, in terms of the staged chart. */
  lemma Consequences(people: People, actor: Actor, manageable: Option<set<UserId>>, moves: seq<Move>)
    requires ManageableIs(people, actor, manageable)
    requires FirstRefusal(people, actor.id, manageable, moves).None?
    requires forall m :: m in MovedIds(moves) ==> LoopFreeFrom(Reports(Moved(ChartOf(people), moves)), m)
    ensures Acyclic(Reports(ChartOf(people))) ==> Acyclic(Reports(Moved(ChartOf(people), moves)))
    ensures actor.role == Manager ==>
              forall u :: IsAbove(ChartOf(people), actor.id, u) <==> IsAbove(Moved(ChartOf(people), moves), actor.id, u)
  {
    var before, after, s := ChartOf(people), Moved(ChartOf(people), moves), MovedIds(moves);
    OnlyMovedChange(people, actor.id, manageable, moves);
    if Acyclic(Reports(before)) { LoopsNeedAMovedPerson(Reports(before), Reports(after), s); }
    if actor.role == Manager {
      forall m | m in s
        ensures IsAbove(before, actor.id, m) && m in after && after[m].Some?
        ensures after[m].value == actor.id || IsAbove(before, actor.id, after[m].value)
      {
        MovesStayInTeam(people, actor.id, manageable.value, moves, m);
      }
      forall u ensures IsAbove(before, actor.id, u) <==> IsAbove(after, actor.id, u) {
        TeamUnchanged(before, after, s, actor.id, u);
      }
    }
  }

  /** On a chart without loops, the walk check refuses exactly the batches that would make one. */
  lemma WalkCheckIsExact(people: People, moves: seq<Move>)
    requires Acyclic(Reports(ChartOf(people)))
    requires forall c :: c in moves ==> c.userId in people
    ensures (forall m :: m in MovedIds(moves) ==> LoopFreeFrom(Reports(Moved(ChartOf(people), moves)), m))
            <==> Acyclic(Reports(Moved(ChartOf(people), moves)))
  {
    MovedMeans(ChartOf(people), moves);
    LoopsNeedAMovedPerson(Reports(ChartOf(people)), Reports(Moved(ChartOf(people), moves)), MovedIds(moves));
  }

  // ----- Batches side by side -----

  /** Batches that have passed their checks and not yet been written. */
  datatype OrgState = OrgState(people: People, passed: map<Pid, seq<Move>>)

  datatype OrgAction =
    | PassCheck(pid: Pid, actor: Actor, moves: seq<Move>)
    | Write(pid: Pid)

  /** The checks on supervisors that a batch passes on what it reads. */
  ghost predicate Passes(people: People, actor: Actor, moves: seq<Move>) {
    && actor.role != Member
    && exists manageable ::
         && ManageableIs(people, actor, manageable) && FirstRefusal(people, actor.id, manageable, moves).None?
         && StillPasses(people, moves)
  }

  /** The walks from the moved people meet no loop on this chart. */
  ghost predicate StillPasses(people: People, moves: seq<Move>) {
    forall m :: m in MovedIds(moves) ==> LoopFreeFrom(Reports(Moved(ChartOf(people), moves)), m)
  }

  ghost function OrgStep(s: OrgState, a: OrgAction): Option<OrgState> {
    match a
    case PassCheck(pid, actor, moves) =>
      if pid in s.passed || !Passes(s.people, actor, moves) then None
      else Some(s.(passed := s.passed[pid := moves]))
    case Write(pid) =>
      if pid !in s.passed then None
      else if !CanCommit(s.people, {}, s.passed[pid], []) then Some(s.(passed := s.passed - {pid}))
      else
        MovedKeys(ChartOf(s.people), s.passed[pid]);
        Some(OrgState(Supervised(s.people, Moved(ChartOf(s.people), s.passed[pid])), s.passed - {pid}))
  }

  /** A check passes what saving the same moves alone and at once would have accepted. */
  lemma PassesWhenFine(people: People, actor: Actor, moves: seq<Move>)
    ensures Passes(people, actor, moves) <==> BatchIsFine(people, actor, moves, [], {}, {})
  {
    hide LoopFreeFrom, Moved, CheckMove, MoveIsFine, FirstRefusal, MovedIds, IsAbove;
    if actor.role == Member { return; }
    var chart := ChartOf(people);
    var manageable := if actor.role == Admin then None else Some(set u | u in people && IsAbove(chart, actor.id, u));
    forall u | IsAbove(chart, actor.id, u) ensures u in people { OnlyPeopleReport(people, actor.id, u); }
    assert ManageableIs(people, actor, manageable);
    forall m | ManageableIs(people, actor, m)
      ensures FirstRefusal(people, actor.id, m, moves).None? && StillPasses(people, moves)
              <==> BatchIsFine(people, actor, moves, [], {}, {}) {
      NoDuties(people, m);
      var refusal := FirstRefusal(people, actor.id, m, moves);
      var r := if refusal.Some? then Err(refusal.value)
               else if StillPasses(people, moves) then Ok(()) else Err(WouldLoop);
      AcceptedWhenFine(people, actor, m, moves, [], {}, {}, r);
    }
  }

  lemma NoDuties(people: People, manageable: Option<set<UserId>>)
    ensures DutyRefusal(people, manageable, Effective([]), {}, {}).None?
  {}

  lemma OnlyPeopleReport(people: People, boss: UserId, u: UserId)
    requires IsAbove(ChartOf(people), boss, u)
    ensures u in people
  {}

  /** Where someone's supervisor stands after the moves: as the last move of theirs says, or where it stood. */
  ghost predicate SupervisorIs(people: People, moves: seq<Move>, u: UserId, supervisor: Option<UserId>) {
    if exists i: nat :: LastMoveOf(moves, u, i) then
      exists i: nat :: LastMoveOf(moves, u, i) && supervisor == moves[i].supervisorId
    else u in people && supervisor == people[u].supervisor
  }

  ghost predicate AllRowsThere(people: People, moves: seq<Move>) {
    forall c :: c in moves ==> c.userId in people && (c.supervisorId.Some? ==> c.supervisorId.value in people)
  }

  /**
   A check remembers exactly the moves that would have been accepted, and changes nobody; the write of those moves
   changes the supervisors as they say, and nothing at all when a row they need has gone.
  */
  lemma OrgStepMeans(s: OrgState, a: OrgAction)
    ensures a.PassCheck? ==>
              && (OrgStep(s, a).Some? <==>
                    a.pid !in s.passed && BatchIsFine(s.people, a.actor, a.moves, [], {}, {}))
              && (OrgStep(s, a).Some? ==>
                    OrgStep(s, a).value == OrgState(s.people, s.passed[a.pid := a.moves]))
    ensures a.Write? ==> (OrgStep(s, a).Some? <==> a.pid in s.passed)
    ensures a.Write? && a.pid in s.passed ==>
              var d, moves := OrgStep(s, a).value, s.passed[a.pid];
              && d.passed == s.passed - {a.pid} && d.people.Keys == s.people.Keys
              && forall u :: u in s.people ==>
                   && d.people[u] == s.people[u].(supervisor := d.people[u].supervisor)
                   && if AllRowsThere(s.people, moves) then SupervisorIs(s.people, moves, u, d.people[u].supervisor)
                      else d.people[u] == s.people[u]
  {
    hide Passes, BatchIsFine, Moved, LastMoveOf;
    if a.PassCheck? {
      PassesWhenFine(s.people, a.actor, a.moves);
    } else if a.pid in s.passed {
      var moves := s.passed[a.pid];
      assert CanCommit(s.people, {}, moves, []) <==> AllRowsThere(s.people, moves);
      if AllRowsThere(s.people, moves) {
        MovedKeys(ChartOf(s.people), moves);
        forall u | u in s.people { LastMoveDecides(ChartOf(s.people), moves, u); }
      }
    }
  }

  lemma {:induction false} MovedKeys(chart: Chart, moves: seq<Move>)
    ensures chart.Keys <= Moved(chart, moves).Keys
    decreases |moves|
  {
    if moves != [] { MovedKeys(chart, moves[..|moves| - 1]); }
  }

  ghost predicate OrgRun(states: seq<OrgState>, actions: seq<OrgAction>) {
    |states| == |actions| + 1 && forall i :: 0 <= i < |actions| ==>
      OrgStep(states[i], actions[i]) == Some(states[i + 1])
  }

  ghost predicate NoLoop(s: OrgState) { Acyclic(Reports(ChartOf(s.people))) }

  /** A write whose moves would pass the walks again, on the chart it writes to. */
  ghost predicate WritesInTime(s: OrgState, a: OrgAction) {
    a.Write? && a.pid in s.passed && CanCommit(s.people, {}, s.passed[a.pid], []) ==>
      StillPasses(s.people, s.passed[a.pid])
  }

  /** One write keeps a chart free of loops exactly when its moves still pass the walks there. */
  lemma WriteKeepsNoLoopIff(s: OrgState, a: OrgAction)
    requires NoLoop(s) && OrgStep(s, a).Some?
    ensures NoLoop(OrgStep(s, a).value) <==> WritesInTime(s, a)
  {
    hide Acyclic, LoopFreeFrom, Passes;
    if a.Write? && CanCommit(s.people, {}, s.passed[a.pid], []) {
      var moves := s.passed[a.pid];
      MovedMeans(ChartOf(s.people), moves);
      WalkCheckIsExact(s.people, moves);
      assert ChartOf(OrgStep(s, a).value.people) == Moved(ChartOf(s.people), moves);
    }
  }

  /**
   However batches overlap, the chart has no loop at any moment exactly when every one still passes when it is
   written.
  */
  lemma BatchesKeepNoLoopIff(states: seq<OrgState>, actions: seq<OrgAction>)
    requires OrgRun(states, actions) && NoLoop(states[0])
    ensures (forall i :: 0 <= i < |states| ==> NoLoop(states[i]))
            <==> forall i :: 0 <= i < |actions| ==> WritesInTime(states[i], actions[i])
  {
    hide NoLoop, WritesInTime, OrgStep;
    if forall i :: 0 <= i < |states| ==> NoLoop(states[i]) {
      forall i | 0 <= i < |actions| ensures WritesInTime(states[i], actions[i]) {
        assert NoLoop(states[i]) && NoLoop(states[i + 1]);
        WriteKeepsNoLoopIff(states[i], actions[i]);
      }
    }
    if forall i :: 0 <= i < |actions| ==> WritesInTime(states[i], actions[i]) {
      forall i | 0 <= i < |states| ensures NoLoop(states[i]) { NoLoopYet(states, actions, i); }
    }
  }

  lemma {:induction false} NoLoopYet(states: seq<OrgState>, actions: seq<OrgAction>, k: nat)
    requires OrgRun(states, actions) && NoLoop(states[0]) && k < |states|
    requires forall i :: 0 <= i < |actions| ==> WritesInTime(states[i], actions[i])
    ensures NoLoop(states[k])
    decreases k
  {
    hide NoLoop, WritesInTime, OrgStep;
    if k > 0 {
      NoLoopYet(states, actions, k - 1);
      assert OrgStep(states[k - 1], actions[k - 1]) == Some(states[k - 1 + 1]);
      WriteKeepsNoLoopIff(states[k - 1], actions[k - 1]);
    }
  }

  ghost predicate TeamIs(s: OrgState, boss: UserId, t: OrgState) {
    forall u :: IsAbove(ChartOf(s.people), boss, u) <==> IsAbove(ChartOf(t.people), boss, u)
  }

  /** Whoever this write moves ends up in the boss's team, as it is by then, exactly if they were in it. */
  ghost predicate WritesWithinTeam(s: OrgState, a: OrgAction, boss: UserId) {
    a.Write? && a.pid in s.passed && CanCommit(s.people, {}, s.passed[a.pid], []) ==>
      forall m :: m in MovedIds(s.passed[a.pid]) ==>
        (IsAbove(ChartOf(s.people), boss, m) <==>
         MovedIntoTeam(ChartOf(s.people), Moved(ChartOf(s.people), s.passed[a.pid]), boss, m))
  }

  lemma WriteKeepsTeamIff(s: OrgState, a: OrgAction, boss: UserId)
    requires OrgStep(s, a).Some? && NoLoop(OrgStep(s, a).value)
    ensures TeamIs(s, boss, OrgStep(s, a).value) <==> WritesWithinTeam(s, a, boss)
  {
    hide Acyclic, LoopFreeFrom, Passes, IsAbove, MovedIntoTeam;
    if a.Write? && CanCommit(s.people, {}, s.passed[a.pid], []) {
      var moves := s.passed[a.pid];
      MovedMeans(ChartOf(s.people), moves);
      assert ChartOf(OrgStep(s, a).value.people) == Moved(ChartOf(s.people), moves);
      TeamUnchangedIff(ChartOf(s.people), Moved(ChartOf(s.people), moves), MovedIds(moves), boss);
    }
  }

  /**
   However batches overlap, as long as no loop arises: the people below someone never change exactly when every
   write keeps within them.
  */
  lemma BatchesKeepTeamIff(states: seq<OrgState>, actions: seq<OrgAction>, boss: UserId)
    requires OrgRun(states, actions) && forall i :: 0 <= i < |states| ==> NoLoop(states[i])
    ensures (forall i :: 0 <= i < |states| ==> TeamIs(states[0], boss, states[i]))
            <==> forall i :: 0 <= i < |actions| ==> WritesWithinTeam(states[i], actions[i], boss)
  {
    hide NoLoop, WritesWithinTeam, OrgStep, IsAbove;
    if forall i :: 0 <= i < |states| ==> TeamIs(states[0], boss, states[i]) {
      forall i | 0 <= i < |actions| ensures WritesWithinTeam(states[i], actions[i], boss) {
        assert NoLoop(states[i + 1]) && TeamIs(states[0], boss, states[i]) && TeamIs(states[0], boss, states[i + 1]);
        WriteKeepsTeamIff(states[i], actions[i], boss);
      }
    }
    if forall i :: 0 <= i < |actions| ==> WritesWithinTeam(states[i], actions[i], boss) {
      forall i | 0 <= i < |states| ensures TeamIs(states[0], boss, states[i]) { SameTeamYet(states, actions, boss, i); }
    }
  }

  lemma {:induction false} SameTeamYet(states: seq<OrgState>, actions: seq<OrgAction>, boss: UserId, k: nat)
    requires OrgRun(states, actions) && (forall i :: 0 <= i < |states| ==> NoLoop(states[i])) && k < |states|
    requires forall i :: 0 <= i < |actions| ==> WritesWithinTeam(states[i], actions[i], boss)
    ensures TeamIs(states[0], boss, states[k])
    decreases k
  {
    hide NoLoop, WritesWithinTeam, OrgStep, IsAbove;
    if k > 0 {
      SameTeamYet(states, actions, boss, k - 1);
      assert OrgStep(states[k - 1], actions[k - 1]) == Some(states[k - 1 + 1]) && NoLoop(states[k]);
      WriteKeepsTeamIff(states[k - 1], actions[k - 1], boss);
    }
  }

  /** Two people, each about to be put below the other. */
  const TWO_PEOPLE: People := map[1 := Person(Manager, true, None), 2 := Person(Manager, true, None)]

  const FIRST_BELOW_SECOND: seq<Move> := [Move(1, Some(2), None)]

  const SECOND_BELOW_FIRST: seq<Move> := [Move(2, Some(1), None)]

  lemma MoveOne(m: Move)
    ensures Moved(ChartOf(TWO_PEOPLE), [m]) == ChartOf(TWO_PEOPLE)[m.userId := m.supervisorId]
    ensures MovedIds([m]) == {m.userId}
  {
    assert [m][..0] == [];
  }

  /** Either batch passes its checks on the chart as it is. */
  lemma EitherPasses(actor: Actor, x: UserId, y: UserId)
    requires {x, y} == {1, 2} && actor.role == Admin
    ensures Passes(TWO_PEOPLE, actor, [Move(x, Some(y), None)])
  {
    hide Moved, MovedIds, Acyclic, LoopFreeFrom;
    var chart, moves := ChartOf(TWO_PEOPLE), [Move(x, Some(y), None)];
    MoveOne(moves[0]);
    assert Reports(chart) == {};
    assert Reports(chart[x := Some(y)]) == {} + {(x, y)};
    assert ManageableIs(TWO_PEOPLE, actor, None);
    assert FirstRefusal(TWO_PEOPLE, actor.id, None, moves).None?;
    EndsAbove(chart[x := Some(y)], x, y);
  }

  /** Someone whose supervisor has none is on no loop, nor below one. */
  lemma EndsAbove(chart: Chart, x: UserId, y: UserId)
    requires x in chart && chart[x] == Some(y) && x != y && IsTop(chart, y)
    ensures LoopFreeFrom(Reports(chart), x)
  {
    EndedTrailIsLoopFree(chart, [x, y]);
  }

  /** The chart after one of the batches, and after both. */
  lemma AfterTheFirst()
    ensures ChartOf(AFTER_FIRST) == Moved(ChartOf(TWO_PEOPLE), FIRST_BELOW_SECOND)
    ensures ChartOf(AFTER_BOTH) == Moved(ChartOf(AFTER_FIRST), SECOND_BELOW_FIRST)
    ensures !Acyclic(Reports(ChartOf(AFTER_BOTH))) && Acyclic(Reports(ChartOf(TWO_PEOPLE)))
  {
    assert FIRST_BELOW_SECOND[..0] == [] && SECOND_BELOW_FIRST[..0] == [];
    var e := Reports(ChartOf(AFTER_BOTH));
    EdgeReaches(e, 1, 2);
    EdgeReaches(e, 2, 1);
    ReachesTrans(e, 1, 2, 1);
    forall u ensures !StrictlyReaches(Reports(ChartOf(TWO_PEOPLE)), u, u) {
      if StrictlyReaches(Reports(ChartOf(TWO_PEOPLE)), u, u) { var v := FirstStep(Reports(ChartOf(TWO_PEOPLE)), u, u); }
    }
  }

  const AFTER_FIRST: People := TWO_PEOPLE[1 := Person(Manager, true, Some(2))]

  const AFTER_BOTH: People := AFTER_FIRST[2 := Person(Manager, true, Some(1))]

  lemma WriteStep(s: OrgState, pid: Pid, after: People)
    requires pid in s.passed && CanCommit(s.people, {}, s.passed[pid], [])
    requires ChartOf(after) == Moved(ChartOf(s.people), s.passed[pid]) && after.Keys == s.people.Keys
    requires forall u :: u in after ==> after[u] == s.people[u].(supervisor := after[u].supervisor)
    ensures OrgStep(s, Write(pid)) == Some(OrgState(after, s.passed - {pid}))
  {
    hide Moved;
    MovedKeys(ChartOf(s.people), s.passed[pid]);
    assert Supervised(s.people, Moved(ChartOf(s.people), s.passed[pid])) == after;
  }

  lemma PassStep(s: OrgState, pid: Pid, actor: Actor, moves: seq<Move>)
    requires pid !in s.passed && Passes(s.people, actor, moves)
    ensures OrgStep(s, PassCheck(pid, actor, moves)) == Some(OrgState(s.people, s.passed[pid := moves]))
  {
    hide Passes;
  }

  lemma BothCanBeWritten()
    ensures CanCommit(TWO_PEOPLE, {}, FIRST_BELOW_SECOND, []) && CanCommit(AFTER_FIRST, {}, SECOND_BELOW_FIRST, [])
    ensures TWO_PEOPLE.Keys == AFTER_FIRST.Keys == AFTER_BOTH.Keys
    ensures forall u :: u in AFTER_FIRST ==> AFTER_FIRST[u] == TWO_PEOPLE[u].(supervisor := AFTER_FIRST[u].supervisor)
    ensures forall u :: u in AFTER_BOTH ==> AFTER_BOTH[u] == AFTER_FIRST[u].(supervisor := AFTER_BOTH[u].supervisor)
  {}

  lemma BothChecked(first: Actor, second: Actor)
    requires first.role == second.role == Admin
    ensures Passes(TWO_PEOPLE, first, FIRST_BELOW_SECOND) && Passes(TWO_PEOPLE, second, SECOND_BELOW_FIRST)
  {
    hide Passes;
    EitherPasses(first, 1, 2);
    EitherPasses(second, 2, 1);
  }

  lemma LoopsAre(s: OrgState)
    ensures NoLoop(s) <==> Acyclic(Reports(ChartOf(s.people)))
  {}

  lemma FourSteps(states: seq<OrgState>, actions: seq<OrgAction>)
    requires |states| == 5 && |actions| == 4
    requires OrgStep(states[0], actions[0]) == Some(states[1]) && OrgStep(states[1], actions[1]) == Some(states[2])
    requires OrgStep(states[2], actions[2]) == Some(states[3]) && OrgStep(states[3], actions[3]) == Some(states[4])
    ensures OrgRun(states, actions)
  {
    hide OrgStep;
  }

  /** Both pass, both are written, and the chart has a loop. */
  lemma TwoBatchesCloseALoop(first: Actor, second: Actor) returns (states: seq<OrgState>, actions: seq<OrgAction>)
    requires first.role == second.role == Admin
    ensures OrgRun(states, actions) && NoLoop(states[0]) && !NoLoop(states[|actions|])
    ensures actions == [PassCheck(1, first, FIRST_BELOW_SECOND), PassCheck(2, second, SECOND_BELOW_FIRST), Write(1),
                        Write(2)]
  {
    hide *;
    AfterTheFirst();
    BothChecked(first, second);
    BothCanBeWritten();
    var s0 := OrgState(TWO_PEOPLE, map[]);
    PassStep(s0, 1, first, FIRST_BELOW_SECOND);
    var s1 := OrgState(TWO_PEOPLE, map[1 := FIRST_BELOW_SECOND]);
    PassStep(s1, 2, second, SECOND_BELOW_FIRST);
    var s2 := OrgState(TWO_PEOPLE, s1.passed[2 := SECOND_BELOW_FIRST]);
    WriteStep(s2, 1, AFTER_FIRST);
    var s3 := OrgState(AFTER_FIRST, s2.passed - {1});
    WriteStep(s3, 2, AFTER_BOTH);
    var s4 := OrgState(AFTER_BOTH, s3.passed - {2});
    actions := [PassCheck(1, first, FIRST_BELOW_SECOND), PassCheck(2, second, SECOND_BELOW_FIRST), Write(1), Write(2)];
    states := [s0, s1, s2, s3, s4];
    FourSteps(states, actions);
    LoopsAre(s0);
    LoopsAre(s4);
  }

  // ----- A team left by its own head's batch -----

  /** Two people below one manager. */
  const TEAM: People :=
    map[1 := Person(Manager, true, None), 2 := Person(Manager, true, Some(1)), 3 := Person(Member, true, Some(1))]

  /** The manager puts 3 below 2; an administrator takes 2 out of the team. */
  const WITHIN: seq<Move> := [Move(3, Some(2), Some(1))]

  const OUT: seq<Move> := [Move(2, None, Some(1))]

  const WITHOUT_SECOND: People := TEAM[2 := Person(Manager, true, None)]

  const WITHOUT_BOTH: People := WITHOUT_SECOND[3 := Person(Member, true, Some(2))]

  lemma {:induction false} WalksDown(e: set<(UserId, UserId)>, a: UserId, b: UserId, n: nat)
    requires (forall x, y :: (x, y) in e ==> y < x) && Walk(e, a, b, n)
    ensures b <= a && (n > 0 ==> b < a)
    decreases n
  {
    if n > 0 {
      var c :| (a, c) in e && Walk(e, c, b, n - 1);
      WalksDown(e, c, b, n - 1);
    }
  }

  /** Nobody is above themselves where supervisors have smaller ids. */
  lemma SmallerAbove(chart: Chart)
    requires forall u :: u in chart && chart[u].Some? ==> chart[u].value < u
    ensures Acyclic(Reports(chart))
  {
    var e := Reports(chart);
    forall u ensures !StrictlyReaches(e, u, u) {
      if StrictlyReaches(e, u, u) {
        var c := FirstStep(e, u, u);
        var n: nat :| Walk(e, c, u, n);
        WalksDown(e, c, u, n);
      }
    }
  }

  lemma TeamsHaveNoLoop()
    ensures Acyclic(Reports(ChartOf(TEAM))) && Acyclic(Reports(ChartOf(WITHOUT_SECOND)))
    ensures Acyclic(Reports(ChartOf(WITHOUT_BOTH)))
  {
    hide Acyclic, Reports;
    SmallerAbove(ChartOf(TEAM));
    SmallerAbove(ChartOf(WITHOUT_SECOND));
    SmallerAbove(ChartOf(WITHOUT_BOTH));
  }

  /** Who is below the manager at first, and after each write. */
  lemma TeamsAre()
    ensures forall u :: u in {2, 3} <==> IsAbove(ChartOf(TEAM), 1, u)
    ensures IsAbove(ChartOf(WITHOUT_SECOND), 1, 3) && !IsAbove(ChartOf(WITHOUT_BOTH), 1, 3)
  {
    var e := Reports(ChartOf(TEAM));
    EdgeReaches(e, 2, 1);
    EdgeReaches(e, 3, 1);
    EdgeReaches(Reports(ChartOf(WITHOUT_SECOND)), 3, 1);
    forall u | IsAbove(ChartOf(TEAM), 1, u) ensures u in {2, 3} {
      var c := FirstStep(e, u, 1);
    }
    if IsAbove(ChartOf(WITHOUT_BOTH), 1, 3) {
      ClosedNotReached(Reports(ChartOf(WITHOUT_BOTH)), {2, 3}, 3, 1);
    }
  }

  lemma BatchesMove()
    ensures Moved(ChartOf(TEAM), OUT) == ChartOf(WITHOUT_SECOND) && MovedIds(OUT) == {2}
    ensures Moved(ChartOf(TEAM), WITHIN) == ChartOf(TEAM)[3 := Some(2)] && MovedIds(WITHIN) == {3}
    ensures Moved(ChartOf(WITHOUT_SECOND), WITHIN) == ChartOf(WITHOUT_BOTH)
  {
    assert OUT[..0] == [] && WITHIN[..0] == [];
  }

  lemma BothTeamBatchesPass(admin: Actor)
    requires admin.role == Admin
    ensures Passes(TEAM, Actor(1, Manager), WITHIN) && Passes(TEAM, admin, OUT)
  {
    hide Moved, MovedIds, Acyclic, LoopFreeFrom, IsAbove;
    BatchesMove();
    TeamsAre();
    assert ManageableIs(TEAM, Actor(1, Manager), Some({2, 3})) && ManageableIs(TEAM, admin, None);
    assert FirstRefusal(TEAM, 1, Some({2, 3}), WITHIN).None? && FirstRefusal(TEAM, admin.id, None, OUT).None?;
    EndedTrailIsLoopFree(ChartOf(TEAM)[3 := Some(2)], [3, 2, 1]);
    EndedTrailIsLoopFree(ChartOf(WITHOUT_SECOND), [2]);
  }

  lemma TeamBatchesCanBeWritten()
    ensures CanCommit(TEAM, {}, OUT, []) && CanCommit(WITHOUT_SECOND, {}, WITHIN, [])
    ensures TEAM.Keys == WITHOUT_SECOND.Keys == WITHOUT_BOTH.Keys
    ensures forall u :: u in WITHOUT_SECOND ==>
              WITHOUT_SECOND[u] == TEAM[u].(supervisor := WITHOUT_SECOND[u].supervisor)
    ensures forall u :: u in WITHOUT_BOTH ==>
              WITHOUT_BOTH[u] == WITHOUT_SECOND[u].(supervisor := WITHOUT_BOTH[u].supervisor)
  {}

  /** A batch that kept within the manager's team when it was checked moves someone out of it when it is written. */
  lemma AManagersBatchLosesAMember(admin: Actor) returns (states: seq<OrgState>, actions: seq<OrgAction>)
    requires admin.role == Admin
    ensures OrgRun(states, actions) && forall i :: 0 <= i < |states| ==> NoLoop(states[i])
    ensures actions == [PassCheck(1, Actor(1, Manager), WITHIN), PassCheck(2, admin, OUT), Write(2), Write(1)]
    ensures IsAbove(ChartOf(states[3].people), 1, 3) && !IsAbove(ChartOf(states[4].people), 1, 3)
    ensures !WritesWithinTeam(states[3], actions[3], 1)
  {
    hide *;
    BatchesMove();
    BothTeamBatchesPass(admin);
    TeamBatchesCanBeWritten();
    TeamsHaveNoLoop();
    TeamsAre();
    var s0 := OrgState(TEAM, map[]);
    PassStep(s0, 1, Actor(1, Manager), WITHIN);
    var s1 := OrgState(TEAM, map[1 := WITHIN]);
    PassStep(s1, 2, admin, OUT);
    var s2 := OrgState(TEAM, s1.passed[2 := OUT]);
    WriteStep(s2, 2, WITHOUT_SECOND);
    var s3 := OrgState(WITHOUT_SECOND, s2.passed - {2});
    WriteStep(s3, 1, WITHOUT_BOTH);
    var s4 := OrgState(WITHOUT_BOTH, s3.passed - {1});
    actions := [PassCheck(1, Actor(1, Manager), WITHIN), PassCheck(2, admin, OUT), Write(2), Write(1)];
    states := [s0, s1, s2, s3, s4];
    FourSteps(states, actions);
    forall i | 0 <= i < |states| ensures NoLoop(states[i]) { LoopsAre(states[i]); }
    WriteKeepsTeamIff(s3, Write(1), 1);
    TeamMeans(s3, 1, s4, 3);
  }

  lemma TeamMeans(s: OrgState, boss: UserId, t: OrgState, u: UserId)
    ensures TeamIs(s, boss, t) ==> (IsAbove(ChartOf(s.people), boss, u) <==> IsAbove(ChartOf(t.people), boss, u))
  {}
}
