/**
 Task-level access: the per-task decision, the batch scope reused across a whole list, and the proof
 that they agree. The recursive SQL queries are modelled by the fixpoint they compute over the
 parent column; neither the org chart nor the task tree is assumed acyclic.
 */
module TaskAccess {
  import opened Wrappers
  import opened Entities
  import opened Graphs
  import opened OrgChart

  datatype Role = Admin | Manager | Member

  datatype Actor = Actor(id: UserId, role: Role)

  datatype Level = Full | Comment | Tree

  datatype Task = Task(assignee: Option<UserId>, isPrivate: bool, parent: Option<TaskId>)

  /** The tables an access decision reads; mentions pairs a user with each task whose comments mention them. */
  datatype Db = Db(chart: Chart, tasks: map<TaskId, Task>, mentions: set<(UserId, TaskId)>)

  ghost function Parents(db: Db): (e: set<(TaskId, TaskId)>)
    ensures forall a, b :: (a, b) in e <==> a in db.tasks && db.tasks[a].parent == Some(b)
  {
    set a | a in db.tasks && db.tasks[a].parent.Some? :: (a, db.tasks[a].parent.value)
  }

  // ----- The rules, as the product states them -----

  /** Assignee, or someone above the assignee. */
  ghost predicate Owns(db: Db, user: UserId, t: TaskId) {
    t in db.tasks && db.tasks[t].assignee.Some? &&
    var a := db.tasks[t].assignee.value; a == user || IsAbove(db.chart, user, a)
  }

  ghost predicate MentionedOn(db: Db, user: UserId, t: TaskId) {
    t in db.tasks && !db.tasks[t].isPrivate && (user, t) in db.mentions
  }

  /** Some proper ancestor is owned, private or not. */
  ghost predicate InheritsDown(db: Db, user: UserId, t: TaskId) {
    exists a :: Owns(db, user, a) && StrictlyReaches(Parents(db), t, a)
  }

  /** Some proper descendant is owned or carries a mention. */
  ghost predicate InheritsUp(db: Db, user: UserId, t: TaskId) {
    exists d :: (Owns(db, user, d) || MentionedOn(db, user, d)) && StrictlyReaches(Parents(db), d, t)
  }

  ghost function AccessLevel(db: Db, actor: Actor, t: TaskId): Option<Level>
    requires t in db.tasks
  {
    if actor.role == Admin || Owns(db, actor.id, t) then Some(Full)
    else if db.tasks[t].isPrivate then None
    else if MentionedOn(db, actor.id, t) then Some(Comment)
    else if InheritsDown(db, actor.id, t) || InheritsUp(db, actor.id, t) then Some(Tree)
    else None
  }

  // ----- The recursive queries -----

  ghost predicate BelowSome(db: Db, seeds: set<TaskId>, t: TaskId) {
    exists s :: s in seeds && StrictlyReaches(Parents(db), t, s)
  }

  ghost predicate AboveSome(db: Db, seeds: set<TaskId>, t: TaskId) {
    exists s :: s in seeds && StrictlyReaches(Parents(db), s, t)
  }

  /** The rows whose parentId is one of these. */
  function ChildrenOf(db: Db, rows: set<TaskId>): (cs: set<TaskId>)
    ensures forall c :: c in cs <==> exists p :: p in rows && (c, p) in Parents(db)
    ensures cs <= db.tasks.Keys
  {
    set c | c in db.tasks && db.tasks[c].parent.Some? && db.tasks[c].parent.value in rows
  }

  /** The non-null parentId of each of these rows. */
  function ParentsOf(db: Db, rows: set<TaskId>): (ps: set<TaskId>)
    ensures forall p :: p in ps <==> exists c :: c in rows && (c, p) in Parents(db)
  {
    var ps := set c | c in rows && c in db.tasks && db.tasks[c].parent.Some? :: db.tasks[c].parent.value;
    assert forall c :: c in rows && c in db.tasks && db.tasks[c].parent.Some? ==> db.tasks[c].parent.value in ps;
    ps
  }

  lemma NextLevelBelow(db: Db, seeds: set<TaskId>, level: set<TaskId>)
    requires level <= seeds || forall t :: t in level ==> BelowSome(db, seeds, t)
    ensures forall t :: t in ChildrenOf(db, level) ==> BelowSome(db, seeds, t)
  {
    forall t | t in ChildrenOf(db, level) ensures BelowSome(db, seeds, t) {
      var p :| p in level && (t, p) in Parents(db);
      EdgeReaches(Parents(db), t, p);
      if !(level <= seeds) {
        var s :| s in seeds && StrictlyReaches(Parents(db), p, s);
        assert Reaches(Parents(db), p, s);
        ReachesTrans(Parents(db), t, p, s);
      }
    }
  }

  lemma NextLevelAbove(db: Db, seeds: set<TaskId>, level: set<TaskId>)
    requires level <= seeds || forall t :: t in level ==> AboveSome(db, seeds, t)
    ensures forall t :: t in ParentsOf(db, level) ==> AboveSome(db, seeds, t)
  {
    forall t | t in ParentsOf(db, level) ensures AboveSome(db, seeds, t) {
      var c :| c in level && (c, t) in Parents(db);
      EdgeReaches(Parents(db), c, t);
      if !(level <= seeds) {
        var s :| s in seeds && StrictlyReaches(Parents(db), s, c);
        assert Reaches(Parents(db), s, c);
        ReachesTrans(Parents(db), s, c, t);
      }
    }
  }

  lemma BelowComplete(db: Db, seeds: set<TaskId>, d: set<TaskId>)
    requires ChildrenOf(db, seeds + d) <= d
    ensures forall t :: BelowSome(db, seeds, t) ==> t in d
  {
    var e := Parents(db);
    forall t | BelowSome(db, seeds, t) ensures t in d {
      var s :| s in seeds && StrictlyReaches(e, t, s);
      var c := FirstStep(e, t, s);
      var n: nat :| Walk(e, c, s, n);
      assert forall x, y :: (x, y) in e && y in seeds + d ==> x in ChildrenOf(db, seeds + d);
      BackClosedWalk(e, seeds + d, c, s, n);
    }
  }

  lemma AboveComplete(db: Db, seeds: set<TaskId>, a: set<TaskId>)
    requires ParentsOf(db, seeds + a) <= a
    ensures forall t :: AboveSome(db, seeds, t) ==> t in a
  {
    var e := Parents(db);
    forall t | AboveSome(db, seeds, t) ensures t in a {
      var s :| s in seeds && StrictlyReaches(e, s, t);
      var c := FirstStep(e, s, t);
      var n: nat :| Walk(e, c, t, n);
      assert forall x, y :: (x, y) in e && x in seeds + a ==> y in ParentsOf(db, seeds + a);
      ClosedWalk(e, a, c, t, n);
    }
  }

  /** WITH RECURSIVE ... UNION over children: every task strictly below a seed. */
  method RecursiveBelow(db: Db, seeds: set<TaskId>) returns (d: set<TaskId>)
    ensures forall t :: t in d <==> BelowSome(db, seeds, t)
  {
    NextLevelBelow(db, seeds, seeds);
    d := {};
    var working := ChildrenOf(db, seeds);
    while working != {}
      invariant d !! working && d + working <= db.tasks.Keys
      invariant forall t :: t in d ==> BelowSome(db, seeds, t)
      invariant forall t :: t in working ==> BelowSome(db, seeds, t)
      invariant ChildrenOf(db, seeds + d) <= d + working
      decreases db.tasks.Keys - d
    {
      NextLevelBelow(db, seeds, working);
      assert ChildrenOf(db, seeds + (d + working)) <= ChildrenOf(db, seeds + d) + ChildrenOf(db, working);
      d := d + working;
      working := ChildrenOf(db, working) - d;
    }
    BelowComplete(db, seeds, d);
  }

  /** WITH RECURSIVE ... UNION over parents: every task strictly above a seed. */
  method RecursiveAbove(db: Db, seeds: set<TaskId>) returns (a: set<TaskId>)
    ensures forall t :: t in a <==> AboveSome(db, seeds, t)
  {
    ghost var universe := ParentsOf(db, db.tasks.Keys);
    NextLevelAbove(db, seeds, seeds);
    a := {};
    var working := ParentsOf(db, seeds);
    while working != {}
      invariant a !! working && a + working <= universe
      invariant forall t :: t in a ==> AboveSome(db, seeds, t)
      invariant forall t :: t in working ==> AboveSome(db, seeds, t)
      invariant ParentsOf(db, seeds + a) <= a + working
      decreases universe - a
    {
      NextLevelAbove(db, seeds, working);
      assert ParentsOf(db, seeds + (a + working)) <= ParentsOf(db, seeds + a) + ParentsOf(db, working);
      a := a + working;
      working := ParentsOf(db, working) - a;
    }
    AboveComplete(db, seeds, a);
  }

  // ----- One task -----

  method HasDownwardTreeAccess(db: Db, fullIds: set<UserId>, t: TaskId) returns (b: bool)
    requires t in db.tasks
    ensures b <==> exists a :: a in db.tasks && db.tasks[a].assignee.Some? && db.tasks[a].assignee.value in fullIds
                              && StrictlyReaches(Parents(db), t, a)
  {
    var above := RecursiveAbove(db, {t});
    assert forall a :: a in above <==> StrictlyReaches(Parents(db), t, a);
    b := exists a :: a in above && a in db.tasks && db.tasks[a].assignee.Some? && db.tasks[a].assignee.value in fullIds;
  }

  method HasUpwardTreeAccess(db: Db, actorId: UserId, fullIds: set<UserId>, t: TaskId) returns (b: bool)
    requires t in db.tasks
    ensures b <==> exists d :: d in db.tasks && StrictlyReaches(Parents(db), d, t)
                              && ((db.tasks[d].assignee.Some? && db.tasks[d].assignee.value in fullIds)
                                  || MentionedOn(db, actorId, d))
  {
    var below := RecursiveBelow(db, {t});
    assert forall d :: d in below <==> StrictlyReaches(Parents(db), d, t);
    b := exists d :: d in below && d in db.tasks
                     && ((db.tasks[d].assignee.Some? && db.tasks[d].assignee.value in fullIds)
                         || (!db.tasks[d].isPrivate && (actorId, d) in db.mentions));
  }

  method FullIds(db: Db, actorId: UserId) returns (ids: set<UserId>)
    ensures forall t :: Owns(db, actorId, t) <==>
              t in db.tasks && db.tasks[t].assignee.Some? && db.tasks[t].assignee.value in ids
  {
    var downline := GetDownlineIds(db.chart, actorId);
    ids := {actorId} + set u | u in downline;
  }

  /** The task is assigned to this person, or to somebody below them. */
  ghost predicate TheirOwn(db: Db, user: UserId, t: TaskId) {
    exists a :: t in db.tasks && db.tasks[t].assignee == Some(a) && (a == user || IsAbove(db.chart, user, a))
  }

  /** A task above that is theirs; or one below that is theirs, or an open one on which they are mentioned. */
  ghost predicate HasRelative(db: Db, user: UserId, t: TaskId) {
    exists r :: r in db.tasks &&
                ((StrictlyReaches(Parents(db), t, r) && TheirOwn(db, user, r))
                 || (StrictlyReaches(Parents(db), r, t)
                     && (TheirOwn(db, user, r) || (!db.tasks[r].isPrivate && (user, r) in db.mentions))))
  }

  /** The four outcomes, in the words of the product. */
  ghost predicate LevelIs(db: Db, actor: Actor, t: TaskId, level: Option<Level>)
    requires t in db.tasks
  {
    var own, open := actor.role == Admin || TheirOwn(db, actor.id, t), !db.tasks[t].isPrivate;
    var mentioned := (actor.id, t) in db.mentions;
    && (level == Some(Full) <==> own)
    && (level == Some(Comment) <==> !own && open && mentioned)
    && (level == Some(Tree) <==> !own && open && !mentioned && HasRelative(db, actor.id, t))
    && (level == None <==> !own && (!open || (!mentioned && !HasRelative(db, actor.id, t))))
  }

  lemma LevelInWords(db: Db, actor: Actor, t: TaskId)
    requires t in db.tasks
    ensures LevelIs(db, actor, t, AccessLevel(db, actor, t))
  {
    hide StrictlyReaches, IsAbove;
    forall r ensures TheirOwn(db, actor.id, r) <==> Owns(db, actor.id, r) {}
    hide TheirOwn, Owns;
    RelativesInWords(db, actor.id, t);
  }

  lemma RelativesInWords(db: Db, user: UserId, t: TaskId)
    requires forall r :: TheirOwn(db, user, r) <==> Owns(db, user, r)
    ensures HasRelative(db, user, t) <==> InheritsDown(db, user, t) || InheritsUp(db, user, t)
  {
    hide StrictlyReaches, IsAbove;
    if r :| Owns(db, user, r) && StrictlyReaches(Parents(db), t, r) { assert r in db.tasks; }
    if r :| (Owns(db, user, r) || MentionedOn(db, user, r)) && StrictlyReaches(Parents(db), r, t) {
      assert r in db.tasks;
    }
  }

  method ComputeTaskAccess(db: Db, actor: Actor, t: TaskId) returns (level: Option<Level>)
    requires t in db.tasks
    ensures level == AccessLevel(db, actor, t) && LevelIs(db, actor, t, level)
  {
    LevelInWords(db, actor, t);
    hide LevelIs;
    if actor.role == Admin { return Some(Full); }
    if db.tasks[t].assignee == Some(actor.id) { return Some(Full); }
    var above := IsInSupervisorChain(db.chart, actor.id, db.tasks[t].assignee);
    if above { return Some(Full); }
    if db.tasks[t].isPrivate { return None; }
    if (actor.id, t) in db.mentions { return Some(Comment); }
    var fullIds := FullIds(db, actor.id);
    var down := HasDownwardTreeAccess(db, fullIds, t);
    if down { return Some(Tree); }
    var up := HasUpwardTreeAccess(db, actor.id, fullIds, t);
    if up { return Some(Tree); }
    return None;
  }

  // ----- A whole list at once -----

  datatype Scope = Scope(isAdmin: bool, fullIds: Option<set<UserId>>, fullTaskIds: set<TaskId>,
                         mentionIds: set<TaskId>, treeIds: set<TaskId>)

  /** What the batch scope holds: upward seeds include the downward-inherited tasks themselves. */
  ghost predicate IsScopeOf(scope: Scope, db: Db, actor: Actor) {
    if actor.role == Admin then
      scope == Scope(true, None, {}, {}, {})
    else
      && !scope.isAdmin
      && scope.fullIds.Some?
      && (forall u :: u in scope.fullIds.value <==> u == actor.id || IsAbove(db.chart, actor.id, u))
      && (forall t :: t in scope.fullTaskIds <==> Owns(db, actor.id, t))
      && (forall t :: t in scope.mentionIds <==> MentionedOn(db, actor.id, t))
      && (forall t :: t in scope.treeIds <==> InTree(db, actor.id, t))
  }

  ghost predicate InheritedOpen(db: Db, user: UserId, t: TaskId) {
    t in db.tasks && !db.tasks[t].isPrivate && InheritsDown(db, user, t)
  }

  ghost predicate UpSeed(db: Db, user: UserId, t: TaskId) {
    Owns(db, user, t) || MentionedOn(db, user, t) || InheritedOpen(db, user, t)
  }

  ghost predicate InTree(db: Db, user: UserId, t: TaskId) {
    t in db.tasks && !db.tasks[t].isPrivate &&
    (InheritsDown(db, user, t) || exists d :: UpSeed(db, user, d) && StrictlyReaches(Parents(db), d, t))
  }

  lemma InheritedAreBelow(db: Db, user: UserId, owned: set<TaskId>, below: set<TaskId>)
    requires forall t :: t in owned <==> Owns(db, user, t)
    requires forall t :: t in below <==> BelowSome(db, owned, t)
    ensures forall t :: InheritedOpen(db, user, t) <==> t in below && t in db.tasks && !db.tasks[t].isPrivate
  {
    hide Owns, StrictlyReaches;
  }

  lemma TreeIsDownAndUp(db: Db, user: UserId, seeds: set<TaskId>, above: set<TaskId>)
    requires forall t :: t in seeds <==> UpSeed(db, user, t)
    requires forall t :: t in above <==> AboveSome(db, seeds, t)
    ensures forall t ::
              InTree(db, user, t)
              <==> InheritedOpen(db, user, t) || (t in above && t in db.tasks && !db.tasks[t].isPrivate)
  {
    hide UpSeed, StrictlyReaches, InheritsDown;
  }

  method GetTaskAccessScope(db: Db, actor: Actor) returns (scope: Scope)
    ensures IsScopeOf(scope, db, actor)
  {
    hide InheritedOpen, InTree, BelowSome, AboveSome;
    if actor.role == Admin { return Scope(true, None, {}, {}, {}); }
    var downline := GetDownlineIds(db.chart, actor.id);
    var fullIds := {actor.id} + set u | u in downline;
    var fullTaskIds := set t | t in db.tasks && db.tasks[t].assignee.Some? && db.tasks[t].assignee.value in fullIds;
    var mentionIds := set t | t in db.tasks && !db.tasks[t].isPrivate && (actor.id, t) in db.mentions;
    var below := RecursiveBelow(db, fullTaskIds);
    var down := set t | t in below && t in db.tasks && !db.tasks[t].isPrivate;
    InheritedAreBelow(db, actor.id, fullTaskIds, below);
    var upSeed := fullTaskIds + mentionIds + down;
    var above := RecursiveAbove(db, upSeed);
    var up := set t | t in above && t in db.tasks && !db.tasks[t].isPrivate;
    TreeIsDownAndUp(db, actor.id, upSeed, above);
    scope := Scope(false, Some(fullIds), fullTaskIds, mentionIds, down + up);
  }

  function ScopeTaskLevel(scope: Scope, t: TaskId): Option<Level> {
    if scope.isAdmin || t in scope.fullTaskIds then Some(Full)
    else if t in scope.mentionIds then Some(Comment)
    else if t in scope.treeIds then Some(Tree)
    else None
  }

  predicate IsTaskVisible(scope: Scope, t: TaskId) {
    scope.isAdmin || t in scope.fullTaskIds || t in scope.mentionIds || t in scope.treeIds
  }

  /** The rows the access predicate of a list query selects. */
  predicate AccessWhere(scope: Scope, includeReadOnly: bool, t: TaskId, task: Task) {
    || scope.isAdmin || scope.fullIds.None?
    || (task.assignee.Some? && task.assignee.value in scope.fullIds.value)
    || (includeReadOnly && (t in scope.mentionIds || t in scope.treeIds))
  }

  /**
   Seeding ancestors from downward-inherited tasks as well adds nothing: the owned ancestor of
   such a task is comparable with any other ancestor of it.
   */
  lemma WiderSeedAddsNothing(db: Db, user: UserId, t: TaskId)
    requires t in db.tasks && !db.tasks[t].isPrivate && !Owns(db, user, t)
    ensures InTree(db, user, t) <==> InheritsDown(db, user, t) || InheritsUp(db, user, t)
  {
    var e := Parents(db);
    if d :| UpSeed(db, user, d) && StrictlyReaches(e, d, t) {
      if !Owns(db, user, d) && !MentionedOn(db, user, d) {
        var f :| Owns(db, user, f) && StrictlyReaches(e, d, f);
        ReachedAreComparable(e, d, t, f);
        if Reaches(e, t, f) { StrictUnlessSame(e, t, f); } else { StrictUnlessSame(e, f, t); }
      }
    }
  }

  /** The batch level of a task is its per-task level, on all four outcomes. */
  lemma ScopeAgrees(db: Db, actor: Actor, scope: Scope, t: TaskId)
    requires t in db.tasks && IsScopeOf(scope, db, actor)
    ensures ScopeTaskLevel(scope, t) == AccessLevel(db, actor, t)
    ensures IsTaskVisible(scope, t) <==> AccessLevel(db, actor, t).Some?
  {
    if actor.role != Admin && !Owns(db, actor.id, t) && !db.tasks[t].isPrivate {
      WiderSeedAddsNothing(db, actor.id, t);
    }
  }

  /** With read-only rows a list shows exactly the visible tasks; without them, exactly the editable ones. */
  lemma ListShowsExactlyTheVisible(db: Db, actor: Actor, scope: Scope, t: TaskId)
    requires t in db.tasks && IsScopeOf(scope, db, actor)
    ensures AccessWhere(scope, true, t, db.tasks[t]) <==> AccessLevel(db, actor, t).Some?
    ensures AccessWhere(scope, false, t, db.tasks[t]) <==> AccessLevel(db, actor, t) == Some(Full)
  {
    ScopeAgrees(db, actor, scope, t);
  }

  /** A private task is open to no one beyond an admin, its assignee and the people above them. */
  lemma PrivateOverridesInheritance(db: Db, actor: Actor, t: TaskId)
    requires t in db.tasks && db.tasks[t].isPrivate && actor.role != Admin && !Owns(db, actor.id, t)
    ensures forall scope :: IsScopeOf(scope, db, actor) ==>
              !IsTaskVisible(scope, t) && !AccessWhere(scope, true, t, db.tasks[t])
  {
    forall scope | IsScopeOf(scope, db, actor)
      ensures !IsTaskVisible(scope, t) && !AccessWhere(scope, true, t, db.tasks[t])
    {
      ListShowsExactlyTheVisible(db, actor, scope, t);
      ScopeAgrees(db, actor, scope, t);
    }
  }
}
