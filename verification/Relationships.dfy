/**
 Task parents and dependencies. First the two cycle checks and the operations that use them, run
 alone; then the same operations as a protocol of single database reads and commits, interleaved
 with the writers that take no lock, and the proof that no interleaving ever closes a loop.
 */
module Relationships {
  import opened Wrappers
  import opened Entities
  import opened Graphs
  import opened TaskAccess

  type Edge = (TaskId, TaskId)

  datatype Refusal = NotFound | ReadOnly | OwnParent | BlocksItself | NoSuchTask | NoAccess | WouldCycle

  /** The tables: which tasks exist, the parent column, and the (blocker, blocked) pairs. */
  datatype Store = Store(tasks: set<TaskId>, parent: map<TaskId, TaskId>, deps: set<Edge>)

  /** Foreign keys hold. */
  ghost predicate Intact(s: Store) {
    && (forall t :: t in s.parent ==> t in s.tasks && s.parent[t] in s.tasks)
    && (forall a, b :: (a, b) in s.deps ==> a in s.tasks && b in s.tasks)
  }

  ghost predicate NoLoops(s: Store) {
    Acyclic(Links(s.parent)) && Acyclic(s.deps)
  }

  function ParentOf(s: Store, t: TaskId): Option<TaskId> {
    if t in s.parent then Some(s.parent[t]) else None
  }

  function Blocks(s: Store, t: TaskId): (r: set<TaskId>)
    ensures forall y :: y in r <==> (t, y) in s.deps
  {
    var r := set e | e in s.deps && e.0 == t :: e.1;
    assert forall y :: (t, y) in s.deps ==> (t, y).0 == t && (t, y).1 in r;
    r
  }

  // ----- The checks and operations, run alone -----

  /** Why a person may not edit a task; access holds the tasks they see, and how. */
  function EditRefusal(s: Store, access: map<TaskId, Level>, t: TaskId): Option<Refusal> {
    if t !in s.tasks || t !in access then Some(NotFound)
    else if access[t] != Full then Some(ReadOnly)
    else None
  }

  /** Why they may not link to one: any access will do. */
  function LinkRefusal(s: Store, access: map<TaskId, Level>, t: TaskId): Option<Refusal> {
    if t !in s.tasks then Some(NoSuchTask)
    else if t !in access then Some(NoAccess)
    else None
  }

  /** Editing takes full access, linking any; a task that cannot be seen is not told from one that is not there. */
  lemma RefusalsInWords(s: Store, access: map<TaskId, Level>, t: TaskId)
    ensures EditRefusal(s, access, t).None? <==> t in s.tasks && t in access && access[t] == Full
    ensures EditRefusal(s, access, t) == Some(ReadOnly) <==> t in s.tasks && t in access && access[t] in {Comment, Tree}
    ensures EditRefusal(s, access, t) in {None, Some(ReadOnly), Some(NotFound)}
    ensures LinkRefusal(s, access, t).None? <==> t in s.tasks && t in access
    ensures LinkRefusal(s, access, t) == Some(NoSuchTask) <==> t !in s.tasks
    ensures LinkRefusal(s, access, t) in {None, Some(NoSuchTask), Some(NoAccess)}
  {}

  method WouldCreateAncestryCycle(s: Store, taskId: TaskId, parentId: TaskId) returns (cycle: bool)
    ensures cycle <==> Reaches(Links(s.parent), parentId, taskId)
  {
    ghost var e := Links(s.parent);
    var cursor := Some(parentId);
    var seen: set<TaskId> := {};
    SelfReaches(e, parentId);
    while cursor.Some?
      invariant taskId !in seen && (parentId in seen || cursor == Some(parentId))
      invariant seen <= {parentId} + s.parent.Values
      invariant cursor.Some? ==> Reaches(e, parentId, cursor.value) && cursor.value in {parentId} + s.parent.Values
      invariant forall x, y :: (x, y) in e && x in seen ==> y in seen || cursor == Some(y)
      decreases {parentId} + s.parent.Values - seen, cursor.Some?
    {
      if cursor.value == taskId { return true; }
      if cursor.value in seen { break; }
      seen := seen + {cursor.value};
      if cursor.value in s.parent {
        EdgeReaches(e, cursor.value, s.parent[cursor.value]);
        ReachesTrans(e, parentId, cursor.value, s.parent[cursor.value]);
      }
      cursor := ParentOf(s, cursor.value);
    }
    ClosedNotReached(e, seen, parentId, taskId);
    cycle := false;
  }

  method SetToSeq(s: set<TaskId>) returns (q: seq<TaskId>)
    ensures forall x :: x in q <==> x in s
  {
    var left := s;
    q := [];
    while left != {}
      invariant left <= s && forall x :: x in s <==> x in q || x in left
    {
      var x :| x in left;
      left := left - {x};
      q := q + [x];
    }
  }

  method WouldCreateDependencyCycle(s: Store, blockerId: TaskId, blockedId: TaskId) returns (cycle: bool)
    ensures cycle <==> Reaches(s.deps, blockedId, blockerId)
  {
    var stack := [blockedId];
    var seen: set<TaskId> := {};
    ghost var nodes := {blockedId} + set e | e in s.deps :: e.1;
    SelfReaches(s.deps, blockedId);
    while |stack| > 0
      invariant blockerId !in seen && (blockedId in seen || blockedId in stack)
      invariant forall x :: x in stack ==> Reaches(s.deps, blockedId, x) && x in nodes
      invariant forall x, y :: (x, y) in s.deps && x in seen ==> y in seen || y in stack
      decreases nodes - seen, |stack|
    {
      var node := stack[|stack| - 1];
      ghost var before := stack;
      stack := stack[..|stack| - 1];
      assert before == stack + [node];
      if node == blockerId { return true; }
      if node !in seen {
        seen := seen + {node};
        var outgoing := SetToSeq(Blocks(s, node));
        forall y | y in outgoing ensures Reaches(s.deps, blockedId, y) && y in nodes {
          assert (node, y) in s.deps;
          EdgeReaches(s.deps, node, y);
          ReachesTrans(s.deps, blockedId, node, y);
          assert (node, y).1 in nodes;
        }
        stack := stack + outgoing;
        forall x, y | (x, y) in s.deps && x in seen ensures y in seen || y in stack {
          if x == node { assert (node, y).1 in Blocks(s, node); }
        }
      }
    }
    ClosedNotReached(s.deps, seen, blockedId, blockerId);
    cycle := false;
  }

  class Relations {
    var store: Store

    ghost predicate Valid()
      reads this
    {
      Intact(store) && NoLoops(store)
    }

    constructor ()
      ensures Valid() && store == Store({}, map[], {})
    {
      store := Store({}, map[], {});
      new;
      NoEdgesAcyclic();
    }

    /** Refused for the first reason that holds, the last being a loop in the result; else that one parent changes. */
    method SetParent(access: map<TaskId, Level>, taskId: TaskId, parentId: TaskId) returns (r: Result<(), Refusal>)
      requires Valid()
      modifies this
      ensures Valid()
      ensures r == if EditRefusal(old(store), access, taskId).Some?
                   then Err(EditRefusal(old(store), access, taskId).value)
                   else if taskId == parentId then Err(OwnParent)
                   else if LinkRefusal(old(store), access, parentId).Some?
                   then Err(LinkRefusal(old(store), access, parentId).value)
                   else if !Acyclic(Links(old(store.parent)[taskId := parentId])) then Err(WouldCycle)
                   else Ok(())
      ensures r.Ok? <==> && taskId in old(store).tasks && taskId in access && access[taskId] == Full
                         && parentId in old(store).tasks && parentId in access && parentId != taskId
                         && Acyclic(Links(old(store.parent)[taskId := parentId]))
      ensures r.Ok? ==> store == old(store).(parent := old(store.parent)[taskId := parentId])
      ensures r.Err? ==> store == old(store)
    {
      hide Acyclic, Walk, Reaches;
      MoveParent(store.parent, taskId, parentId);
      var edit := EditRefusal(store, access, taskId);
      if edit.Some? { return Err(edit.value); }
      if parentId == taskId { return Err(OwnParent); }
      var link := LinkRefusal(store, access, parentId);
      if link.Some? { return Err(link.value); }
      if ParentOf(store, taskId) == Some(parentId) {
        assert store.parent[taskId := parentId] == store.parent;
        return Ok(());
      }
      var cycle := WouldCreateAncestryCycle(store, taskId, parentId);
      if cycle { return Err(WouldCycle); }
      store := store.(parent := store.parent[taskId := parentId]);
      r := Ok(());
    }

    /**
     taskId blocks otherId, or is blocked by it. Refused for the first reason that holds; else that one edge is
     added.
    */
    method AddDependency(access: map<TaskId, Level>, taskId: TaskId, blocks: bool, otherId: TaskId)
      returns (r: Result<(), Refusal>)
      requires Valid()
      modifies this
      ensures Valid()
      ensures var edge := if blocks then (taskId, otherId) else (otherId, taskId);
              && r == (if EditRefusal(old(store), access, taskId).Some?
                       then Err(EditRefusal(old(store), access, taskId).value)
                       else if LinkRefusal(old(store), access, otherId).Some?
                       then Err(LinkRefusal(old(store), access, otherId).value)
                       else if taskId == otherId then Err(BlocksItself)
                       else if !Acyclic(old(store.deps) + {edge}) then Err(WouldCycle)
                       else Ok(()))
              && (r.Ok? <==> && taskId in old(store).tasks && taskId in access && access[taskId] == Full
                             && otherId in old(store).tasks && otherId in access && otherId != taskId
                             && Acyclic(old(store.deps) + {edge}))
              && (r.Ok? ==> store == old(store).(deps := old(store.deps) + {edge}))
      ensures r.Err? ==> store == old(store)
    {
      hide Acyclic, Walk, Reaches;
      var edit := EditRefusal(store, access, taskId);
      if edit.Some? { return Err(edit.value); }
      var link := LinkRefusal(store, access, otherId);
      if link.Some? { return Err(link.value); }
      var blockerId, blockedId := if blocks then taskId else otherId, if blocks then otherId else taskId;
      if blockerId == blockedId { return Err(BlocksItself); }
      if (blockerId, blockedId) in store.deps {
        assert store.deps + {(blockerId, blockedId)} == store.deps;
        return Ok(());
      }
      AddEdgeIff(store.deps, blockerId, blockedId);
      var cycle := WouldCreateDependencyCycle(store, blockerId, blockedId);
      if cycle { return Err(WouldCycle); }
      store := store.(deps := store.deps + {(blockerId, blockedId)});
      r := Ok(());
    }
  }

  lemma AddEdgeIff(deps: set<Edge>, blocker: TaskId, blocked: TaskId)
    requires Acyclic(deps)
    ensures Acyclic(deps + {(blocker, blocked)}) <==> !Reaches(deps, blocked, blocker)
  {
    if Reaches(deps, blocked, blocker) {
      AddEdgeCycle(deps, blocker, blocked);
    } else {
      AddEdgeAcyclic(deps, blocker, blocked);
    }
  }

  lemma NoEdgesAcyclic()
    ensures Acyclic<TaskId>({}) && Acyclic(Links<TaskId>(map[]))
  {
    forall e: set<Edge>, a | e == {} ensures !StrictlyReaches(e, a, a) {
      if StrictlyReaches(e, a, a) { var c := FirstStep(e, a, a); }
    }
    assert Links<TaskId>(map[]) == {};
  }

  /** Pointing a task at a new parent keeps the tree loop-free exactly when the parent is not below the task. */
  lemma MoveParent(parent: map<TaskId, TaskId>, t: TaskId, p: TaskId)
    requires Acyclic(Links(parent))
    ensures Acyclic(Links(parent[t := p])) <==> !Reaches(Links(parent), p, t)
  {
    var without := Links(parent - {t});
    var e, f := Links(parent), Links(parent[t := p]);
    assert f == without + {(t, p)};
    assert without <= e;
    FewerEdgesAcyclic(without, e);
    if Reaches(e, p, t) {
      var n: nat :| Walk(e, p, t, n);
      WalkToFirstHit(parent, p, t, n);
      AddEdgeCycle(without, t, p);
    } else {
      if Reaches(without, p, t) {
        var n: nat :| Walk(without, p, t, n);
        WalkMono(without, e, p, t, n);
      }
      AddEdgeAcyclic(without, t, p);
    }
  }

  /** Reaching t needs no edge that leaves t. */
  lemma {:induction false} WalkToFirstHit(parent: map<TaskId, TaskId>, a: TaskId, t: TaskId, n: nat)
    requires Walk(Links(parent), a, t, n)
    ensures Reaches(Links(parent - {t}), a, t)
    decreases n
  {
    var without := Links(parent - {t});
    if a == t {
      SelfReaches(without, t);
    } else {
      var c :| (a, c) in Links(parent) && Walk(Links(parent), c, t, n - 1);
      WalkToFirstHit(parent, c, t, n - 1);
      assert (a, c) in without;
      EdgeReaches(without, a, c);
      ReachesTrans(without, a, c, t);
    }
  }
}
