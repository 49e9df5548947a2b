/**
 The two ways the product copies a tree: generating a template's tasks, and duplicating a task with
 everything below it. Both create their tasks in an order that puts parents first, remembering which
 new id each original got, and then carry over the dependencies among the originals.
 */
module TreeCopy {
  import opened Wrappers
  import opened Entities
  import opened Graphs
  import opened Forest

  type Id = nat

  /** fields stands for the columns a copy takes over unchanged. */
  datatype Task = Task(parent: Option<Id>, templateNode: Option<Id>, creator: Id, assignee: Option<Id>, status: Status,
                       fields: string)

  type Tasks = map<Id, Task>

  type Edges = set<(Id, Id)>

  ghost function Parents(tasks: Tasks): (e: Edges)
    ensures forall a, b :: (a, b) in e <==> a in tasks && tasks[a].parent == Some(b)
  {
    set a | a in tasks && tasks[a].parent.Some? :: (a, tasks[a].parent.value)
  }

  /**
   One task to make: the original it stands for, that original's parent among those copied, and the parent if
   there is none.
  */
  datatype Source = Source(id: Id, parent: Option<Id>, outside: Option<Id>, row: Task)

  ghost predicate DistinctIds(order: seq<Source>) {
    forall i, j :: 0 <= i < j < |order| ==> order[i].id != order[j].id
  }

  ghost predicate ParentsFirst(order: seq<Source>) {
    forall i: nat :: i < |order| && order[i].parent.Some? ==>
      exists j: nat :: j < i && order[j].id == order[i].parent.value
  }

  /** The originals got ids lo, lo + 1 and so on, in order. */
  ghost predicate IdsInTurn(order: seq<Source>, i: nat, m: map<Id, Id>, lo: Id)
    requires i <= |order|
  {
    && (forall j: nat :: j < i ==> order[j].id in m && m[order[j].id] == lo + j)
    && forall k :: k in m ==> exists j: nat :: j < i && order[j].id == k
  }

  function NewParent(s: Source, m: map<Id, Id>): Option<Id> {
    if s.parent.None? then s.outside
    else if s.parent.value in m then Some(m[s.parent.value])
    else None
  }

  /** Every task made stands for its original, hangs off its parent's copy, and no other row has changed. */
  ghost predicate CopyOf(before: Tasks, after: Tasks, order: seq<Source>, m: map<Id, Id>) {
    && Injective(m) && (forall k :: k in m <==> exists j: nat :: j < |order| && order[j].id == k)
    && (forall x :: x in after <==> x in before || x in m.Values) && (forall k :: k in m ==> m[k] !in before)
    && (forall x :: x in before ==> after[x] == before[x])
    && (forall j: nat :: j < |order| ==>
        order[j].id in m && after[m[order[j].id]] == order[j].row.(parent := NewParent(order[j], m)))
  }

  /** The parent's copy is there, and was made earlier. */
  ghost predicate ParentsMadeFirst(order: seq<Source>, m: map<Id, Id>) {
    forall j: nat :: j < |order| && order[j].parent.Some? ==>
      order[j].id in m && order[j].parent.value in m && m[order[j].parent.value] < m[order[j].id]
  }

  class TaskDb {
    var tasks: Tasks
    var deps: Edges
    var nextId: Id

    ghost predicate Valid()
      reads this
    {
      Stored(tasks, deps, nextId)
    }

    constructor ()
      ensures Valid() && tasks == map[] && deps == {}
    {
      tasks, deps, nextId := map[], {}, 1;
    }

    /** Create the tasks in this order. */
    method CreateAll(order: seq<Source>) returns (m: map<Id, Id>)
      requires Valid() && DistinctIds(order)
      modifies this`tasks, this`nextId
      ensures IdsInTurn(order, |order|, m, old(nextId)) && nextId == old(nextId) + |order|
      ensures Made(old(tasks), tasks, order, |order|, m, old(nextId))
    {
      hide Made, IdsInTurn, Stored, DistinctIds, NewParent;
      m := map[];
      NothingMade(tasks, deps, order, nextId);
      var i := 0;
      while i < |order|
        invariant 0 <= i <= |order|
        invariant nextId == old(nextId) + i
        invariant IdsInTurn(order, i, m, old(nextId))
        invariant Made(old(tasks), tasks, order, i, m, old(nextId))
      {
        var s := order[i];
        var row := s.row.(parent := NewParent(s, m));
        MadeOneMore(old(tasks), tasks, order, i, m, old(nextId));
        tasks := tasks[nextId := row];
        m := m[s.id := nextId];
        nextId := nextId + 1;
        i := i + 1;
      }
    }

    /**
     One occurrence of a template: nodes are the template's rows in the order read, content what each
     brings along, edges the dependencies between them. Without a node, or without a root, nothing is kept.
     */
    method GenerateOccurrence(nodes: seq<Row<Id>>, content: map<Id, string>, edges: Edges, assignees: map<Id, Id>,
                              creatorId: Id)
      returns (r: Option<(Id, map<Id, Id>)>)
      requires Valid() && UniqueIds(nodes) && forall n :: n in nodes ==> n.id in content
      modifies this
      ensures Valid()
      ensures r.Some? <==> exists n :: n in nodes && n.parent.None?
      ensures r.None? ==> tasks == old(tasks) && deps == old(deps)
      ensures r.Some? ==> var (root, m) := r.value;
              && Added(old(tasks), tasks, m) && Generated(nodes, content, assignees, creatorId, tasks, m)
              && deps == old(deps) + Unlooped(Renamed(edges, m))
              && root in m.Values && tasks[root].parent.None?
      ensures r.Some? ==> forall n :: n in nodes ==>
              TaskOfNode(n, content, assignees, creatorId, tasks[r.value.1[n.id]])
      // one task waits for another exactly where it did, or where one node's waits for the other's
      ensures r.Some? ==> forall u: Id, v: Id ::
              (u, v) in deps <==> (u, v) in old(deps) || CarriedOver(edges, r.value.1, u, v)
      // a whole tree is copied link for link, each parent made before its children
      ensures r.Some? && (forall n :: n in nodes ==> Rooted(nodes, n.id)) ==> LinksCarried(nodes, tasks, r.value.1)
    {
      hide Stored, Made, IdsInTurn, DistinctIds, UniqueIds, Rooted, Added, Generated, LinksCarried, RootedParentsFirst,
           Renames, RowMade, TemplateSource, Unlooped, IsFresh, Injective, CarriedOver, TaskOfNode, Renamed, CopyOf,
           ParentsMadeFirst, ParentsFirst, TemplateSources, Walk, Reaches;
      if nodes == [] { return None; }
      var rowsBefore, depsBefore := tasks, deps;
      ghost var lo := nextId;
      var ordered := OrderParentsFirst(nodes);
      TemplateOrderIds(ordered, content, assignees, creatorId);
      var order := TemplateSources(ordered, content, assignees, creatorId);
      var m := CreateAll(order);
      var root := FirstRoot(ordered);
      if root.None? {
        tasks, deps := rowsBefore, depsBefore;
        StoredLonger(tasks, deps, lo, nextId);
        return None;
      }
      ItIsACopy(rowsBefore, tasks, order, m, lo);
      TemplateCopied(nodes, ordered, order, content, assignees, creatorId, tasks, m);
      RootsCopied(nodes, content, assignees, creatorId, tasks, m, root.value);
      GeneratedTasks(nodes, content, assignees, creatorId, tasks, m);
      AddedApart(rowsBefore, tasks, m);
      CarriedInWords(edges, m);
      if forall n :: n in nodes ==> Rooted(nodes, n.id) {
        TemplateLinks(nodes, ordered, order, content, assignees, creatorId, lo, rowsBefore, tasks, m);
      }
      deps := deps + Unlooped(Renamed(edges, m));
      RenamedWithin(edges, m);
      StoredKept(rowsBefore, tasks, depsBefore, deps, order, m, lo);
      r := Some((m[root.value], m));
    }

    /** A task, alone or with everything below it, beside the original. */
    method DuplicateTask(actorId: Id, rootId: Id, includeDescendants: bool) returns (r: Option<(Id, map<Id, Id>)>)
      requires Valid() && (includeDescendants ==> !StrictlyReaches(Parents(tasks), rootId, rootId))
      modifies this
      ensures Valid()
      ensures r.Some? <==> rootId in old(tasks)
      ensures r.None? ==> tasks == old(tasks) && deps == old(deps)
      ensures r.Some? ==> var (root, m) := r.value;
              && (forall x ::
                    x in m <==> x == rootId || (includeDescendants && StrictlyReaches(Parents(old(tasks)), x, rootId)))
              && Duplicated(old(tasks), tasks, actorId, rootId, m) && root == m[rootId]
              && deps == old(deps) + Renamed(old(deps), m)
      ensures r.Some? ==> forall u: Id, v: Id ::
              (u, v) in deps <==> (u, v) in old(deps) || CarriedOver(old(deps), r.value.1, u, v)
    {
      hide Made, IdsInTurn, DistinctIds, ParentsFirst, CopyOf, ParentsMadeFirst, Walk, Reaches, StrictlyReaches, Added,
           Stored, Duplicated, TopDown, InSubtree, Renames;
      if rootId !in tasks { return None; }
      ghost var before, lo, depsBefore := tasks, nextId, deps;
      var ids := [rootId];
      if includeDescendants { ids := CollectSubtreeIds(tasks, rootId); } else { JustTheRoot(tasks, rootId); }
      DuplicateOrder(tasks, deps, nextId, ids, rootId, actorId);
      var order := DuplicateSources(tasks, ids, rootId, actorId);
      var m := CreateAll(order);
      AllDuplicated(before, tasks, ids, rootId, actorId, m, lo);
      RenamedApart(before, depsBefore, lo, m);
      if |ids| > 1 {
        deps := deps + Renamed(deps, m);
      } else {
        NoEdgesInside(before, deps, lo, m, ids);
      }
      StoredKept(before, tasks, depsBefore, deps, order, m, lo);
      BelowIsReached(before, rootId);
      r := Some((m[rootId], m));
    }
  }

  // ----- Creating -----

  /** Ids are handed out upward; parents and dependencies name stored tasks; no task blocks itself. */
  ghost predicate Stored(tasks: Tasks, deps: Edges, nextId: Id) {
    && (forall x :: x in tasks ==> x < nextId && (tasks[x].parent.Some? ==> tasks[x].parent.value in tasks))
    && forall a, b :: (a, b) in deps ==> a in tasks && b in tasks && a != b
  }

  ghost predicate Made(before: Tasks, after: Tasks, order: seq<Source>, i: nat, m: map<Id, Id>, lo: Id)
    requires i <= |order|
  {
    && (forall x :: x in after <==> x in before || lo <= x < lo + i)
    && (forall x :: x in before ==> x < lo && after[x] == before[x])
    && (forall j: nat :: j < i ==>
        lo + j in after && after[lo + j] == order[j].row.(parent := ParentWhenMade(order, j, m)))
  }

  /** A parent counts only if it came earlier in the order. */
  ghost function ParentWhenMade(order: seq<Source>, j: nat, m: map<Id, Id>): Option<Id>
    requires j < |order|
  {
    var s := order[j];
    if s.parent.None? then s.outside
    else if s.parent.value in m && (exists k: nat :: k < j && order[k].id == s.parent.value) then
      Some(m[s.parent.value])
    else None
  }

  lemma NothingMade(tasks: Tasks, deps: Edges, order: seq<Source>, nextId: Id)
    requires Stored(tasks, deps, nextId)
    ensures IdsInTurn(order, 0, map[], nextId) && Made(tasks, tasks, order, 0, map[], nextId)
  {}

  lemma MadeOneMore(before: Tasks, after: Tasks, order: seq<Source>, i: nat, m: map<Id, Id>, lo: Id)
    requires i < |order| && DistinctIds(order) && IdsInTurn(order, i, m, lo) && Made(before, after, order, i, m, lo)
    ensures IdsInTurn(order, i + 1, m[order[i].id := lo + i], lo)
    ensures Made(before, after[lo + i := order[i].row.(parent := NewParent(order[i], m))], order, i + 1,
                 m[order[i].id := lo + i], lo)
  {
    hide Made, NewParent;
    var n := m[order[i].id := lo + i];
    forall k | k in n ensures exists j: nat :: j < i + 1 && order[j].id == k {
      if k != order[i].id {
        var j: nat :| j < i && order[j].id == k;
      } else {
        assert order[i].id == k;
      }
    }
    forall j: nat | j < i ensures ParentWhenMade(order, j, n) == ParentWhenMade(order, j, m) {
      if order[j].parent.Some? && exists k: nat :: k < j && order[k].id == order[j].parent.value {
        var k: nat :| k < j && order[k].id == order[j].parent.value;
      }
    }
    assert ParentWhenMade(order, i, n) == NewParent(order[i], m) by { MadeNow(order, i, m, lo); }
    MadeGlue(before, after, order, i, m, n, lo);
  }

  lemma MadeNow(order: seq<Source>, i: nat, m: map<Id, Id>, lo: Id)
    requires i < |order| && DistinctIds(order) && IdsInTurn(order, i, m, lo)
    ensures ParentWhenMade(order, i, m[order[i].id := lo + i]) == NewParent(order[i], m)
  {
    var s := order[i];
    if s.parent.Some? {
      if s.parent.value in m {
        var k: nat :| k < i && order[k].id == s.parent.value;
      } else {
        forall k: nat | k < i ensures order[k].id != s.parent.value { assert order[k].id in m; }
      }
    }
  }

  lemma MadeGlue(before: Tasks, after: Tasks, order: seq<Source>, i: nat, m: map<Id, Id>, n: map<Id, Id>, lo: Id)
    requires i < |order| && Made(before, after, order, i, m, lo)
    requires forall j: nat :: j < i ==> ParentWhenMade(order, j, n) == ParentWhenMade(order, j, m)
    requires ParentWhenMade(order, i, n) == NewParent(order[i], m)
    ensures Made(before, after[lo + i := order[i].row.(parent := NewParent(order[i], m))], order, i + 1, n, lo)
  {
    hide ParentWhenMade, NewParent;
  }

  lemma ItIsACopy(before: Tasks, after: Tasks, order: seq<Source>, m: map<Id, Id>, lo: Id)
    requires IdsInTurn(order, |order|, m, lo) && Made(before, after, order, |order|, m, lo)
    ensures Added(before, after, m) && (forall k :: k in m <==> exists j: nat :: j < |order| && order[j].id == k)
    ensures forall j: nat :: j < |order| ==> RowMade(after, order[j], m)
    ensures ParentsFirst(order) ==> CopyOf(before, after, order, m)
  {
    hide ParentsFirst, Made, IdsInTurn, Injective, RowMade, NewParent, ParentWhenMade;
    NewIds(order, m, lo);
    NewRows(before, after, order, m, lo);
    forall j: nat | j < |order| ensures RowMade(after, order[j], m) { OneRow(before, after, order, m, lo, j); }
    if ParentsFirst(order) {
      forall j: nat | j < |order|
        ensures order[j].id in m && after[m[order[j].id]] == order[j].row.(parent := NewParent(order[j], m)) {
        OneRowWithParent(before, after, order, m, lo, j);
      }
    }
  }

  lemma NewIds(order: seq<Source>, m: map<Id, Id>, lo: Id)
    requires IdsInTurn(order, |order|, m, lo)
    ensures Injective(m) && (forall x :: x in m.Values <==> lo <= x < lo + |order|)
    ensures forall k :: k in m <==> exists j: nat :: j < |order| && order[j].id == k
  {
    forall a, b | a in m && b in m && m[a] == m[b] ensures a == b {
      var i: nat :| i < |order| && order[i].id == a;
      var j: nat :| j < |order| && order[j].id == b;
    }
    forall x ensures x in m.Values <==> lo <= x < lo + |order| {
      if x in m.Values {
        var k :| k in m && m[k] == x;
        var j: nat :| j < |order| && order[j].id == k;
      }
      if lo <= x < lo + |order| { assert m[order[x - lo].id] in m.Values; }
    }
  }

  lemma NewRows(before: Tasks, after: Tasks, order: seq<Source>, m: map<Id, Id>, lo: Id)
    requires Made(before, after, order, |order|, m, lo)
    requires Injective(m) && forall x :: x in m.Values <==> lo <= x < lo + |order|
    ensures Added(before, after, m)
  {
    hide ParentWhenMade, Injective;
    forall k | k in m ensures m[k] !in before { assert m[k] in m.Values; }
  }

  lemma OneRow(before: Tasks, after: Tasks, order: seq<Source>, m: map<Id, Id>, lo: Id, j: nat)
    requires IdsInTurn(order, |order|, m, lo) && Made(before, after, order, |order|, m, lo) && j < |order|
    ensures RowMade(after, order[j], m)
  {
    assert m[order[j].id] == lo + j;
    assert after[lo + j] == order[j].row.(parent := ParentWhenMade(order, j, m));
  }

  lemma OneRowWithParent(before: Tasks, after: Tasks, order: seq<Source>, m: map<Id, Id>, lo: Id, j: nat)
    requires IdsInTurn(order, |order|, m, lo) && Made(before, after, order, |order|, m, lo) && j < |order|
             && ParentsFirst(order)
    ensures order[j].id in m && m[order[j].id] in after
            && after[m[order[j].id]] == order[j].row.(parent := NewParent(order[j], m))
  {
    assert m[order[j].id] == lo + j;
    assert after[lo + j] == order[j].row.(parent := ParentWhenMade(order, j, m));
    ParentIsEarlier(order, j);
  }

  /** The task made for an original, whatever came of its parent. */
  ghost predicate RowMade(after: Tasks, s: Source, m: map<Id, Id>) {
    && s.id in m && m[s.id] in after && after[m[s.id]].(parent := None) == s.row.(parent := None)
    && (s.parent.None? ==> after[m[s.id]].parent == s.outside)
  }

  lemma ParentIsEarlier(order: seq<Source>, j: nat)
    requires ParentsFirst(order) && j < |order|
    ensures order[j].parent.Some? ==> exists k: nat :: k < j && order[k].id == order[j].parent.value
  {}

  lemma ParentsAreMadeFirst(order: seq<Source>, m: map<Id, Id>, lo: Id)
    requires ParentsFirst(order) && IdsInTurn(order, |order|, m, lo)
    ensures ParentsMadeFirst(order, m)
  {
    forall j: nat | j < |order| && order[j].parent.Some?
      ensures order[j].id in m && order[j].parent.value in m && m[order[j].parent.value] < m[order[j].id]
    {
      var k: nat :| k < j && order[k].id == order[j].parent.value;
    }
  }

  /** Just these rows are new, one for each original; all others are as they were. */
  ghost predicate Added<K(!new)>(before: Tasks, after: Tasks, m: map<K, Id>) {
    && Injective(m) && (forall k :: k in m ==> m[k] !in before)
    && (forall x :: x in after <==> x in before || x in m.Values)
    && forall x :: x in before ==> after[x] == before[x]
  }

  /** A copy takes over what it should and starts as new work. */
  predicate IsFresh(t: Task, fields: string, assignee: Option<Id>, creator: Id) {
    t.fields == fields && t.assignee == assignee && t.creator == creator && t.status == Open
  }

  lemma StoredLonger(tasks: Tasks, deps: Edges, lo: Id, hi: Id)
    requires Stored(tasks, deps, lo) && lo <= hi
    ensures Stored(tasks, deps, hi)
  {}

  /** Copies hang off copies or off rows that were there, and new dependencies join different copies. */
  lemma StoredKept(before: Tasks, after: Tasks, depsBefore: Edges, deps: Edges, order: seq<Source>, m: map<Id, Id>,
                   lo: Id)
    requires Stored(before, depsBefore, lo) && IdsInTurn(order, |order|, m, lo)
             && Made(before, after, order, |order|, m, lo)
    requires forall j: nat :: j < |order| && order[j].outside.Some? ==> order[j].outside.value in before
    requires forall a, b :: (a, b) in deps ==> (a, b) in depsBefore || (a in m.Values && b in m.Values && a != b)
    ensures Stored(after, deps, lo + |order|)
  {
    hide ParentWhenMade;
    forall k | k in m ensures m[k] in after && lo <= m[k] {
      var j: nat :| j < |order| && order[j].id == k;
    }
    forall x | x in after ensures after[x].parent.Some? ==> after[x].parent.value in after {
      if x !in before {
        assert after[lo + (x - lo)] == order[x - lo].row.(parent := ParentWhenMade(order, x - lo, m));
        ParentIsThere(order, x - lo, m);
      }
    }
  }

  lemma ParentIsThere(order: seq<Source>, j: nat, m: map<Id, Id>)
    requires j < |order|
    ensures var p := ParentWhenMade(order, j, m); p.None? || p == order[j].outside || exists k ::
            k in m && p == Some(m[k])
  {}

  // ----- Templates -----

  function AssigneeOf(assignees: map<Id, Id>, n: Id): Option<Id> {
    if n in assignees then Some(assignees[n]) else None
  }

  function TemplateSource(n: Row<Id>, content: map<Id, string>, assignees: map<Id, Id>, creatorId: Id): Source
    requires n.id in content
  {
    Source(n.id, n.parent, None, Task(None, Some(n.id), creatorId, AssigneeOf(assignees, n.id), Open, content[n.id]))
  }

  function TemplateSources(ordered: seq<Row<Id>>, content: map<Id, string>, assignees: map<Id, Id>,
                           creatorId: Id): (order: seq<Source>)
    requires forall n :: n in ordered ==> n.id in content
    ensures |order| == |ordered|
    ensures forall i :: 0 <= i < |ordered| ==> order[i] == TemplateSource(ordered[i], content, assignees, creatorId)
  {
    seq(|ordered|, i requires 0 <= i < |ordered| => TemplateSource(ordered[i], content, assignees, creatorId))
  }

  lemma TemplateOrderIds(ordered: seq<Row<Id>>, content: map<Id, string>, assignees: map<Id, Id>, creatorId: Id)
    requires UniqueIds(ordered) && forall n :: n in ordered ==> n.id in content
    ensures var order := TemplateSources(ordered, content, assignees, creatorId);
            DistinctIds(order) && forall i: nat :: i < |order| ==> order[i].outside.None?
  {}

  /** Every parent the roots can reach stands before its children. */
  ghost predicate RootedParentsFirst(rows: seq<Row<Id>>, order: seq<Row<Id>>) {
    forall i: nat :: i < |order| && Rooted(rows, order[i].id) && order[i].parent.Some? ==>
      exists j: nat :: j < i && order[j].id == order[i].parent.value
  }

  /** The rows walked from the roots, then any the walk missed. */
  method OrderParentsFirst(rows: seq<Row<Id>>) returns (order: seq<Row<Id>>)
    requires UniqueIds(rows)
    ensures UniqueIds(order) && (forall r :: r in order <==> r in rows) && RootedParentsFirst(rows, order)
  {
    hide TreeOrder, UniqueIds, Children, Rooted, RootedParentsFirst, WithParent, Nested;
    var out := ListTree(rows);
    order := RowsIn(out);
    WalkedOrder(rows, out, order);
    if |out| != |rows| {
      var missed := Missed(rows, order);
      WithMissed(rows, order, missed);
      order := order + missed;
    } else {
      ListedAllIffRooted(rows);
      forall r | r in rows ensures r in order { assert Rooted(rows, r.id); }
    }
  }

  function RowsIn(out: seq<Placed<Id>>): (order: seq<Row<Id>>)
    ensures |order| == |out| && forall i :: 0 <= i < |out| ==> order[i] == out[i].row
  {
    seq(|out|, i requires 0 <= i < |out| => out[i].row)
  }

  method Missed(rows: seq<Row<Id>>, order: seq<Row<Id>>) returns (missed: seq<Row<Id>>)
    requires UniqueIds(rows)
    ensures UniqueIds(missed) && forall r :: r in missed <==> r in rows && r.id !in Ids(order)
  {
    missed := [];
    for i := 0 to |rows|
      invariant UniqueIds(missed) && forall r :: r in missed <==> r in rows[..i] && r.id !in Ids(order)
    {
      if rows[i].id !in Ids(order) {
        forall r | r in missed ensures r.id != rows[i].id {
          var j :| 0 <= j < i && rows[j] == r;
        }
        missed := missed + [rows[i]];
      }
    }
    assert rows[..|rows|] == rows;
  }

  lemma WalkedOrder(rows: seq<Row<Id>>, out: seq<Placed<Id>>, order: seq<Row<Id>>)
    requires UniqueIds(rows) && out == TreeOrder(rows) && order == RowsIn(out)
    ensures UniqueIds(order) && RootedParentsFirst(rows, order)
    ensures forall r :: r in order <==> r in rows && Rooted(rows, r.id)
  {
    hide TreeOrder, Rooted, WithParent, UniqueIds;
    TreeOrderHolds(rows);
    assert UniqueIds(order) by { RowsUnique(out, order); }
    forall r ensures r in order <==> r in rows && Rooted(rows, r.id) {
      if r in order {
        var i :| 0 <= i < |order| && order[i] == r;
        assert out[i] in out;
      }
      if r in rows && Rooted(rows, r.id) {
        var x :| x in out && x.row == r;
        var i :| 0 <= i < |out| && out[i] == x;
        assert order[i] == r;
      }
    }
    forall i: nat | i < |order| && order[i].parent.Some?
      ensures exists j: nat :: j < i && order[j].id == order[i].parent.value {
      var j: nat :| InsideBlockOf(out, i, j);
      assert order[j].id == out[j].row.id;
    }
  }

  lemma RowsUnique(out: seq<Placed<Id>>, order: seq<Row<Id>>)
    requires DistinctRows(out) && order == RowsIn(out)
    ensures UniqueIds(order)
  {}

  lemma WithMissed(rows: seq<Row<Id>>, order: seq<Row<Id>>, missed: seq<Row<Id>>)
    requires UniqueIds(rows) && UniqueIds(order) && UniqueIds(missed) && RootedParentsFirst(rows, order)
    requires forall r :: r in order <==> r in rows && Rooted(rows, r.id)
    requires forall r :: r in missed <==> r in rows && r.id !in Ids(order)
    ensures UniqueIds(order + missed) && RootedParentsFirst(rows, order + missed)
    ensures forall r :: r in order + missed <==> r in rows
  {
    hide Rooted;
    forall r | r in rows ensures r in order || r in missed {
      if r.id in Ids(order) { ListedById(rows, order, r); }
    }
    var all := order + missed;
    forall i, j | 0 <= i < j < |all| ensures all[i].id != all[j].id {
      if i < |order| <= j { assert order[i] in order && missed[j - |order|] in missed; }
    }
    forall i: nat | i < |all| && Rooted(rows, all[i].id) && all[i].parent.Some?
      ensures exists j: nat :: j < i && all[j].id == all[i].parent.value
    {
      assert all[i] in order + missed;
      if i < |order| {
        var j: nat :| j < i && order[j].id == order[i].parent.value;
        assert all[j] == order[j];
      }
    }
  }

  lemma ListedById(rows: seq<Row<Id>>, order: seq<Row<Id>>, r: Row<Id>)
    requires UniqueIds(rows) && (forall s :: s in order ==> s in rows) && r in rows && r.id in Ids(order)
    ensures r in order
  {
    var s :| s in order && s.id == r.id;
    SameRow(rows, r, s);
  }

  method FirstRoot(ordered: seq<Row<Id>>) returns (root: Option<Id>)
    ensures root.None? <==> forall n :: n in ordered ==> n.parent.Some?
    ensures root.Some? ==> Row(root.value, None) in ordered
  {
    root := None;
    for i := 0 to |ordered|
      invariant forall n :: n in ordered[..i] ==> n.parent.Some?
    {
      if ordered[i].parent.None? { return Some(ordered[i].id); }
    }
    assert ordered[..|ordered|] == ordered;
  }

  /** Every node has its task, which carries the node's content; a root's hangs off nothing. */
  ghost predicate Generated(nodes: seq<Row<Id>>, content: map<Id, string>, assignees: map<Id, Id>, creatorId: Id,
                            after: Tasks, m: map<Id, Id>)
    requires forall n :: n in nodes ==> n.id in content
  {
    && m.Keys == Ids(nodes)
    && forall n :: n in nodes ==>
      && n.id in m && m[n.id] in after && after[m[n.id]].templateNode == Some(n.id)
      && IsFresh(after[m[n.id]], content[n.id], AssigneeOf(assignees, n.id), creatorId)
      && (n.parent.None? ==> after[m[n.id]].parent.None?)
  }

  lemma RootsCopied(nodes: seq<Row<Id>>, content: map<Id, string>, assignees: map<Id, Id>, creatorId: Id, after: Tasks,
                    m: map<Id, Id>, root: Id)
    requires forall n :: n in nodes ==> n.id in content
    requires Generated(nodes, content, assignees, creatorId, after, m) && Row(root, None) in nodes
    ensures root in m && m[root] in m.Values && m[root] in after && after[m[root]].parent.None?
  {
    assert Row(root, None).id in m;
  }

  lemma RenamedWithin(edges: Edges, m: map<Id, Id>)
    ensures forall a, b :: (a, b) in Unlooped(Renamed(edges, m)) ==> a in m.Values && b in m.Values && a != b
  {
    forall a, b | (a, b) in Unlooped(Renamed(edges, m)) ensures a in m.Values && b in m.Values && a != b {
      var x, y :| (x, y) in edges && x in m && y in m && m[x] == a && m[y] == b;
    }
  }

  lemma TemplateCopied(nodes: seq<Row<Id>>, ordered: seq<Row<Id>>, order: seq<Source>, content: map<Id, string>,
                       assignees: map<Id, Id>, creatorId: Id, after: Tasks, m: map<Id, Id>)
    requires (forall r :: r in ordered <==> r in nodes) && forall n :: n in nodes ==> n.id in content
    requires order == TemplateSources(ordered, content, assignees, creatorId)
    requires forall j: nat :: j < |order| ==> RowMade(after, order[j], m)
    requires forall k :: k in m <==> exists j: nat :: j < |order| && order[j].id == k
    ensures Generated(nodes, content, assignees, creatorId, after, m)
  {
    hide RowMade, TemplateSource, TemplateSources, IsFresh;
    forall n | n in nodes
      ensures n.id in m && m[n.id] in after && after[m[n.id]].templateNode == Some(n.id)
              && IsFresh(after[m[n.id]], content[n.id], AssigneeOf(assignees, n.id), creatorId)
              && (n.parent.None? ==> after[m[n.id]].parent.None?)
    {
      assert n in ordered;
      var i: nat :| i < |ordered| && ordered[i] == n;
      assert RowMade(after, order[i], m);
      TemplateRow(n, content, assignees, creatorId, after, m);
    }
    TemplateIds(nodes, ordered, order, content, assignees, creatorId, m);
  }

  lemma TemplateIds(nodes: seq<Row<Id>>, ordered: seq<Row<Id>>, order: seq<Source>, content: map<Id, string>,
                    assignees: map<Id, Id>, creatorId: Id, m: map<Id, Id>)
    requires (forall r :: r in ordered <==> r in nodes) && forall n :: n in nodes ==> n.id in content
    requires order == TemplateSources(ordered, content, assignees, creatorId)
    requires forall k :: k in m <==> exists j: nat :: j < |order| && order[j].id == k
    ensures m.Keys == Ids(nodes)
  {
    hide TemplateSource, TemplateSources;
    forall k ensures k in m <==> k in Ids(nodes) {
      if k in m {
        var j: nat :| j < |order| && order[j].id == k;
        TemplateSourceId(ordered[j], content, assignees, creatorId);
        assert ordered[j] in ordered;
      }
      if k in Ids(nodes) {
        var n :| n in nodes && n.id == k;
        assert n in ordered;
        var j: nat :| j < |ordered| && ordered[j] == n;
        TemplateSourceId(n, content, assignees, creatorId);
        assert order[j].id == k;
      }
    }
  }

  lemma TemplateSourceId(n: Row<Id>, content: map<Id, string>, assignees: map<Id, Id>, creatorId: Id)
    requires n.id in content
    ensures TemplateSource(n, content, assignees, creatorId).id == n.id
  {}

  lemma TemplateRow(n: Row<Id>, content: map<Id, string>, assignees: map<Id, Id>, creatorId: Id, after: Tasks,
                    m: map<Id, Id>)
    requires n.id in content && RowMade(after, TemplateSource(n, content, assignees, creatorId), m)
    ensures n.id in m && m[n.id] in after && after[m[n.id]].templateNode == Some(n.id)
            && IsFresh(after[m[n.id]], content[n.id], AssigneeOf(assignees, n.id), creatorId)
            && (n.parent.None? ==> after[m[n.id]].parent.None?)
  {
    var t, row := after[m[n.id]], TemplateSource(n, content, assignees, creatorId).row;
    assert t.(parent := None).fields == row.(parent := None).fields
        && t.(parent := None).creator == row.(parent := None).creator;
  }

  /** A template's tree, link for link. */
  /**
   A generated task is open, by the one who generates, for whoever was chosen for its node, if anyone, with its
   content.
  */
  ghost predicate TaskOfNode(n: Row<Id>, content: map<Id, string>, assignees: map<Id, Id>, creatorId: Id, t: Task)
    requires n.id in content
  {
    && t.status == Open && t.creator == creatorId && t.fields == content[n.id] && t.templateNode == Some(n.id)
    && (n.id in assignees ==> t.assignee == Some(assignees[n.id])) && (n.id !in assignees ==> t.assignee.None?)
  }

  /** u and v are copied from two different originals, of which the first blocks the second. */
  ghost predicate CarriedOver(edges: Edges, m: map<Id, Id>, u: Id, v: Id) {
    exists a, b :: (a, b) in edges && a != b && a in m && b in m && m[a] == u && m[b] == v
  }

  lemma CarriedInWords(edges: Edges, m: map<Id, Id>)
    requires Injective(m)
    ensures forall u: Id, v: Id :: (u, v) in Unlooped(Renamed(edges, m)) <==> CarriedOver(edges, m, u, v)
    ensures (forall a, b :: (a, b) in edges ==> a != b) ==>
              forall u: Id, v: Id :: (u, v) in Renamed(edges, m) <==> CarriedOver(edges, m, u, v)
  {
    forall u: Id, v: Id ensures CarriedOver(edges, m, u, v) <==> (u, v) in Renamed(edges, m) && u != v {
      if CarriedOver(edges, m, u, v) { assert Renames(edges, m, u, v); }
    }
  }

  lemma AddedApart<K(!new)>(before: Tasks, after: Tasks, m: map<K, Id>)
    requires Added(before, after, m)
    ensures Injective(m)
  {}

  lemma GeneratedTasks(nodes: seq<Row<Id>>, content: map<Id, string>, assignees: map<Id, Id>, creatorId: Id,
                       after: Tasks, m: map<Id, Id>)
    requires (forall n :: n in nodes ==> n.id in content) && Generated(nodes, content, assignees, creatorId, after, m)
    ensures forall n :: n in nodes ==>
              n.id in m && m[n.id] in after && TaskOfNode(n, content, assignees, creatorId, after[m[n.id]])
  {}

  ghost predicate LinksCarried(nodes: seq<Row<Id>>, after: Tasks, m: map<Id, Id>) {
    forall n :: n in nodes ==>
      && n.id in m && m[n.id] in after
      && (n.parent.None? ==> after[m[n.id]].parent.None?)
      && (n.parent.Some? ==>
            n.parent.value in m && after[m[n.id]].parent == Some(m[n.parent.value]) && m[n.parent.value] < m[n.id])
  }

  lemma TemplateLinks(nodes: seq<Row<Id>>, ordered: seq<Row<Id>>, order: seq<Source>, content: map<Id, string>,
                      assignees: map<Id, Id>, creatorId: Id, lo: Id, before: Tasks, after: Tasks, m: map<Id, Id>)
    requires (forall r :: r in ordered <==> r in nodes) && RootedParentsFirst(nodes, ordered)
    requires (forall n :: n in nodes ==> Rooted(nodes, n.id)) && forall n :: n in nodes ==> n.id in content
    requires order == TemplateSources(ordered, content, assignees, creatorId)
    requires IdsInTurn(order, |order|, m, lo) && Made(before, after, order, |order|, m, lo)
    ensures LinksCarried(nodes, after, m)
  {
    hide Rooted, IdsInTurn, Made, ParentsMadeFirst, ParentsFirst, RootedParentsFirst, CopyOf, TemplateSources,
         TemplateSource;
    TemplateOrder(nodes, ordered, order, content, assignees, creatorId);
    ItIsACopy(before, after, order, m, lo);
    ParentsAreMadeFirst(order, m, lo);
    forall n | n in nodes
      ensures n.id in m && m[n.id] in after && (n.parent.None? ==> after[m[n.id]].parent.None?)
      ensures n.parent.Some? ==>
              n.parent.value in m && after[m[n.id]].parent == Some(m[n.parent.value]) && m[n.parent.value] < m[n.id]
    {
      assert n in ordered;
      var i: nat :| i < |ordered| && ordered[i] == n;
      OneLink(ordered, order, content, assignees, creatorId, before, after, m, i);
    }
  }

  lemma TemplateOrder(nodes: seq<Row<Id>>, ordered: seq<Row<Id>>, order: seq<Source>, content: map<Id, string>,
                      assignees: map<Id, Id>, creatorId: Id)
    requires (forall r :: r in ordered ==> r in nodes) && RootedParentsFirst(nodes, ordered)
    requires (forall n :: n in nodes ==> Rooted(nodes, n.id)) && forall n :: n in nodes ==> n.id in content
    requires order == TemplateSources(ordered, content, assignees, creatorId)
    ensures ParentsFirst(order)
  {
    hide Rooted;
    forall i: nat | i < |order| && order[i].parent.Some?
      ensures exists j: nat :: j < i && order[j].id == order[i].parent.value {
      assert ordered[i] in nodes;
      var j: nat :| j < i && ordered[j].id == ordered[i].parent.value;
      assert order[j].id == ordered[j].id;
    }
  }

  lemma OneLink(ordered: seq<Row<Id>>, order: seq<Source>, content: map<Id, string>, assignees: map<Id, Id>,
                creatorId: Id, before: Tasks, after: Tasks, m: map<Id, Id>, i: nat)
    requires (forall n :: n in ordered ==> n.id in content)
             && order == TemplateSources(ordered, content, assignees, creatorId)
    requires CopyOf(before, after, order, m) && ParentsMadeFirst(order, m) && i < |ordered|
    ensures var n := ordered[i];
            && n.id in m && m[n.id] in after && (n.parent.None? ==> after[m[n.id]].parent.None?)
            && (n.parent.Some? ==>
                  && n.parent.value in m && after[m[n.id]].parent == Some(m[n.parent.value])
                  && m[n.parent.value] < m[n.id])
  {
    hide CopyOf, ParentsMadeFirst;
    assert order[i] == TemplateSource(ordered[i], content, assignees, creatorId);
    CopiedRow(before, after, order, m, i);
    if ordered[i].parent.Some? { MadeBefore(order, m, i); }
  }

  lemma MadeBefore(order: seq<Source>, m: map<Id, Id>, j: nat)
    requires ParentsMadeFirst(order, m) && j < |order| && order[j].parent.Some?
    ensures order[j].id in m && order[j].parent.value in m && m[order[j].parent.value] < m[order[j].id]
  {}

  // ----- Duplicates -----

  /** rootId and, beside it, all that hangs below it. */
  ghost predicate InSubtree(tasks: Tasks, rootId: Id, x: Id) {
    Reaches(Parents(tasks), x, rootId)
  }

  /** rootId first, no one twice, everyone after their parent. */
  ghost predicate TopDown(tasks: Tasks, rootId: Id, ids: seq<Id>) {
    && |ids| > 0 && ids[0] == rootId && (forall x :: x in ids ==> x in tasks)
    && (forall i, j :: 0 <= i < j < |ids| ==> ids[i] != ids[j])
    && forall i: nat :: 0 < i < |ids| ==>
       tasks[ids[i]].parent.Some? && exists j: nat :: j < i && Some(ids[j]) == tasks[ids[i]].parent
  }

  /** Where the level-by-level walk stands: done and frontier make up ids, and below done nothing is missing. */
  ghost predicate Level(tasks: Tasks, rootId: Id, ids: seq<Id>, frontier: seq<Id>, done: set<Id>) {
    && (forall x :: x in ids <==> x in done || x in frontier) && (forall x :: x in frontier ==> x !in done)
    && (forall x :: x in ids ==> InSubtree(tasks, rootId, x))
    && (forall c, p :: (c, p) in Parents(tasks) && p in done ==> c in ids)
    && (forall c, p :: (c, p) in Parents(tasks) && c in ids && c != rootId ==> p in done)
  }

  /**
   The subtree, root first, level by level. The source has no guard against loops: it needs the root to lie on
   none.
  */
  method CollectSubtreeIds(tasks: Tasks, rootId: Id) returns (ids: seq<Id>)
    requires rootId in tasks && !StrictlyReaches(Parents(tasks), rootId, rootId)
    ensures |ids| > 0 && TopDown(tasks, rootId, ids) && forall x :: x in ids <==> InSubtree(tasks, rootId, x)
  {
    hide Walk, Reaches, StrictlyReaches, TopDown, Level, InSubtree, Parents;
    ids := [rootId];
    var frontier := [rootId];
    ghost var done: set<Id> := {};
    JustTheRoot(tasks, rootId);
    FirstLevel(tasks, rootId);
    while |frontier| > 0
      invariant TopDown(tasks, rootId, ids) && Level(tasks, rootId, ids, frontier, done)
      invariant done <= tasks.Keys && forall x :: x in frontier ==> x in tasks.Keys - done
      decreases tasks.Keys - done
    {
      var children := FindChildren(tasks, frontier);
      NextLevel(tasks, rootId, ids, frontier, done, children);
      ids := ids + children;
      assert frontier[0] in tasks.Keys - done;
      done := done + set x | x in frontier;
      frontier := children;
    }
    AllCollected(tasks, rootId, ids, done);
  }

  lemma JustTheRoot(tasks: Tasks, rootId: Id)
    requires rootId in tasks
    ensures TopDown(tasks, rootId, [rootId])
  {}

  lemma FirstLevel(tasks: Tasks, rootId: Id)
    ensures Level(tasks, rootId, [rootId], [rootId], {})
  {
    SelfReaches(Parents(tasks), rootId);
  }

  /** The query for the tasks whose parent is one of these: each once, in any order. */
  method FindChildren(tasks: Tasks, frontier: seq<Id>) returns (children: seq<Id>)
    ensures forall i, j :: 0 <= i < j < |children| ==> children[i] != children[j]
    ensures forall c :: c in children <==> exists p :: p in frontier && (c, p) in Parents(tasks)
  {
    var left := set c | c in tasks && tasks[c].parent.Some? && tasks[c].parent.value in frontier;
    ghost var all := left;
    children := [];
    while left != {}
      invariant forall i, j :: 0 <= i < j < |children| ==> children[i] != children[j]
      invariant forall c :: c in all <==> c in children || c in left
      invariant forall c :: c in children ==> c !in left
      decreases left
    {
      var c :| c in left;
      children := children + [c];
      left := left - {c};
    }
    forall c ensures c in children <==> exists p :: p in frontier && (c, p) in Parents(tasks) {
      if c in all { assert (c, tasks[c].parent.value) in Parents(tasks); }
    }
  }

  lemma NotYetListed(tasks: Tasks, rootId: Id, ids: seq<Id>, frontier: seq<Id>, done: set<Id>, c: Id, p: Id)
    requires !StrictlyReaches(Parents(tasks), rootId, rootId) && Level(tasks, rootId, ids, frontier, done)
    requires p in frontier && (c, p) in Parents(tasks)
    ensures c !in ids && InSubtree(tasks, rootId, c)
  {
    hide Walk;
    EdgeReaches(Parents(tasks), c, p);
    assert InSubtree(tasks, rootId, p);
    ReachesTrans(Parents(tasks), c, p, rootId);
  }

  lemma NextLevel(tasks: Tasks, rootId: Id, ids: seq<Id>, frontier: seq<Id>, done: set<Id>, children: seq<Id>)
    requires !StrictlyReaches(Parents(tasks), rootId, rootId)
    requires TopDown(tasks, rootId, ids) && Level(tasks, rootId, ids, frontier, done)
    requires forall i, j :: 0 <= i < j < |children| ==> children[i] != children[j]
    requires forall c :: c in children <==> exists p :: p in frontier && (c, p) in Parents(tasks)
    ensures TopDown(tasks, rootId, ids + children)
    ensures Level(tasks, rootId, ids + children, children, done + set x | x in frontier)
    ensures forall c :: c in children ==> c in tasks && c !in done && c !in frontier
  {
    hide Walk, StrictlyReaches, InSubtree;
    forall c | c in children ensures c !in ids && InSubtree(tasks, rootId, c) && c in tasks && exists p ::
      p in frontier && tasks[c].parent == Some(p) {
      var p :| p in frontier && (c, p) in Parents(tasks);
      NotYetListed(tasks, rootId, ids, frontier, done, c, p);
    }
    TopDownGrows(tasks, rootId, ids, frontier, children);
    LevelGrows(tasks, rootId, ids, frontier, done, children);
  }

  lemma TopDownGrows(tasks: Tasks, rootId: Id, ids: seq<Id>, frontier: seq<Id>, children: seq<Id>)
    requires TopDown(tasks, rootId, ids) && forall x :: x in frontier ==> x in ids
    requires forall i, j :: 0 <= i < j < |children| ==> children[i] != children[j]
    requires forall c :: c in children ==>
             c !in ids && c in tasks && exists p :: p in frontier && tasks[c].parent == Some(p)
    ensures TopDown(tasks, rootId, ids + children)
  {
    var all := ids + children;
    forall i: nat | 0 < i < |all|
      ensures tasks[all[i]].parent.Some? && exists j: nat :: j < i && Some(all[j]) == tasks[all[i]].parent {
      if i < |ids| {
        var j: nat :| j < i && Some(ids[j]) == tasks[ids[i]].parent;
        assert all[j] == ids[j];
      } else {
        assert all[i] in children;
        var p :| p in frontier && tasks[all[i]].parent == Some(p);
        var j :| 0 <= j < |ids| && ids[j] == p;
        assert all[j] == p;
      }
    }
    forall i, j | 0 <= i < j < |all| ensures all[i] != all[j] {
      if i < |ids| <= j { assert all[i] in ids && all[j] in children; }
    }
  }

  lemma LevelGrows(tasks: Tasks, rootId: Id, ids: seq<Id>, frontier: seq<Id>, done: set<Id>, children: seq<Id>)
    requires Level(tasks, rootId, ids, frontier, done)
    requires forall c :: c in children <==> exists p :: p in frontier && (c, p) in Parents(tasks)
    requires forall c :: c in children ==> c !in ids && InSubtree(tasks, rootId, c)
    ensures Level(tasks, rootId, ids + children, children, done + set x | x in frontier)
  {
    hide InSubtree;
    forall c, p | (c, p) in Parents(tasks) && c in ids + children && c != rootId ensures p in done || p in frontier {
      if c in children {
        var q :| q in frontier && (c, q) in Parents(tasks);
        assert p == q;
      }
    }
  }

  lemma AllCollected(tasks: Tasks, rootId: Id, ids: seq<Id>, done: set<Id>)
    requires TopDown(tasks, rootId, ids) && Level(tasks, rootId, ids, [], done)
    ensures |ids| > 0 && forall x :: x in ids <==> InSubtree(tasks, rootId, x)
  {
    hide Walk;
    forall x | InSubtree(tasks, rootId, x) ensures x in ids {
      assert ids[0] in ids;
      var n: nat :| Walk(Parents(tasks), x, rootId, n);
      BackClosedWalk(Parents(tasks), done, x, rootId, n);
    }
  }

  function DuplicateSource(tasks: Tasks, oid: Id, rootId: Id, actorId: Id): Source
    requires oid in tasks
  {
    var o := tasks[oid];
    Source(oid, if oid == rootId then None else o.parent, if oid == rootId then o.parent else None,
           Task(None, None, actorId, o.assignee, Open, o.fields))
  }

  function DuplicateSources(tasks: Tasks, ids: seq<Id>, rootId: Id, actorId: Id): (order: seq<Source>)
    requires forall x :: x in ids ==> x in tasks
    ensures |order| == |ids| && forall i :: 0 <= i < |ids| ==>
            order[i] == DuplicateSource(tasks, ids[i], rootId, actorId)
  {
    seq(|ids|, i requires 0 <= i < |ids| => DuplicateSource(tasks, ids[i], rootId, actorId))
  }

  lemma DuplicateOrder(tasks: Tasks, deps: Edges, nextId: Id, ids: seq<Id>, rootId: Id, actorId: Id)
    requires TopDown(tasks, rootId, ids) && Stored(tasks, deps, nextId)
    ensures forall x :: x in ids ==> x in tasks
    ensures var order := DuplicateSources(tasks, ids, rootId, actorId);
            && DistinctIds(order) && ParentsFirst(order)
            && forall j: nat :: j < |order| && order[j].outside.Some? ==> order[j].outside.value in tasks
  {
    var order := DuplicateSources(tasks, ids, rootId, actorId);
    forall i: nat | i < |order| && order[i].parent.Some?
      ensures exists j: nat :: j < i && order[j].id == order[i].parent.value {
      var j: nat :| j < i && Some(ids[j]) == tasks[ids[i]].parent;
      assert order[j].id == ids[j];
    }
    forall j: nat | j < |order| && order[j].outside.Some? ensures order[j].outside.value in tasks {
      assert ids[j] in ids;
    }
  }

  /**
   Each original has one copy with its content, as new work of the actor. The root's copy hangs beside
   the root; every other copy hangs off its parent's copy, made before it.
   */
  ghost predicate Duplicated(before: Tasks, after: Tasks, actorId: Id, rootId: Id, m: map<Id, Id>) {
    && Added(before, after, m) && rootId in m
    && forall o :: o in m ==>
      && o in before && m[o] in after && after[m[o]].templateNode.None?
      && IsFresh(after[m[o]], before[o].fields, before[o].assignee, actorId)
      && if o == rootId then after[m[o]].parent == before[o].parent
         else before[o].parent.Some? && before[o].parent.value in m
              && after[m[o]].parent == Some(m[before[o].parent.value]) && m[before[o].parent.value] < m[o]
  }

  lemma AllDuplicated(before: Tasks, after: Tasks, ids: seq<Id>, rootId: Id, actorId: Id, m: map<Id, Id>, lo: Id)
    requires TopDown(before, rootId, ids) && (forall x :: x in ids ==> x in before)
    requires var order := DuplicateSources(before, ids, rootId, actorId);
             ParentsFirst(order) && IdsInTurn(order, |order|, m, lo) && Made(before, after, order, |order|, m, lo)
    ensures Duplicated(before, after, actorId, rootId, m) && Injective(m) && forall x :: x in m <==> x in ids
  {
    hide TopDown, ParentsFirst, IdsInTurn, Made, DuplicateSources, Duplicated, Injective, CopyOf, ParentsMadeFirst,
         RowMade;
    var order := DuplicateSources(before, ids, rootId, actorId);
    ItIsACopy(before, after, order, m, lo);
    ParentsAreMadeFirst(order, m, lo);
    DuplicatedRows(before, after, ids, rootId, actorId, order, m);
  }

  lemma DuplicatedRows(before: Tasks, after: Tasks, ids: seq<Id>, rootId: Id, actorId: Id, order: seq<Source>,
                       m: map<Id, Id>)
    requires TopDown(before, rootId, ids) && Added(before, after, m) && forall x :: x in ids ==> x in before
    requires order == DuplicateSources(before, ids, rootId, actorId) && CopyOf(before, after, order, m)
             && ParentsMadeFirst(order, m)
    ensures Duplicated(before, after, actorId, rootId, m) && forall x :: x in m <==> x in ids
  {
    hide TopDown, Added, CopyOf, ParentsMadeFirst;
    CopiedIds(before, after, order, m, before, ids, rootId, actorId);
    assert rootId in ids by { RootIsListed(before, rootId, ids); }
    forall o | o in m ensures DuplicatedOne(before, after, actorId, rootId, m, o) {
      var j: nat :| j < |ids| && ids[j] == o;
      assert order[j] == DuplicateSource(before, o, rootId, actorId);
      CopiedRow(before, after, order, m, j);
      ListedHasParent(before, rootId, ids, j);
      if o != rootId { MadeBefore(order, m, j); }
    }
  }

  ghost predicate DuplicatedOne(before: Tasks, after: Tasks, actorId: Id, rootId: Id, m: map<Id, Id>, o: Id)
    requires o in m
  {
    && o in before && m[o] in after && after[m[o]].templateNode.None?
    && IsFresh(after[m[o]], before[o].fields, before[o].assignee, actorId)
    && if o == rootId then after[m[o]].parent == before[o].parent
       else before[o].parent.Some? && before[o].parent.value in m
            && after[m[o]].parent == Some(m[before[o].parent.value]) && m[before[o].parent.value] < m[o]
  }

  lemma RootIsListed(tasks: Tasks, rootId: Id, ids: seq<Id>)
    requires TopDown(tasks, rootId, ids)
    ensures rootId in ids
  {
    assert ids[0] in ids;
  }

  lemma ListedHasParent(tasks: Tasks, rootId: Id, ids: seq<Id>, j: nat)
    requires TopDown(tasks, rootId, ids) && j < |ids|
    ensures ids[j] in tasks && (ids[j] != rootId ==> tasks[ids[j]].parent.Some?)
  {
    assert ids[j] in ids;
  }

  lemma CopiedIds(before: Tasks, after: Tasks, order: seq<Source>, m: map<Id, Id>, tasks: Tasks, ids: seq<Id>,
                  rootId: Id, actorId: Id)
    requires CopyOf(before, after, order, m) && |order| == |ids|
             && (forall j :: 0 <= j < |ids| ==> order[j].id == ids[j])
    ensures forall x :: x in m <==> x in ids
    ensures forall x :: x in m ==> exists j: nat :: j < |ids| && ids[j] == x
  {
    forall x ensures x in m <==> x in ids {
      if x in m { var j: nat :| j < |order| && order[j].id == x; assert ids[j] in ids; }
      if x in ids { var j :| 0 <= j < |ids| && ids[j] == x; assert order[j].id == x; }
    }
  }

  lemma CopiedRow(before: Tasks, after: Tasks, order: seq<Source>, m: map<Id, Id>, j: nat)
    requires CopyOf(before, after, order, m) && j < |order|
    ensures order[j].id in m && m[order[j].id] in after
            && after[m[order[j].id]] == order[j].row.(parent := NewParent(order[j], m))
  {}

  lemma NoEdgesInside(before: Tasks, deps: Edges, lo: Id, m: map<Id, Id>, ids: seq<Id>)
    requires Stored(before, deps, lo) && |ids| == 1 && forall x :: x in m <==> x in ids
    ensures Renamed(deps, m) == {}
  {
    forall x, y | x in m && y in m ensures x == y { assert x in ids && y in ids; }
    assert forall a, b :: !Renames(deps, m, a, b);
  }

  lemma BelowIsReached(tasks: Tasks, rootId: Id)
    ensures forall x :: InSubtree(tasks, rootId, x) <==> x == rootId || StrictlyReaches(Parents(tasks), x, rootId)
  {
    hide Walk;
    forall x ensures InSubtree(tasks, rootId, x) <==> x == rootId || StrictlyReaches(Parents(tasks), x, rootId) {
      SelfReaches(Parents(tasks), rootId);
      if InSubtree(tasks, rootId, x) && x != rootId { StrictUnlessSame(Parents(tasks), x, rootId); }
      if StrictlyReaches(Parents(tasks), x, rootId) {
        var n: nat :| n > 0 && Walk(Parents(tasks), x, rootId, n);
      }
    }
  }

  /** The carried-over dependencies join different copies. */
  lemma RenamedApart(before: Tasks, deps: Edges, lo: Id, m: map<Id, Id>)
    requires Stored(before, deps, lo) && Injective(m)
    ensures forall a, b :: (a, b) in Renamed(deps, m) ==> a in m.Values && b in m.Values && a != b
  {
    forall a, b | (a, b) in Renamed(deps, m) ensures a in m.Values && b in m.Values && a != b {
      var x, y :| (x, y) in deps && x in m && y in m && m[x] == a && m[y] == b;
    }
  }

  // ----- The copies have the originals' shape -----

  /**
   Links among originals and links among their copies are the same, and a way up out of the copies does not come
   back.
  */
  ghost predicate SameLinks(links: Edges, before: Tasks, after: Tasks, m: map<Id, Id>) {
    && Added(before, after, m) && Closed(Parents(after), before.Keys)
    && (forall a, b :: a in m && b in m ==> ((a, b) in links <==> (m[a], m[b]) in Parents(after)))
    && (forall a, c :: a in m && (m[a], c) in Parents(after) ==> c in before || c in m.Values)
    && forall a, b, c :: a in m && b in m && (a, c) in links && Reaches(links, c, b) ==> c in m
  }

  lemma {:induction false} WalkOfCopies(links: Edges, before: Tasks, after: Tasks, m: map<Id, Id>, a: Id, b: Id, n: nat)
    requires SameLinks(links, before, after, m) && a in m && b in m && Walk(links, a, b, n)
    ensures Walk(Parents(after), m[a], m[b], n)
    decreases n
  {
    hide SameLinks, Reaches;
    if n > 0 {
      var c :| (a, c) in links && Walk(links, c, b, n - 1);
      StaysAmongOriginals(links, before, after, m, a, b, c, n - 1);
      WalkOfCopies(links, before, after, m, c, b, n - 1);
      assert (m[a], m[c]) in Parents(after) && Walk(Parents(after), m[c], m[b], n - 1);
    }
  }

  lemma StaysAmongOriginals(links: Edges, before: Tasks, after: Tasks, m: map<Id, Id>, a: Id, b: Id, c: Id, n: nat)
    requires SameLinks(links, before, after, m) && a in m && b in m && (a, c) in links && Walk(links, c, b, n)
    ensures c in m && (m[a], m[c]) in Parents(after)
  {
    hide Walk;
    assert Reaches(links, c, b);
  }

  lemma {:induction false} WalkOfOriginals(links: Edges, before: Tasks, after: Tasks, m: map<Id, Id>, a: Id, b: Id,
                                           n: nat)
    requires SameLinks(links, before, after, m) && a in m && b in m && Walk(Parents(after), m[a], m[b], n)
    ensures Walk(links, a, b, n)
    decreases n
  {
    hide SameLinks;
    if n == 0 {
      SameCopySameOriginal(links, before, after, m, a, b);
    } else {
      var d :| (m[a], d) in Parents(after) && Walk(Parents(after), d, m[b], n - 1);
      var c := StaysAmongCopies(links, before, after, m, a, b, d, n - 1);
      WalkOfOriginals(links, before, after, m, c, b, n - 1);
      assert (a, c) in links && Walk(links, c, b, n - 1);
    }
  }

  lemma SameCopySameOriginal(links: Edges, before: Tasks, after: Tasks, m: map<Id, Id>, a: Id, b: Id)
    requires SameLinks(links, before, after, m) && a in m && b in m && m[a] == m[b]
    ensures a == b
  {
    hide Walk, Reaches;
  }

  lemma StaysAmongCopies(links: Edges, before: Tasks, after: Tasks, m: map<Id, Id>, a: Id, b: Id, d: Id, n: nat)
    returns (c: Id)
    requires SameLinks(links, before, after, m) && a in m && b in m
    requires (m[a], d) in Parents(after) && Walk(Parents(after), d, m[b], n)
    ensures c in m && m[c] == d && (a, c) in links
  {
    hide Walk, Reaches;
    if d in before { ClosedWalk(Parents(after), before.Keys, d, m[b], n); }
    assert d in m.Values;
    c :| c in m && m[c] == d;
  }

  /** One copy is above another exactly when their originals are. */
  lemma SameShape(links: Edges, before: Tasks, after: Tasks, m: map<Id, Id>, a: Id, b: Id)
    requires SameLinks(links, before, after, m) && a in m && b in m
    ensures Reaches(Parents(after), m[a], m[b]) <==> Reaches(links, a, b)
  {
    hide Walk, SameLinks;
    if Reaches(links, a, b) {
      var n: nat :| Walk(links, a, b, n);
      WalkOfCopies(links, before, after, m, a, b, n);
    }
    if Reaches(Parents(after), m[a], m[b]) {
      var n: nat :| Walk(Parents(after), m[a], m[b], n);
      WalkOfOriginals(links, before, after, m, a, b, n);
    }
  }

  lemma OccurrenceHasTheTemplatesShape(nodes: seq<Row<Id>>, before: Tasks, after: Tasks, deps: Edges, m: map<Id, Id>,
                                       lo: Id, a: Id, b: Id)
    requires UniqueIds(nodes) && Resolved(nodes) && m.Keys == Ids(nodes) && Added(before, after, m)
             && LinksCarried(nodes, after, m)
    requires Stored(before, deps, lo) && a in m && b in m
    ensures Reaches(Parents(after), m[a], m[b]) <==> Reaches(ParentLinks(nodes), a, b)
  {
    hide Walk, Reaches;
    forall x, y | x in m && y in m ensures (x, y) in ParentLinks(nodes) <==> (m[x], m[y]) in Parents(after) {
      var n :| n in nodes && n.id == x;
      if (x, y) in ParentLinks(nodes) { assert Row(x, Some(y)) in nodes; }
    }
    forall x, c | x in m && (m[x], c) in Parents(after) ensures c in m.Values {
      var n :| n in nodes && n.id == x;
      assert m[n.parent.value] in m.Values;
    }
    forall x, c | x in m && (x, c) in ParentLinks(nodes) ensures c in m { assert Row(x, Some(c)) in nodes; }
    SameShape(ParentLinks(nodes), before, after, m, a, b);
  }

  /** And no way leads from a copy, other than the root's, straight to a row that was there before. */
  lemma DuplicateHasTheOriginalsShape(before: Tasks, after: Tasks, deps: Edges, actorId: Id, rootId: Id, m: map<Id, Id>,
                                      lo: Id, a: Id, b: Id)
    requires Duplicated(before, after, actorId, rootId, m) && Stored(before, deps, lo)
    requires !StrictlyReaches(Parents(before), rootId, rootId)
    requires (forall x :: x in m <==> x == rootId) || (forall x :: x in m <==> Reaches(Parents(before), x, rootId))
    requires a in m && b in m
    ensures Reaches(Parents(after), m[a], m[b]) <==> Reaches(Parents(before), a, b)
    ensures a != rootId ==> after[m[a]].parent.Some? && after[m[a]].parent.value !in before
  {
    hide Walk, Added, Reaches, StrictlyReaches;
    DuplicateLinks(before, after, deps, actorId, rootId, m, lo);
    SameShape(Parents(before), before, after, m, a, b);
    NotBefore(before, after, m);
  }

  lemma NotBefore(before: Tasks, after: Tasks, m: map<Id, Id>)
    requires Added(before, after, m)
    ensures forall k :: k in m ==> m[k] !in before
  {}

  lemma DuplicateLinks(before: Tasks, after: Tasks, deps: Edges, actorId: Id, rootId: Id, m: map<Id, Id>, lo: Id)
    requires Duplicated(before, after, actorId, rootId, m) && Stored(before, deps, lo)
    requires !StrictlyReaches(Parents(before), rootId, rootId)
    requires (forall x :: x in m <==> x == rootId) || (forall x :: x in m <==> Reaches(Parents(before), x, rootId))
    ensures SameLinks(Parents(before), before, after, m)
  {
    hide Walk, IsFresh;
    forall x, y | x in m && y in m ensures (x, y) in Parents(before) <==> (m[x], m[y]) in Parents(after) {
      if x == rootId && before[x].parent == Some(y) { RootStaysOut(before, rootId, m, x, y, y); }
    }
    forall x, y, c | x in m && y in m && (x, c) in Parents(before) && Reaches(Parents(before), c, y) ensures c in m {
      RootStaysOut(before, rootId, m, x, y, c);
    }
    forall x, c | x in m && (m[x], c) in Parents(after) ensures c in before || c in m.Values {
      if x != rootId { assert m[before[x].parent.value] in m.Values; }
    }
  }

  /** A way from one original up to another passes only originals. */
  lemma RootStaysOut(before: Tasks, rootId: Id, m: map<Id, Id>, x: Id, y: Id, c: Id)
    requires !StrictlyReaches(Parents(before), rootId, rootId)
    requires (forall k :: k in m <==> k == rootId) || (forall k :: k in m <==> Reaches(Parents(before), k, rootId))
    requires x in m && y in m && (x, c) in Parents(before) && (c == y || Reaches(Parents(before), c, y))
    ensures c in m && x != rootId
  {
    hide Walk;
    SelfReaches(Parents(before), rootId);
    if c == y { SelfReaches(Parents(before), y); }
    assert Reaches(Parents(before), y, rootId);
    ReachesTrans(Parents(before), c, y, rootId);
    EdgeReaches(Parents(before), x, c);
    if x == rootId { ReachesTrans(Parents(before), x, c, rootId); }
  }
}
