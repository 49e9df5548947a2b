/**
 From a saved template to real tasks: the payload is saved in place and one occurrence of the template is
 then generated. With distinct ids the tasks are the payload over again, link for link and dependency
 for dependency. The dependency graph stays free of loops exactly when the payload's own dependencies,
 between nodes taken for one where they share an id, have none; the validator does not see to that.
 */
module TemplateToTasks {
  import opened Wrappers
  import opened Entities
  import opened Graphs
  import opened Forest
  import T = TemplateTree
  import R = TemplateReconcile
  import C = TreeCopy
  import P = RelationshipProtocol
  import Relationships

  /** The row a payload node is saved in: the one it names, or one of its own. */
  datatype Place = Named(id: R.NodeId) | Own(key: T.Key)

  function PlaceOf(n: T.NodeInput): Place {
    if n.id.Some? then Named(n.id.value) else Own(n.key)
  }

  function Places(payload: seq<T.NodeInput>): (m: map<T.Key, Place>)
    requires T.UniqueKeys(payload)
    ensures m.Keys == T.Keys(payload) && forall n :: n in payload ==> m[n.key] == PlaceOf(n)
  {
    map i | 0 <= i < |payload| :: payload[i].key := PlaceOf(payload[i])
  }

  /** The dependencies a payload stands for once saved. */
  ghost function SavedDependencies(payload: seq<T.NodeInput>, dependencies: seq<T.Dependency>): set<(Place, Place)>
    requires T.UniqueKeys(payload)
  {
    Unlooped(Renamed(T.Edges(dependencies), Places(payload)))
  }

  /** With distinct ids these loop just when the payload's own do. */
  lemma DistinctIdsLoseNothing(payload: seq<T.NodeInput>, dependencies: seq<T.Dependency>)
    requires T.UniqueKeys(payload) && R.DistinctIds(payload) && T.DependenciesResolve(T.Keys(payload), dependencies)
    ensures Acyclic(SavedDependencies(payload, dependencies)) <==> Acyclic(T.Edges(dependencies))
  {
    hide *;
    PlacesKeepApart(payload);
    PlacesJoinKeys(payload, dependencies);
    RenamedAcyclicIff(T.Edges(dependencies), Places(payload));
  }

  lemma PlacesKeepApart(payload: seq<T.NodeInput>)
    requires T.UniqueKeys(payload) && R.DistinctIds(payload)
    ensures Injective(Places(payload))
  {
    hide Places, R.DistinctIds, T.UniqueKeys;
    var m := Places(payload);
    forall a, b | a in m && b in m && m[a] == m[b] ensures a == b {
      var i :| 0 <= i < |payload| && payload[i].key == a;
      var j :| 0 <= j < |payload| && payload[j].key == b;
      assert payload[i] in payload && payload[j] in payload;
      if i != j { DifferentPlaces(payload, if i < j then i else j, if i < j then j else i); }
    }
  }

  lemma DifferentPlaces(payload: seq<T.NodeInput>, i: nat, j: nat)
    requires T.UniqueKeys(payload) && R.DistinctIds(payload) && i < j < |payload|
    ensures PlaceOf(payload[i]) != PlaceOf(payload[j])
  {}

  lemma PlacesJoinKeys(payload: seq<T.NodeInput>, dependencies: seq<T.Dependency>)
    requires T.UniqueKeys(payload) && Injective(Places(payload)) && T.DependenciesResolve(T.Keys(payload), dependencies)
    ensures forall a, b :: (a, b) in T.Edges(dependencies) ==> a in Places(payload) && b in Places(payload)
    ensures SavedDependencies(payload, dependencies) == Renamed(T.Edges(dependencies), Places(payload))
  {
    hide T.Keys, T.UniqueKeys, Places;
    var m, edges := Places(payload), T.Edges(dependencies);
    forall x, y | (x, y) in Renamed(edges, m) ensures x != y {
      var a, b :| (a, b) in edges && a in m && b in m && m[a] == x && m[b] == y;
      assert T.Dependency(a, b) in dependencies;
    }
  }

  /** Two nodes saved in one row, one before and one after a third: a chain of dependencies closes on itself. */
  lemma SharedRowClosesALoop(edges: set<(T.Key, T.Key)>, m: map<T.Key, Place>, a: T.Key, b: T.Key, c: T.Key)
    requires (a, b) in edges && (b, c) in edges && {a, b, c} <= m.Keys && m[a] == m[c] != m[b]
    ensures !Acyclic(Unlooped(Renamed(edges, m)))
  {
    var e := Unlooped(Renamed(edges, m));
    assert Renames(edges, m, m[a], m[b]) && Renames(edges, m, m[b], m[c]);
    EdgeReaches(e, m[a], m[b]);
    EdgeReaches(e, m[b], m[c]);
    ReachesTrans(e, m[a], m[b], m[c]);
  }

  // ----- Saving, then generating -----

  /**
   The tasks are the payload over again: new rows, one for each node, below the task of the parent node, with
   its content.
  */
  ghost predicate TasksAre(payload: seq<T.NodeInput>, before: C.Tasks, after: C.Tasks, taskOf: map<T.Key, C.Id>) {
    && C.Added(before, after, taskOf) && taskOf.Keys == T.Keys(payload)
    && forall n :: n in payload ==> TaskIs(n, after, taskOf)
  }

  predicate TaskIs(n: T.NodeInput, after: C.Tasks, taskOf: map<T.Key, C.Id>) {
    && n.key in taskOf && taskOf[n.key] in after && after[taskOf[n.key]].fields == n.data
    && (n.parentKey.None? ==> after[taskOf[n.key]].parent.None?)
    && (n.parentKey.Some? ==>
        n.parentKey.value in taskOf && after[taskOf[n.key]].parent == Some(taskOf[n.parentKey.value]))
  }

  /** Another node names the id of the one without a parent, and may take its row. */
  ghost predicate RootSharesId(payload: seq<T.NodeInput>) {
    exists n, o :: n in payload && o in payload && n.parentKey.None? && n.id.Some? && o.key != n.key && o.id == n.id
  }

  /** None when the payload is refused, or when nodes sharing an id leave no row without a parent. */
  method SaveAndGenerate(store: R.TemplateStore, db: C.TaskDb, templateId: nat, payload: seq<T.NodeInput>,
                         dependencies: seq<T.Dependency>, activeDuties: set<DutyId>, assignees: map<C.Id, C.Id>,
                         creatorId: C.Id)
    returns (r: Option<map<T.Key, C.Id>>)
    requires store.Valid() && db.Valid()
    modifies store, db
    ensures store.Valid() && db.Valid()
    ensures r.Some? ==> T.Verdict(payload, dependencies).None? && T.UniqueKeys(payload)
    ensures r.None? ==> db.tasks == old(db.tasks) && db.deps == old(db.deps)
    // the dependency graph gets a loop exactly when the saved dependencies have one
    ensures r.Some? && Acyclic(old(db.deps)) ==>
              (Acyclic(db.deps) <==> Acyclic(SavedDependencies(payload, dependencies)))
    // with distinct ids the tasks are the payload, link for link and dependency for dependency
    ensures r.Some? && R.DistinctIds(payload) ==>
              && TasksAre(payload, old(db.tasks), db.tasks, r.value)
              && db.deps == old(db.deps) + Renamed(T.Edges(dependencies), r.value)
    ensures r.None? ==> T.Verdict(payload, dependencies).Some? || RootSharesId(payload)
                        || !(R.PayloadIds(payload) <= R.IdsOf(old(store.nodes), templateId))
                        || !(R.NewDuties(old(store.nodes), payload) <= activeDuties)
  {
    hide *;
    ghost var idsBelow := store.nextId;
    RowsAreSound(store);
    var saved := store.ReconcileTree(templateId, payload, dependencies, activeDuties);
    if saved.Err? { return None; }
    var keyToId := saved.value;
    R.AcceptedFacts(payload, dependencies);
    IdsAreBelow(old(store.nodes), templateId, R.PayloadIds(payload), idsBelow);
    RowsAreSound(store);
    var rows, content := ReadNodes(store.nodes, templateId);
    var edges := ReadEdges(store.nodes, store.deps, templateId);
    EdgesRead(store.nodes, old(store.deps), store.deps, store.nextId, templateId, payload, dependencies, keyToId,
              edges);
    IdsWereGiven(payload, keyToId, idsBelow);
    ghost var ordered :| T.ParentFirst(payload, ordered) && R.StoredInOrder(store.nodes, templateId, ordered, keyToId);
    if !RootSharesId(payload) {
      RootRead(store.nodes, templateId, payload, dependencies, ordered, keyToId, idsBelow, rows);
    }
    if R.DistinctIds(payload) {
      SavedTree(store.nodes, store.deps, store.nextId, templateId, payload, dependencies, keyToId, rows);
    }
    ghost var tasksBefore, depsBefore := db.tasks, db.deps;
    DependenciesJoinTasks(db);
    var generated := db.GenerateOccurrence(rows, content, edges, assignees, creatorId);
    if generated.None? { return None; }
    var m := generated.value.1;
    KeysGenerated(rows, content, assignees, creatorId, db.tasks, m);
    NewDependencies(depsBefore, tasksBefore, db.tasks, edges, m);
    SavedLoopsIff(payload, dependencies, keyToId, idsBelow);
    KeysAreRows(store.nodes, templateId, payload, ordered, keyToId);
    var taskOf := map k | k in keyToId :: m[keyToId[k]];
    if R.DistinctIds(payload) {
      TasksOfPayload(store.nodes, templateId, payload, keyToId, rows, content, assignees, creatorId, tasksBefore,
                     db.tasks, m, taskOf);
      DependenciesOfPayload(dependencies, keyToId, edges, m, taskOf);
    }
    r := Some(taskOf);
  }

  method ReadNodes(nodes: R.Nodes, templateId: nat) returns (rows: seq<Row<C.Id>>, content: map<C.Id, string>)
    ensures UniqueIds(rows) && Ids(rows) == R.IdsOf(nodes, templateId)
    ensures forall r :: r in rows ==> r.id in nodes && r == Row(r.id, nodes[r.id].parent)
    ensures forall r :: r in rows ==> r.id in content && content[r.id] == nodes[r.id].data
  {
    rows, content := [], map[];
    var left := R.IdsOf(nodes, templateId);
    while left != {}
      invariant left <= R.IdsOf(nodes, templateId) && Ids(rows) == R.IdsOf(nodes, templateId) - left
      invariant UniqueIds(rows) && forall r :: r in rows ==> r.id in nodes && r == Row(r.id, nodes[r.id].parent)
      invariant forall r :: r in rows ==> r.id in content && content[r.id] == nodes[r.id].data
    {
      var x :| x in left;
      left := left - {x};
      assert x !in Ids(rows);
      var row := Row(x, nodes[x].parent);
      assert Ids(rows + [row]) == Ids(rows) + {x};
      rows, content := rows + [row], content[x := nodes[x].data];
    }
  }

  method ReadEdges(nodes: R.Nodes, deps: R.Edges, templateId: nat) returns (edges: C.Edges)
    ensures forall a, b :: (a, b) in edges <==> (a, b) in deps && a in nodes && nodes[a].templateId == templateId
  {
    edges := set e | e in deps && e.0 in nodes && nodes[e.0].templateId == templateId;
  }

  // ----- What the two steps leave -----

  lemma RowsAreSound(store: R.TemplateStore)
    requires store.Valid()
    ensures R.Sound(store.nodes, store.deps, store.nextId)
    ensures forall x :: x in store.nodes ==> x < store.nextId
  {}

  lemma DependenciesJoinTasks(db: C.TaskDb)
    requires db.Valid()
    ensures forall a, b :: (a, b) in db.deps ==> a in db.tasks && b in db.tasks
  {}

  lemma IdsAreBelow(nodes: R.Nodes, templateId: nat, ids: set<R.NodeId>, bound: R.NodeId)
    requires (forall x :: x in nodes ==> x < bound) && ids <= R.IdsOf(nodes, templateId)
    ensures forall x :: x in ids ==> x < bound
  {}

  /** The template's stored edges are the saved ones, between its own rows. */
  lemma EdgesRead(nodes: R.Nodes, depsBefore: R.Edges, deps: R.Edges, nextId: R.NodeId, templateId: nat,
                  payload: seq<T.NodeInput>, dependencies: seq<T.Dependency>, f: map<T.Key, R.NodeId>, edges: C.Edges)
    requires R.Sound(nodes, deps, nextId)
    requires R.EdgesReplaced(nodes, depsBefore, deps, templateId, Unlooped(Renamed(T.Edges(dependencies), f)))
    requires forall a, b :: (a, b) in edges <==> (a, b) in deps && a in nodes && nodes[a].templateId == templateId
    ensures edges == Unlooped(Renamed(T.Edges(dependencies), f))
    ensures forall a, b :: (a, b) in edges ==>
            a in R.IdsOf(nodes, templateId) && b in R.IdsOf(nodes, templateId) && a != b
  {
    hide T.Edges, Renames;
    var wanted := Unlooped(Renamed(T.Edges(dependencies), f));
    forall a: nat, b: nat ensures (a, b) in edges <==> (a, b) in wanted {
      assert (a, b) in wanted ==> a in nodes && nodes[a].templateId == templateId;
    }
    SameEdges(edges, wanted);
  }

  lemma KeysGenerated(rows: seq<Row<C.Id>>, content: map<C.Id, string>, assignees: map<C.Id, C.Id>, creatorId: C.Id,
                      after: C.Tasks, m: map<C.Id, C.Id>)
    requires forall r :: r in rows ==> r.id in content
    requires C.Generated(rows, content, assignees, creatorId, after, m)
    ensures m.Keys == Ids(rows)
  {}

  /** Dependencies among new tasks loop exactly when those among the nodes do. */
  lemma NewDependencies(deps: C.Edges, before: C.Tasks, after: C.Tasks, edges: C.Edges, m: map<C.Id, C.Id>)
    requires C.Added(before, after, m) && forall a, b :: (a, b) in deps ==> a in before && b in before
    requires forall a, b :: (a, b) in edges ==> a in m && b in m && a != b
    ensures Unlooped(Renamed(edges, m)) == Renamed(edges, m)
    ensures Acyclic(deps) ==> (Acyclic(deps + Renamed(edges, m)) <==> Acyclic(edges))
  {
    hide Acyclic;
    var added := Renamed(edges, m);
    forall x, y | (x, y) in added ensures x != y && x !in before && y !in before {
      var a, b :| (a, b) in edges && a in m && b in m && m[a] == x && m[b] == y;
    }
    RenamedAcyclicIff(edges, m);
    if Acyclic(deps) && Acyclic(added) { FreshEdgesAcyclic(deps, added, before.Keys); }
    if Acyclic(deps + added) { FewerEdgesAcyclic(added, deps + added); }
  }

  function RowAt(p: Place, f: map<T.Key, R.NodeId>): R.NodeId {
    match p
    case Named(id) => id
    case Own(k) => if k in f then f[k] else 0
  }

  /** The ids a save gives: supplied ones kept, all others new and different. */
  ghost predicate IdsGiven(payload: seq<T.NodeInput>, f: map<T.Key, R.NodeId>, bound: R.NodeId) {
    && f.Keys == T.Keys(payload) && R.GivenIds(payload, f) && (forall x :: x in R.PayloadIds(payload) ==> x < bound)
    && (forall n :: n in payload && n.id.None? ==> n.key in f && f[n.key] >= bound)
    && forall n, o :: n in payload && o in payload && n.id.None? && o.id.None? && n.key != o.key ==>
         n.key in f && o.key in f && f[n.key] != f[o.key]
  }

  lemma IdsWereGiven(payload: seq<T.NodeInput>, f: map<T.Key, R.NodeId>, bound: R.NodeId)
    requires f.Keys == T.Keys(payload) && R.GivenIds(payload, f) && forall x :: x in R.PayloadIds(payload) ==> x < bound
    requires forall n :: n in payload && n.id.None? ==> n.key in f && f[n.key] >= bound
    requires forall n, o :: n in payload && o in payload && n.id.None? && o.id.None? && n.key != o.key ==>
               n.key in f && o.key in f && f[n.key] != f[o.key]
    ensures IdsGiven(payload, f, bound)
  {}

  lemma NodeWithKey(payload: seq<T.NodeInput>, k: T.Key) returns (n: T.NodeInput)
    requires k in T.Keys(payload)
    ensures n in payload && n.key == k
  {
    var i :| 0 <= i < |payload| && payload[i].key == k;
    n := payload[i];
  }

  lemma RowOfKey(payload: seq<T.NodeInput>, f: map<T.Key, R.NodeId>, bound: R.NodeId, k: T.Key)
    requires T.UniqueKeys(payload) && IdsGiven(payload, f, bound) && k in f
    ensures k in Places(payload) && RowAt(Places(payload)[k], f) == f[k]
  {
    hide T.UniqueKeys, T.Keys, Places;
    var n := NodeWithKey(payload, k);
  }

  /** Two nodes are saved in one row only if they name it. */
  lemma SameRowSamePlace(payload: seq<T.NodeInput>, f: map<T.Key, R.NodeId>, bound: R.NodeId, a: T.Key, b: T.Key)
    requires T.UniqueKeys(payload) && IdsGiven(payload, f, bound) && a in f && b in f && f[a] == f[b]
    ensures a in Places(payload) && b in Places(payload) && Places(payload)[a] == Places(payload)[b]
  {
    hide T.UniqueKeys, T.Keys, Places;
    var n := NodeWithKey(payload, a);
    var o := NodeWithKey(payload, b);
    if n.id.Some? { assert n.id.value in R.PayloadIds(payload); }
    if o.id.Some? { assert o.id.value in R.PayloadIds(payload); }
  }

  lemma SavedLoopsIff(payload: seq<T.NodeInput>, dependencies: seq<T.Dependency>, f: map<T.Key, R.NodeId>,
                      bound: R.NodeId)
    requires T.UniqueKeys(payload) && IdsGiven(payload, f, bound)
    ensures Acyclic(Unlooped(Renamed(T.Edges(dependencies), f))) <==> Acyclic(SavedDependencies(payload, dependencies))
  {
    hide IdsGiven, T.UniqueKeys, T.Edges, Acyclic, RowAt, Places;
    var edges, places := T.Edges(dependencies), Places(payload);
    var saved := SavedDependencies(payload, dependencies);
    var rowAt := map p | p in places.Values :: RowAt(p, f);
    assert places.Keys == f.Keys by { SameKeys(payload, f, bound); }
    forall k | k in f ensures places[k] in rowAt && rowAt[places[k]] == f[k] { RowOfKey(payload, f, bound, k); }
    forall p, q | p in rowAt && q in rowAt && rowAt[p] == rowAt[q] ensures p == q {
      var a :| a in places && places[a] == p;
      var b :| b in places && places[b] == q;
      SameRowSamePlace(payload, f, bound, a, b);
    }
    forall p, q | (p, q) in saved ensures p in rowAt && q in rowAt {
      var a, b :| (a, b) in edges && a in places && b in places && places[a] == p && places[b] == q;
    }
    RenamedAcyclicIff(saved, rowAt);
    assert Renamed(saved, rowAt) == Unlooped(Renamed(edges, f)) by { RenamedTwice(edges, places, rowAt, f); }
  }

  lemma SameKeys(payload: seq<T.NodeInput>, f: map<T.Key, R.NodeId>, bound: R.NodeId)
    requires T.UniqueKeys(payload) && IdsGiven(payload, f, bound)
    ensures Places(payload).Keys == f.Keys
  {}

  /** Renaming in two steps, dropping edges that shrink to one node at either, is renaming in one. */
  lemma RenamedTwice(edges: set<(T.Key, T.Key)>, m: map<T.Key, Place>, h: map<Place, R.NodeId>, f: map<T.Key, R.NodeId>)
    requires m.Keys == f.Keys && Injective(h) && forall k :: k in f ==> m[k] in h && h[m[k]] == f[k]
    ensures Renamed(Unlooped(Renamed(edges, m)), h) == Unlooped(Renamed(edges, f))
  {
    var middle := Unlooped(Renamed(edges, m));
    forall x, y ensures (x, y) in Renamed(middle, h) <==> (x, y) in Unlooped(Renamed(edges, f)) {
      if (x, y) in Renamed(middle, h) {
        assert Renames(middle, h, x, y);
        var p, q :| (p, q) in middle && p in h && q in h && h[p] == x && h[q] == y;
        assert Renames(edges, m, p, q);
        var a, b :| (a, b) in edges && a in m && b in m && m[a] == p && m[b] == q;
        assert Renames(edges, f, x, y);
      }
      if (x, y) in Unlooped(Renamed(edges, f)) {
        assert Renames(edges, f, x, y);
        var a, b :| (a, b) in edges && a in f && b in f && f[a] == x && f[b] == y;
        assert Renames(edges, m, m[a], m[b]);
        assert Renames(middle, h, x, y);
      }
    }
  }

  lemma KeysAreRows(nodes: R.Nodes, templateId: nat, payload: seq<T.NodeInput>, ordered: seq<T.NodeInput>,
                    f: map<T.Key, R.NodeId>)
    requires T.ParentFirst(payload, ordered) && R.StoredInOrder(nodes, templateId, ordered, f)
             && f.Keys == T.Keys(payload)
    ensures forall k :: k in f ==> f[k] in R.IdsOf(nodes, templateId)
  {
    forall k | k in f ensures f[k] in R.IdsOf(nodes, templateId) {
      var n := NodeWithKey(payload, k);
      assert n in multiset(ordered);
      var j: nat :| j < |ordered| && ordered[j] == n;
      var l := R.LastUnderSameId(ordered, f, j);
    }
  }

  /** Unless its id is shared, the payload's root is read back as a root. */
  lemma RootRead(nodes: R.Nodes, templateId: nat, payload: seq<T.NodeInput>, dependencies: seq<T.Dependency>,
                 ordered: seq<T.NodeInput>, f: map<T.Key, R.NodeId>, bound: R.NodeId, rows: seq<Row<C.Id>>)
    requires T.Verdict(payload, dependencies).None? && !RootSharesId(payload)
    requires T.ParentFirst(payload, ordered) && R.StoredInOrder(nodes, templateId, ordered, f)
             && IdsGiven(payload, f, bound)
    requires Ids(rows) == R.IdsOf(nodes, templateId)
    requires forall r :: r in rows ==> r.id in nodes && r == Row(r.id, nodes[r.id].parent)
    ensures exists r :: r in rows && r.parent.None?
  {
    assert T.TreeVerdict(payload).None?;
    hide T.Verdict, T.TreeVerdict, Children, IdsGiven, RootSharesId, T.UniqueKeys, T.ParentFirst, R.StoredInOrder,
         T.ParentsResolve, Acyclic;
    T.HierarchyIsExact(payload);
    var root := Children(T.RowsOf(payload), None)[0];
    assert root in Children(T.RowsOf(payload), None);
    var i: nat :| i < |payload| && T.RowsOf(payload)[i] == root;
    RootsRow(nodes, templateId, payload, ordered, f, bound, payload[i]);
    assert f[payload[i].key] in R.IdsOf(nodes, templateId);
    var r :| r in rows && r.id == f[payload[i].key];
  }

  lemma RootsRow(nodes: R.Nodes, templateId: nat, payload: seq<T.NodeInput>, ordered: seq<T.NodeInput>,
                 f: map<T.Key, R.NodeId>, bound: R.NodeId, n: T.NodeInput)
    requires T.UniqueKeys(payload) && n in payload && n.parentKey.None? && !RootSharesId(payload)
    requires T.ParentFirst(payload, ordered) && R.StoredInOrder(nodes, templateId, ordered, f)
             && IdsGiven(payload, f, bound)
    ensures n.key in f && f[n.key] in nodes && nodes[f[n.key]].templateId == templateId && nodes[f[n.key]].parent.None?
  {
    hide IdsGiven, T.UniqueKeys;
    assert forall o :: o in ordered <==> o in multiset(ordered);
    assert forall o :: o in payload <==> o in multiset(payload);
    var j: nat :| j < |ordered| && ordered[j] == n;
    forall k | j < k < |ordered| ensures f[ordered[k].key] != f[n.key] {
      assert ordered[k] in payload;
      if f[ordered[k].key] == f[n.key] { SharesPlace(payload, ordered, f, bound, j, k); }
    }
    assert R.LastUnderItsId(ordered, |ordered|, f, j);
  }

  lemma SharesPlace(payload: seq<T.NodeInput>, ordered: seq<T.NodeInput>, f: map<T.Key, R.NodeId>, bound: R.NodeId,
                    j: nat, k: nat)
    requires T.UniqueKeys(payload) && T.UniqueKeys(ordered) && IdsGiven(payload, f, bound) && j < k < |ordered|
    requires ordered[j] in payload && ordered[k] in payload && ordered[j].key in f && ordered[k].key in f
    requires f[ordered[j].key] == f[ordered[k].key]
    ensures ordered[j].key != ordered[k].key && ordered[j].id.Some? && ordered[j].id == ordered[k].id
  {
    hide IdsGiven, Places;
    SameRowSamePlace(payload, f, bound, ordered[j].key, ordered[k].key);
  }

  // ----- With distinct ids -----

  /** The rows read are the payload's nodes, so the roots reach them all. */
  lemma SavedTree(nodes: R.Nodes, deps: R.Edges, nextId: R.NodeId, templateId: nat, payload: seq<T.NodeInput>,
                  dependencies: seq<T.Dependency>, f: map<T.Key, R.NodeId>, rows: seq<Row<C.Id>>)
    requires T.Verdict(payload, dependencies).None? && R.Sound(nodes, deps, nextId)
    requires R.Stored(nodes, templateId, payload, f) && Injective(f) && f.Keys == T.Keys(payload)
    requires UniqueIds(rows) && Ids(rows) == R.IdsOf(nodes, templateId)
    requires forall r :: r in rows ==> r.id in nodes && r == Row(r.id, nodes[r.id].parent)
    ensures forall r :: r in rows ==> Rooted(rows, r.id)
  {
    assert T.TreeVerdict(payload).None?;
    hide *;
    T.HierarchyIsExact(payload);
    SavedLinks(nodes, templateId, payload, f, rows);
    RenamedAcyclic(ParentLinks(T.RowsOf(payload)), f);
    assert Resolved(rows) by { RowsResolve(nodes, deps, nextId, templateId, rows); }
    RootedIffAcyclic(rows);
  }

  lemma RowsResolve(nodes: R.Nodes, deps: R.Edges, nextId: R.NodeId, templateId: nat, rows: seq<Row<C.Id>>)
    requires R.Sound(nodes, deps, nextId) && Ids(rows) == R.IdsOf(nodes, templateId)
    requires forall r :: r in rows ==> r.id in nodes && r == Row(r.id, nodes[r.id].parent)
    ensures Resolved(rows)
  {
    forall r | r in rows && r.parent.Some? ensures r.parent.value in Ids(rows) {
      assert r.id in R.IdsOf(nodes, templateId);
    }
  }

  /** The row read for a payload node. */
  lemma RowOfNode(nodes: R.Nodes, templateId: nat, payload: seq<T.NodeInput>, f: map<T.Key, R.NodeId>,
                  rows: seq<Row<C.Id>>, n: T.NodeInput)
    requires T.ParentsResolve(payload)
    requires R.Stored(nodes, templateId, payload, f) && f.Keys == T.Keys(payload)
             && Ids(rows) == R.IdsOf(nodes, templateId)
    requires (forall r :: r in rows ==> r.id in nodes && r == Row(r.id, nodes[r.id].parent)) && n in payload
    ensures n.key in f && (n.parentKey.Some? ==> n.parentKey.value in f)
    ensures Row(f[n.key], if n.parentKey.None? then None else Some(f[n.parentKey.value])) in rows
    ensures f[n.key] in nodes && nodes[f[n.key]].data == n.data
  {
    hide T.Keys;
    assert nodes[f[n.key]] == R.RowFor(templateId, n, f);
    assert f[n.key] in R.IdsOf(nodes, templateId);
    var r :| r in rows && r.id == f[n.key];
  }

  lemma SavedLinks(nodes: R.Nodes, templateId: nat, payload: seq<T.NodeInput>, f: map<T.Key, R.NodeId>,
                   rows: seq<Row<C.Id>>)
    requires T.UniqueKeys(payload) && T.ParentsResolve(payload)
    requires R.Stored(nodes, templateId, payload, f) && f.Keys == T.Keys(payload)
             && Ids(rows) == R.IdsOf(nodes, templateId)
    requires forall r :: r in rows ==> r.id in nodes && r == Row(r.id, nodes[r.id].parent)
    ensures ParentLinks(rows) == Renamed(ParentLinks(T.RowsOf(payload)), f)
  {
    hide T.Keys, T.UniqueKeys, T.ParentsResolve, R.Stored, ParentLinks;
    var links := ParentLinks(T.RowsOf(payload));
    forall x: nat, y: nat ensures (x, y) in ParentLinks(rows) <==> Renames(links, f, x, y) {
      if (x, y) in ParentLinks(rows) {
        var r := Row(x, Some(y));
        var n := NodeOfRow(nodes, templateId, payload, f, rows, r);
        assert (n.key, n.parentKey.value) in links by { InRowsOf(payload, n); }
      }
      if Renames(links, f, x, y) {
        var a, b :| (a, b) in links && a in f && b in f && f[a] == x && f[b] == y;
        var i :| 0 <= i < |payload| && T.RowsOf(payload)[i] == Row(a, Some(b));
        RowOfNode(nodes, templateId, payload, f, rows, payload[i]);
      }
    }
    SameEdges(ParentLinks(rows), Renamed(links, f));
  }

  lemma InRowsOf(payload: seq<T.NodeInput>, n: T.NodeInput)
    requires n in payload
    ensures Row(n.key, n.parentKey) in T.RowsOf(payload)
  {
    var i :| 0 <= i < |payload| && payload[i] == n;
    assert T.RowsOf(payload)[i] in T.RowsOf(payload);
  }

  lemma NodeOfRow(nodes: R.Nodes, templateId: nat, payload: seq<T.NodeInput>, f: map<T.Key, R.NodeId>,
                  rows: seq<Row<C.Id>>, r: Row<C.Id>)
    returns (n: T.NodeInput)
    requires T.ParentsResolve(payload)
    requires R.Stored(nodes, templateId, payload, f) && f.Keys == T.Keys(payload)
             && Ids(rows) == R.IdsOf(nodes, templateId)
    requires (forall s :: s in rows ==> s.id in nodes && s == Row(s.id, nodes[s.id].parent)) && r in rows
    ensures n in payload && n.key in f && f[n.key] == r.id && (n.parentKey.None? <==> r.parent.None?)
    ensures n.parentKey.Some? ==> n.parentKey.value in f && Some(f[n.parentKey.value]) == r.parent
  {
    hide T.Keys;
    assert r.id in R.IdsOf(nodes, templateId);
    n :| n in payload && f[n.key] == r.id;
    assert nodes[f[n.key]] == R.RowFor(templateId, n, f);
  }

  lemma TasksOfPayload(nodes: R.Nodes, templateId: nat, payload: seq<T.NodeInput>, f: map<T.Key, R.NodeId>,
                       rows: seq<Row<C.Id>>, content: map<C.Id, string>, assignees: map<C.Id, C.Id>, creatorId: C.Id,
                       before: C.Tasks, after: C.Tasks, m: map<C.Id, C.Id>, taskOf: map<T.Key, C.Id>)
    requires T.ParentsResolve(payload) && Injective(f)
    requires R.Stored(nodes, templateId, payload, f) && f.Keys == T.Keys(payload)
             && Ids(rows) == R.IdsOf(nodes, templateId)
    requires forall r :: r in rows ==> r.id in nodes && r == Row(r.id, nodes[r.id].parent)
    requires forall r :: r in rows ==> r.id in content && content[r.id] == nodes[r.id].data
    requires C.Added(before, after, m) && C.Generated(rows, content, assignees, creatorId, after, m)
             && C.LinksCarried(rows, after, m)
    requires m.Keys == Ids(rows) && taskOf.Keys == f.Keys && forall k :: k in f ==> f[k] in m && taskOf[k] == m[f[k]]
    ensures TasksAre(payload, before, after, taskOf)
  {
    hide T.ParentsResolve, R.Stored, T.Keys, C.Added, C.Generated, C.LinksCarried;
    forall n | n in payload ensures TaskIs(n, after, taskOf) {
      RowOfNode(nodes, templateId, payload, f, rows, n);
      var r := Row(f[n.key], if n.parentKey.None? then None else Some(f[n.parentKey.value]));
      TaskOfRow(rows, content, assignees, creatorId, after, m, r);
    }
    SameTasksAdded(before, after, nodes, templateId, payload, f, m, taskOf);
  }

  lemma TaskOfRow(rows: seq<Row<C.Id>>, content: map<C.Id, string>, assignees: map<C.Id, C.Id>, creatorId: C.Id,
                  after: C.Tasks, m: map<C.Id, C.Id>, r: Row<C.Id>)
    requires (forall s :: s in rows ==> s.id in content) && r in rows
    requires C.Generated(rows, content, assignees, creatorId, after, m) && C.LinksCarried(rows, after, m)
    ensures r.id in m && m[r.id] in after && after[m[r.id]].fields == content[r.id]
    ensures r.parent.None? ==> after[m[r.id]].parent.None?
    ensures r.parent.Some? ==> r.parent.value in m && after[m[r.id]].parent == Some(m[r.parent.value])
  {}

  lemma SameTasksAdded(before: C.Tasks, after: C.Tasks, nodes: R.Nodes, templateId: nat, payload: seq<T.NodeInput>,
                       f: map<T.Key, R.NodeId>, m: map<C.Id, C.Id>, taskOf: map<T.Key, C.Id>)
    requires R.Stored(nodes, templateId, payload, f) && Injective(f) && m.Keys == R.IdsOf(nodes, templateId)
    requires C.Added(before, after, m) && taskOf.Keys == f.Keys && forall k :: k in f ==>
             f[k] in m && taskOf[k] == m[f[k]]
    ensures C.Added(before, after, taskOf)
  {
    forall x ensures x in taskOf.Values <==> x in m.Values {
      if x in m.Values {
        var y :| y in m && m[y] == x;
        var n :| n in payload && f[n.key] == y;
        assert taskOf[n.key] in taskOf.Values;
      }
      if x in taskOf.Values {
        var k :| k in taskOf && taskOf[k] == x;
        assert m[f[k]] in m.Values;
      }
    }
  }

  lemma DependenciesOfPayload(dependencies: seq<T.Dependency>, f: map<T.Key, R.NodeId>, edges: C.Edges,
                              m: map<C.Id, C.Id>, taskOf: map<T.Key, C.Id>)
    requires edges == Renamed(T.Edges(dependencies), f)
    requires taskOf.Keys == f.Keys && forall k :: k in f ==> f[k] in m && taskOf[k] == m[f[k]]
    ensures Renamed(edges, m) == Renamed(T.Edges(dependencies), taskOf)
  {
    hide T.Edges;
    var wanted := T.Edges(dependencies);
    forall x, y ensures Renames(edges, m, x, y) <==> Renames(wanted, taskOf, x, y) {
      if Renames(edges, m, x, y) {
        var p, q :| (p, q) in edges && p in m && q in m && m[p] == x && m[q] == y;
        assert Renames(wanted, f, p, q);
        var a, b :| (a, b) in wanted && a in f && b in f && f[a] == p && f[b] == q;
      }
      if Renames(wanted, taskOf, x, y) {
        var a, b :| (a, b) in wanted && a in taskOf && b in taskOf && taskOf[a] == x && taskOf[b] == y;
        assert Renames(wanted, f, f[a], f[b]);
      }
    }
  }

  // ----- An accepted payload that closes a loop -----

  lemma ExampleNamesNothing()
    ensures R.DistinctIds(T.EXAMPLE_NODES) && R.PayloadIds(T.EXAMPLE_NODES) == {} && !RootSharesId(T.EXAMPLE_NODES)
    ensures forall nodes :: R.NewDuties(nodes, T.EXAMPLE_NODES) == {}
  {
    assert forall n :: n in T.EXAMPLE_NODES ==> n.id.None? && n.dutyId.None?;
  }

  /** Saved and generated in an empty database, it leaves tasks that wait for each other. */
  method AnAcceptedPayloadMakesALoop() returns (db: C.TaskDb)
    ensures fresh(db) && db.Valid() && !Acyclic(db.deps)
  {
    hide *;
    var store := new R.TemplateStore();
    db := new C.TaskDb();
    NothingLoops();
    T.AnAcceptedCycle();
    ExampleNamesNothing();
    R.AcceptedFacts(T.EXAMPLE_NODES, T.EXAMPLE_DEPENDENCIES);
    DistinctIdsLoseNothing(T.EXAMPLE_NODES, T.EXAMPLE_DEPENDENCIES);
    var r := SaveAndGenerate(store, db, 1, T.EXAMPLE_NODES, T.EXAMPLE_DEPENDENCIES, {}, map[], 1);
  }

  lemma NothingLoops()
    ensures Acyclic<C.Id>({})
  {
    Relationships.NoEdgesAcyclic();
  }

  // ----- Ordinary keys, a shared id -----

  /** A root and one node. */
  const PLAIN_NODES: seq<T.NodeInput> :=
    [T.NodeInput(None, "r", None, None, ""), T.NodeInput(None, "a", Some("r"), None, "")]

  /** A root and three nodes, the first and the last of which name one id. */
  function SharingNodes(id: R.NodeId): seq<T.NodeInput> {
    [T.NodeInput(None, "r", None, None, ""), T.NodeInput(Some(id), "a", Some("r"), None, ""),
     T.NodeInput(None, "b", Some("r"), None, ""), T.NodeInput(Some(id), "c", Some("r"), None, "")]
  }

  /** From the first to the second and on to the last. */
  const SHARING_DEPENDENCIES: seq<T.Dependency> := [T.Dependency("a", "b"), T.Dependency("b", "c")]

  lemma PlainIsAccepted()
    ensures T.UniqueKeys(PLAIN_NODES) && T.Verdict(PLAIN_NODES, []).None? && R.DistinctIds(PLAIN_NODES)
    ensures "a" in T.Keys(PLAIN_NODES) && R.PayloadIds(PLAIN_NODES) == {} && forall nodes ::
            R.NewDuties(nodes, PLAIN_NODES) == {}
  {
    hide T.TreeVerdict, Acyclic, T.Verdict;
    assert "r"[0] == 'r' && "a"[0] == 'a';
    assert PLAIN_NODES[1].key == "a" && PLAIN_NODES[0].key == "r";
    assert forall n :: n in PLAIN_NODES ==> n.id.None? && n.dutyId.None?;
    NoEdges();
    T.StarIsAccepted(PLAIN_NODES, []);
  }

  lemma NoEdges()
    ensures Acyclic(T.Edges([]))
  {
    forall a ensures !StrictlyReaches(T.Edges([]), a, a) {
      if StrictlyReaches(T.Edges([]), a, a) { var b := FirstStep(T.Edges([]), a, a); }
    }
  }

  lemma SharingKeys(id: R.NodeId)
    ensures T.UniqueKeys(SharingNodes(id)) && T.Keys(SharingNodes(id)) == {"r", "a", "b", "c"}
  {
    var n := SharingNodes(id);
    assert "r"[0] == 'r' && "a"[0] == 'a' && "b"[0] == 'b' && "c"[0] == 'c';
    assert n[0].key == "r" && n[1].key == "a" && n[2].key == "b" && n[3].key == "c";
  }

  lemma SharingEdges()
    ensures T.Edges(SHARING_DEPENDENCIES) == {("a", "b"), ("b", "c")} && Acyclic(T.Edges(SHARING_DEPENDENCIES))
    ensures T.DependenciesResolve({"r", "a", "b", "c"}, SHARING_DEPENDENCIES)
  {
    hide Acyclic;
    assert "a"[0] == 'a' && "b"[0] == 'b' && "c"[0] == 'c';
    assert T.Dependency("a", "b") == SHARING_DEPENDENCIES[0] && T.Dependency("b", "c") == SHARING_DEPENDENCIES[1];
    T.TwoEdgesAcyclic("a", "b", "b", "c");
  }

  /** The payload is accepted, its own dependencies make no loop, and what is saved of them does. */
  lemma SharingIsAccepted(id: R.NodeId)
    ensures T.UniqueKeys(SharingNodes(id)) && T.Verdict(SharingNodes(id), SHARING_DEPENDENCIES).None?
    ensures R.PayloadIds(SharingNodes(id)) == {id} && (forall nodes :: R.NewDuties(nodes, SharingNodes(id)) == {})
            && !RootSharesId(SharingNodes(id))
    ensures Acyclic(T.Edges(SHARING_DEPENDENCIES))
            && !Acyclic(SavedDependencies(SharingNodes(id), SHARING_DEPENDENCIES))
  {
    hide T.Verdict, T.TreeVerdict, Acyclic, T.UniqueKeys, T.Keys, T.Edges, T.DependenciesResolve, Places;
    var n := SharingNodes(id);
    SharingKeys(id);
    SharingEdges();
    T.StarIsAccepted(n, SHARING_DEPENDENCIES);
    assert n[1] in n && n[2] in n && n[3] in n;
    SharedRowClosesALoop(T.Edges(SHARING_DEPENDENCIES), Places(n), "a", "b", "c");
  }

  /**
   A template is saved, then saved again with two nodes under one of its ids, and generated: the tasks wait for
   each other.
  */
  method ASharedIdMakesALoop() returns (db: C.TaskDb)
    ensures fresh(db) && db.Valid() && !Acyclic(db.deps)
  {
    hide *;
    var store := new R.TemplateStore();
    db := new C.TaskDb();
    NothingLoops();
    PlainIsAccepted();
    var saved := store.ReconcileTree(1, PLAIN_NODES, [], {});
    var id := saved.value["a"];
    SavedUnder(store.nodes, 1, PLAIN_NODES, saved.value, "a");
    SharingIsAccepted(id);
    var r := SaveAndGenerate(store, db, 1, SharingNodes(id), SHARING_DEPENDENCIES, {}, map[], 1);
  }

  lemma SavedUnder(nodes: R.Nodes, templateId: nat, payload: seq<T.NodeInput>, f: map<T.Key, R.NodeId>, k: T.Key)
    requires R.Stored(nodes, templateId, payload, f) && k in T.Keys(payload)
    ensures k in f && f[k] in R.IdsOf(nodes, templateId)
  {
    var n := NodeWithKey(payload, k);
  }

  function Positions(nodes: seq<T.NodeInput>): (m: map<T.Key, nat>)
    requires T.UniqueKeys(nodes)
    ensures m.Keys == T.Keys(nodes) && Injective(m) && forall i :: 0 <= i < |nodes| ==> m[nodes[i].key] == i
  {
    map i | 0 <= i < |nodes| :: nodes[i].key := i as nat
  }

  lemma ExampleEdges(positions: map<T.Key, nat>)
    requires T.UniqueKeys(T.EXAMPLE_NODES) && positions == Positions(T.EXAMPLE_NODES)
    requires T.DependenciesResolve(T.Keys(T.EXAMPLE_NODES), T.EXAMPLE_DEPENDENCIES)
             && !Acyclic(T.Edges(T.EXAMPLE_DEPENDENCIES))
    ensures !Acyclic(P.Carried(Renamed(T.Edges(T.EXAMPLE_DEPENDENCIES), positions), 4))
  {
    hide T.Edges, Acyclic, T.UniqueKeys, Positions, T.Keys, T.EXAMPLE_DEPENDENCIES;
    var wanted := T.Edges(T.EXAMPLE_DEPENDENCIES);
    RenamedAcyclicIff(wanted, positions);
    forall x: nat, y: nat | (x, y) in Renamed(wanted, positions) ensures x < 4 && y < 4 && x != y {
      var a, b :| (a, b) in wanted && a in positions && b in positions && positions[a] == x && positions[b] == y;
      assert T.Dependency(a, b) in T.EXAMPLE_DEPENDENCIES;
      var n := NodeWithKey(T.EXAMPLE_NODES, a);
      var o := NodeWithKey(T.EXAMPLE_NODES, b);
    }
    SameEdges(P.Carried(Renamed(wanted, positions), 4), Renamed(wanted, positions));
  }

  const NOTHING_STORED: P.State := P.State(Relationships.Store({}, map[], {}), {}, None, map[])

  lemma EmptyIsSound()
    ensures P.StartsSound(NOTHING_STORED) && P.Inv(NOTHING_STORED)
  {
    hide Acyclic;
    Relationships.NoEdgesAcyclic();
  }

  lemma CanGenerate(edges: set<(nat, nat)>)
    ensures P.Step(NOTHING_STORED, P.InsertTree([1, 2, 3, 4], [None, Some(0), Some(0), Some(0)], edges)).Some?
  {
    hide P.TreeParents, P.Carried;
    assert P.Fresh(NOTHING_STORED, [1, 2, 3, 4]);
  }

  lemma OneStep(states: seq<P.State>, actions: seq<P.Action>)
    requires |states| == 2 && |actions| == 1 && P.Step(states[0], actions[0]) == Some(states[1])
    ensures P.Run(states, actions)
  {}

  lemma OneGeneration(edges: set<(nat, nat)>) returns (states: seq<P.State>, actions: seq<P.Action>)
    requires !Acyclic(P.Carried(edges, 4))
    ensures P.Run(states, actions) && P.StartsSound(states[0]) && |actions| == 1
    ensures actions[0] == P.InsertTree([1, 2, 3, 4], [None, Some(0), Some(0), Some(0)], edges)
    ensures !Acyclic(states[1].store.deps)
  {
    hide *;
    var action := P.InsertTree([1, 2, 3, 4], [None, Some(0), Some(0), Some(0)], edges);
    EmptyIsSound();
    CanGenerate(edges);
    states, actions := [NOTHING_STORED, P.Step(NOTHING_STORED, action).value], [action];
    P.InsertTreeKeepsInv(NOTHING_STORED, action);
    OneStep(states, actions);
  }

  /** The same as a run of the protocol: one generation of that template, from nothing, closes a loop. */
  lemma ARunToALoop() returns (states: seq<P.State>, actions: seq<P.Action>)
    ensures T.Verdict(T.EXAMPLE_NODES, T.EXAMPLE_DEPENDENCIES).None? && T.UniqueKeys(T.EXAMPLE_NODES)
    ensures P.Run(states, actions) && P.StartsSound(states[0]) && |actions| == 1
    ensures actions[0] == P.InsertTree([1, 2, 3, 4], [None, Some(0), Some(0), Some(0)],
                                       Renamed(T.Edges(T.EXAMPLE_DEPENDENCIES), Positions(T.EXAMPLE_NODES)))
    ensures !Acyclic(states[1].store.deps)
  {
    hide *;
    T.AnAcceptedCycle();
    T.ExampleKeysDiffer();
    T.ExampleResolves();
    var positions := Positions(T.EXAMPLE_NODES);
    var edges := Renamed(T.Edges(T.EXAMPLE_DEPENDENCIES), positions);
    ExampleEdges(positions);
    states, actions := OneGeneration(edges);
  }
}
