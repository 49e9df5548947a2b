/**
 Validation of a template payload: unique keys, one root, parents that reach every node, and
 dependencies without a cycle. The dependency check drops repeated edges by comparing the text
 "blocker->blocked"; since keys are free text, two different edges can share that text, and then a
 cycle can slip through. The lemmas say exactly for which keys the check is right.
 */
module TemplateTree {
  import opened Wrappers
  import opened Graphs
  import opened Forest

  type Key = string

  /** data stands for the columns no rule here looks at. */
  datatype NodeInput = NodeInput(id: Option<nat>, key: Key, parentKey: Option<Key>, dutyId: Option<nat>, data: string)

  datatype Dependency = Dependency(blockerKey: Key, blockedKey: Key)

  datatype Refusal =
    | DuplicateKeys | NotOneRoot | UnknownParent | Unreachable | UnknownDependency | SelfBlock | DependencyCycle

  function RowsOf(nodes: seq<NodeInput>): (rows: seq<Row<Key>>)
    ensures |rows| == |nodes| && forall i :: 0 <= i < |nodes| ==> rows[i] == Row(nodes[i].key, nodes[i].parentKey)
    ensures Ids(rows) == Keys(nodes)
  {
    var rows := seq(|nodes|, i requires 0 <= i < |nodes| => Row(nodes[i].key, nodes[i].parentKey));
    assert Ids(rows) == Keys(nodes) by {
      forall k | k in Keys(nodes) ensures k in Ids(rows) {
        var i :| 0 <= i < |nodes| && nodes[i].key == k;
        assert rows[i] in rows;
      }
      forall k | k in Ids(rows) ensures k in Keys(nodes) {
        var r :| r in rows && r.id == k;
        var i :| 0 <= i < |rows| && rows[i] == r;
        assert nodes[i] in nodes;
      }
    }
    rows
  }

  function Keys(nodes: seq<NodeInput>): (s: set<Key>)
    ensures forall k :: k in s <==> exists i :: 0 <= i < |nodes| && nodes[i].key == k
  {
    set i | 0 <= i < |nodes| :: nodes[i].key
  }

  function Edges(deps: seq<Dependency>): (e: set<(Key, Key)>)
    ensures forall a, b :: (a, b) in e <==> Dependency(a, b) in deps
  {
    var e := set d | d in deps :: (d.blockerKey, d.blockedKey);
    assert forall a, b :: Dependency(a, b) in deps ==> (Dependency(a, b).blockerKey, Dependency(a, b).blockedKey) in e;
    e
  }

  /** The text two edges are compared by. */
  function Label(d: Dependency): string {
    d.blockerKey + "->" + d.blockedKey
  }

  /** The edges that get as far as the cycle check: the first with each text. */
  function Kept(deps: seq<Dependency>): seq<Dependency> {
    if deps == [] then []
    else
      var init, last := deps[..|deps| - 1], deps[|deps| - 1];
      if TextSeen(init, Label(last)) then Kept(init) else Kept(init) + [last]
  }

  predicate TextSeen(deps: seq<Dependency>, text: string) {
    exists d :: d in deps && Label(d) == text
  }

  // ----- What the validator decides -----

  ghost predicate UniqueKeys(nodes: seq<NodeInput>) {
    forall i, j :: 0 <= i < j < |nodes| ==> nodes[i].key != nodes[j].key
  }

  ghost predicate ParentsResolve(nodes: seq<NodeInput>) {
    forall n :: n in nodes && n.parentKey.Some? ==> n.parentKey.value in Keys(nodes)
  }

  ghost predicate RootReachesAll(nodes: seq<NodeInput>) {
    forall r :: r in RowsOf(nodes) ==> Rooted(RowsOf(nodes), r.id)
  }

  ghost predicate DependenciesResolve(keys: set<Key>, deps: seq<Dependency>) {
    forall d :: d in deps ==> d.blockerKey in keys && d.blockedKey in keys && d.blockerKey != d.blockedKey
  }

  /** The first dependency that is refused, in payload order. */
  function FirstBadDependency(keys: set<Key>, deps: seq<Dependency>): (r: Option<Refusal>)
    ensures r.None? <==> DependenciesResolve(keys, deps)
  {
    if deps == [] then None
    else
      assert forall d :: d in deps <==> d == deps[0] || d in deps[1..];
      if deps[0].blockerKey !in keys || deps[0].blockedKey !in keys then Some(UnknownDependency)
      else if deps[0].blockerKey == deps[0].blockedKey then Some(SelfBlock)
      else FirstBadDependency(keys, deps[1..])
  }

  ghost function TreeVerdict(nodes: seq<NodeInput>): Option<Refusal> {
    if !UniqueKeys(nodes) then Some(DuplicateKeys)
    else if |Children(RowsOf(nodes), None)| != 1 then Some(NotOneRoot)
    else if !ParentsResolve(nodes) then Some(UnknownParent)
    else if !RootReachesAll(nodes) then Some(Unreachable)
    else None
  }

  ghost function DependencyVerdict(keys: set<Key>, deps: seq<Dependency>): Option<Refusal> {
    if FirstBadDependency(keys, deps).Some? then FirstBadDependency(keys, deps)
    else if !Acyclic(Edges(Kept(deps))) then Some(DependencyCycle)
    else None
  }

  ghost function Verdict(nodes: seq<NodeInput>, deps: seq<Dependency>): Option<Refusal> {
    if TreeVerdict(nodes).Some? then TreeVerdict(nodes) else DependencyVerdict(Keys(nodes), deps)
  }

  /** A payload as the product promises it: the same, with every dependency counted. */
  /** Whatever a hierarchy is turned down for is really so. */
  lemma TreeVerdictIsReal(nodes: seq<NodeInput>)
    ensures match TreeVerdict(nodes)
            case None => true
            case Some(DuplicateKeys) => exists i, j :: 0 <= i < j < |nodes| && nodes[i].key == nodes[j].key
            case Some(NotOneRoot) =>
              || (forall n :: n in nodes ==> n.parentKey.Some?)
              || exists i, j :: 0 <= i < j < |nodes| && nodes[i].parentKey.None? && nodes[j].parentKey.None?
            case Some(UnknownParent) =>
              exists n :: n in nodes && n.parentKey.Some? && n.parentKey.value !in Keys(nodes)
            case Some(Unreachable) => !Acyclic(ParentLinks(RowsOf(nodes)))
            case Some(_) => false
  {
    hide Acyclic, RootReachesAll, Children, Keys;
    if UniqueKeys(nodes) && |Children(RowsOf(nodes), None)| != 1 { RootsCounted(nodes); }
    if UniqueKeys(nodes) && ParentsResolve(nodes) && !RootReachesAll(nodes) { UnreachableMeansLoop(nodes); }
  }

  /** And whatever its dependencies are turned down for. */
  lemma DependencyVerdictIsReal(keys: set<Key>, deps: seq<Dependency>)
    ensures match DependencyVerdict(keys, deps)
            case None => true
            case Some(UnknownDependency) => exists d :: d in deps && !(d.blockerKey in keys && d.blockedKey in keys)
            case Some(SelfBlock) => exists d :: d in deps && d.blockerKey == d.blockedKey
            case Some(DependencyCycle) => !Acyclic(Edges(deps))
            case Some(_) => false
  {
    hide Acyclic, Kept, FirstBadDependency;
    BadDependencyIsReal(keys, deps);
    KeptEdges(deps);
    if Acyclic(Edges(deps)) { FewerEdgesAcyclic(Edges(Kept(deps)), Edges(deps)); }
  }

  lemma RootsCounted(nodes: seq<NodeInput>)
    requires |Children(RowsOf(nodes), None)| != 1
    ensures || (forall n :: n in nodes ==> n.parentKey.Some?)
            || exists i, j :: 0 <= i < j < |nodes| && nodes[i].parentKey.None? && nodes[j].parentKey.None?
  {
    var rows := RowsOf(nodes);
    if n :| n in nodes && n.parentKey.None? {
      var k :| 0 <= k < |nodes| && nodes[k] == n;
      assert rows[k] in Children(rows, None);
      var i, j := TwoChildren(rows, None);
      assert rows[i] == Row(nodes[i].key, nodes[i].parentKey) && rows[j] == Row(nodes[j].key, nodes[j].parentKey);
    }
  }

  lemma {:induction false} TwoChildren(rows: seq<Row<Key>>, p: Option<Key>) returns (i: nat, j: nat)
    requires |Children(rows, p)| > 1
    ensures i < j < |rows| && rows[i].parent == p && rows[j].parent == p
  {
    var n := |rows| - 1;
    if rows[n].parent != p || |Children(rows[..n], p)| > 1 {
      i, j := TwoChildren(rows[..n], p);
    } else {
      var r := Children(rows[..n], p)[0];
      assert r in Children(rows[..n], p);
      i :| 0 <= i < n && rows[..n][i] == r;
      j := n;
    }
  }

  lemma UnreachableMeansLoop(nodes: seq<NodeInput>)
    requires UniqueKeys(nodes) && ParentsResolve(nodes) && !RootReachesAll(nodes)
    ensures !Acyclic(ParentLinks(RowsOf(nodes)))
  {
    hide Acyclic, Rooted;
    RowsUnique(nodes);
    ParentsAreListed(nodes);
    RootedIffAcyclic(RowsOf(nodes));
  }

  lemma {:induction false} BadDependencyIsReal(keys: set<Key>, deps: seq<Dependency>)
    ensures FirstBadDependency(keys, deps) == Some(UnknownDependency) ==>
              exists d :: d in deps && !(d.blockerKey in keys && d.blockedKey in keys)
    ensures FirstBadDependency(keys, deps) == Some(SelfBlock) ==> exists d :: d in deps && d.blockerKey == d.blockedKey
    ensures FirstBadDependency(keys, deps) in {None, Some(UnknownDependency), Some(SelfBlock)}
  {
    if deps != [] {
      assert deps[0] in deps && forall d :: d in deps[1..] ==> d in deps;
      BadDependencyIsReal(keys, deps[1..]);
    }
  }

  ghost predicate ValidPayload(nodes: seq<NodeInput>, deps: seq<Dependency>) {
    && UniqueKeys(nodes) && |Children(RowsOf(nodes), None)| == 1 && ParentsResolve(nodes)
    && Acyclic(ParentLinks(RowsOf(nodes)))
    && DependenciesResolve(Keys(nodes), deps) && Acyclic(Edges(deps))
  }

  /** The nodes once each, every parent before its children. */
  ghost predicate ParentFirst(nodes: seq<NodeInput>, ordered: seq<NodeInput>) {
    && multiset(ordered) == multiset(nodes) && UniqueKeys(ordered)
    && forall i: nat :: i < |ordered| && ordered[i].parentKey.Some? ==>
         exists j: nat :: j < i && ordered[j].key == ordered[i].parentKey.value
  }

  // ----- The colour walk -----

  datatype Color = InStack | Done

  class CycleFinder {
    const adj: map<Key, seq<Key>>
    var color: map<Key, Color>

    constructor (adj: map<Key, seq<Key>>)
      ensures this.adj == adj && color == map[]
    {
      this.adj, color := adj, map[];
    }

    ghost function Colored(c: Color): (s: set<Key>)
      reads this
      ensures forall k :: k in s <==> k in color && color[k] == c
    {
      set k | k in color && color[k] == c
    }

    /** Finished nodes lead only to finished nodes, and lie on no cycle. */
    ghost predicate Valid()
      reads this
    {
      && Closed(Arrows(adj), Colored(Done))
      && forall k :: k in Colored(Done) ==> !StrictlyReaches(Arrows(adj), k, k)
    }

    /** True at once when a cycle is met; otherwise the node and all it leads to are finished. */
    method HasCycle(node: Key) returns (found: bool)
      requires Valid() && node !in color && node in Vertices(adj)
      requires forall g :: g in Colored(InStack) ==> Reaches(Arrows(adj), g, node)
      modifies this
      ensures found ==> !Acyclic(Arrows(adj))
      ensures !found ==> Valid() && Colored(InStack) == old(Colored(InStack))
      ensures !found ==> node in Colored(Done) && old(Colored(Done)) <= Colored(Done)
      ensures old(color).Keys <= color.Keys
      decreases Vertices(adj) - color.Keys
    {
      hide Walk, Reaches, StrictlyReaches;
      ghost var e := Arrows(adj);
      color := color[node := InStack];
      SelfReaches(e, node);
      var nexts := if node in adj then adj[node] else [];
      var i := 0;
      while i < |nexts|
        invariant 0 <= i <= |nexts|
        invariant Valid()
        invariant Colored(InStack) == old(Colored(InStack)) + {node}
        invariant old(Colored(Done)) <= Colored(Done) && old(color).Keys + {node} <= color.Keys
        invariant forall k :: 0 <= k < i ==> nexts[k] in Colored(Done)
      {
        var next := nexts[i];
        assert (node, next) in e;
        EdgeReaches(e, node, next);
        if next in color && color[next] == InStack {
          assert next in Colored(InStack) && Reaches(e, next, node);
          ReachesTrans(e, node, next, node);
          return true;
        }
        if next !in color {
          forall g | g in Colored(InStack) ensures Reaches(e, g, next) { ReachesTrans(e, g, node, next); }
          var below := HasCycle(next);
          if below { return true; }
        }
        i := i + 1;
      }
      ghost var done := Colored(Done);
      if StrictlyReaches(e, node, node) {
        var c := FirstStep(e, node, node);
        ClosedNotReached(e, done, c, node);
      }
      color := color[node := Done];
      assert Colored(Done) == done + {node};
      found := false;
    }
  }

  ghost function Arrows(adj: map<Key, seq<Key>>): (e: set<(Key, Key)>)
    ensures forall a, b :: (a, b) in e <==> a in adj && b in adj[a]
  {
    set a, b | a in adj && b in adj[a] :: (a, b)
  }

  ghost function Vertices(adj: map<Key, seq<Key>>): (s: set<Key>)
    ensures adj.Keys <= s && forall a, b :: (a, b) in Arrows(adj) ==> b in s
  {
    adj.Keys + set a, b | a in adj && b in adj[a] :: b
  }

  method DependencyGraphHasCycle(adj: map<Key, seq<Key>>) returns (found: bool)
    ensures found <==> !Acyclic(Arrows(adj))
  {
    var finder := new CycleFinder(adj);
    var left := adj.Keys;
    while left != {}
      invariant left <= adj.Keys && fresh(finder) && finder.adj == adj
      invariant finder.Valid() && finder.Colored(InStack) == {}
      invariant adj.Keys - left <= finder.Colored(Done)
    {
      var key :| key in left;
      left := left - {key};
      if key !in finder.color {
        var cycle := finder.HasCycle(key);
        if cycle { return true; }
      } else {
        assert finder.color[key] != InStack by { assert key !in finder.Colored(InStack); }
      }
    }
    forall a ensures !StrictlyReaches(Arrows(adj), a, a) {
      if StrictlyReaches(Arrows(adj), a, a) {
        var c := FirstStep(Arrows(adj), a, a);
      }
    }
    found := false;
  }

  // ----- The validator -----

  /** The loop over the dependencies: refuse bad ones, drop repeats, fill the adjacency map. */
  method BuildAdjacency(keys: set<Key>, deps: seq<Dependency>) returns (r: Result<map<Key, seq<Key>>, Refusal>)
    ensures match FirstBadDependency(keys, deps)
            case Some(e) => r == Err(e)
            case None => r.Ok? && Arrows(r.value) == Edges(Kept(deps))
  {
    hide Label, TextSeen, Kept, DependenciesResolve;
    NoTextSeen();
    var adj: map<Key, seq<Key>> := map[];
    var seen: set<string> := {};
    assert deps[..0] == [] && deps[0..] == deps;
    var i := 0;
    while i < |deps|
      invariant 0 <= i <= |deps|
      invariant FirstBadDependency(keys, deps) == FirstBadDependency(keys, deps[i..])
      invariant forall text :: text in seen <==> TextSeen(deps[..i], text)
      invariant Arrows(adj) == Edges(Kept(deps[..i]))
    {
      var d := deps[i];
      assert deps[i..][0] == d && deps[i..][1..] == deps[i + 1..];
      if d.blockerKey !in keys || d.blockedKey !in keys { return Err(UnknownDependency); }
      if d.blockerKey == d.blockedKey { return Err(SelfBlock); }
      KeptStep(deps, i);
      if Label(d) !in seen {
        seen := seen + {Label(d)};
        ghost var before := adj;
        var list := (if d.blockerKey in adj then adj[d.blockerKey] else []) + [d.blockedKey];
        adj := adj[d.blockerKey := list];
        assert Arrows(adj) == Arrows(before) + {(d.blockerKey, d.blockedKey)};
      }
      i := i + 1;
    }
    assert deps[..i] == deps && deps[i..] == [];
    r := Ok(adj);
  }

  lemma NoTextSeen()
    ensures forall text :: !TextSeen([], text)
    ensures Kept([]) == []
  {}

  lemma KeptStep(deps: seq<Dependency>, i: nat)
    requires i < |deps|
    ensures forall text :: TextSeen(deps[..i + 1], text) <==> text == Label(deps[i]) || TextSeen(deps[..i], text)
    ensures Edges(Kept(deps[..i + 1])) ==
            Edges(Kept(deps[..i])) + if TextSeen(deps[..i], Label(deps[i])) then {}
                                     else {(deps[i].blockerKey, deps[i].blockedKey)}
  {
    hide Label;
    var init, last := deps[..i], deps[i];
    assert deps[..i + 1] == init + [last];
    assert deps[..i + 1][..|deps[..i + 1]| - 1] == init;
    forall text ensures TextSeen(init + [last], text) <==> text == Label(last) || TextSeen(init, text) {
      if text == Label(last) { assert last in init + [last]; }
      if TextSeen(init, text) {
        var d :| d in init && Label(d) == text;
        assert d in init + [last];
      }
    }
    assert Edges(Kept(init) + [last]) == Edges(Kept(init)) + {(last.blockerKey, last.blockedKey)};
  }

  /** A map from key to node, and whether two nodes share a key. */
  method IndexByKey(nodes: seq<NodeInput>) returns (byKey: map<Key, NodeInput>)
    ensures byKey.Keys == Keys(nodes)
    ensures |byKey| == |nodes| <==> UniqueKeys(nodes)
    ensures forall k :: k in byKey ==> byKey[k] in nodes && byKey[k].key == k
  {
    hide UniqueKeys;
    byKey := map[];
    var i := 0;
    while i < |nodes|
      invariant 0 <= i <= |nodes|
      invariant byKey.Keys == Keys(nodes[..i])
      invariant forall k :: k in byKey ==> byKey[k] in nodes && byKey[k].key == k
    {
      KeysStep(nodes, i);
      byKey := byKey[nodes[i].key := nodes[i]];
      i := i + 1;
    }
    assert nodes[..i] == nodes;
    KeysSize(nodes);
    assert |byKey| == |byKey.Keys|;
  }

  lemma KeysStep(nodes: seq<NodeInput>, i: nat)
    requires i < |nodes|
    ensures Keys(nodes[..i + 1]) == Keys(nodes[..i]) + {nodes[i].key}
  {
    var before, after := nodes[..i], nodes[..i + 1];
    assert forall j :: 0 <= j < i ==> after[j] == before[j];
    assert after[i] == nodes[i];
  }

  lemma UniqueStep(nodes: seq<NodeInput>, i: nat)
    requires i < |nodes|
    ensures UniqueKeys(nodes[..i + 1]) <==> UniqueKeys(nodes[..i]) && nodes[i].key !in Keys(nodes[..i])
  {
    var before, after := nodes[..i], nodes[..i + 1];
    assert forall j :: 0 <= j < i ==> after[j] == before[j];
    assert after[i] == nodes[i];
  }

  lemma {:induction false} KeysSize(nodes: seq<NodeInput>)
    ensures |Keys(nodes)| <= |nodes|
    ensures |Keys(nodes)| == |nodes| <==> UniqueKeys(nodes)
    decreases |nodes|
  {
    if nodes == [] {
      assert Keys(nodes) == {};
    } else {
      hide Keys, UniqueKeys;
      var n := |nodes| - 1;
      assert nodes[..n + 1] == nodes;
      KeysStep(nodes, n);
      UniqueStep(nodes, n);
      KeysSize(nodes[..n]);
    }
  }

  /** The nodes parent-first, or why the hierarchy is refused. */
  method OrderTree(nodes: seq<NodeInput>) returns (r: Result<seq<NodeInput>, Refusal>)
    ensures match TreeVerdict(nodes)
            case Some(e) => r == Err(e)
            case None => r.Ok? && ParentFirst(nodes, r.value)
  {
    hide UniqueKeys, UniqueIds, ParentFirst, TreeOrder, Children, RowsOf, Keys, NodesOf;
    var byKey := IndexByKey(nodes);
    if |byKey| != |nodes| { return Err(DuplicateKeys); }
    var rows := RowsOf(nodes);
    RowsUnique(nodes);
    if |Children(rows, None)| != 1 { return Err(NotOneRoot); }
    if exists n :: n in nodes && n.parentKey.Some? && n.parentKey.value !in byKey.Keys { return Err(UnknownParent); }
    assert ParentsResolve(nodes);
    var out := ListTree(rows);
    ListedAllIffRooted(rows);
    if |out| != |nodes| { return Err(Unreachable); }
    assert RootReachesAll(nodes);
    TreeOrderIds(rows);
    var ordered := PickNodes(nodes, byKey, out);
    OrderedIsParentFirst(nodes, out, ordered);
    r := Ok(ordered);
  }

  method CheckDependencies(keys: set<Key>, deps: seq<Dependency>) returns (r: Option<Refusal>)
    ensures r == DependencyVerdict(keys, deps)
  {
    hide Kept, FirstBadDependency, Acyclic;
    var adj := BuildAdjacency(keys, deps);
    if adj.Err? { return Some(adj.error); }
    var cycle := DependencyGraphHasCycle(adj.value);
    r := if cycle then Some(DependencyCycle) else None;
  }

  method ValidateAndOrderTree(nodes: seq<NodeInput>, deps: seq<Dependency>) returns (r: Result<seq<NodeInput>, Refusal>)
    ensures match Verdict(nodes, deps)
            case Some(e) => r == Err(e)
            case None => r.Ok? && ParentFirst(nodes, r.value)
  {
    hide TreeVerdict, DependencyVerdict, ParentFirst;
    r := OrderTree(nodes);
    if r.Err? { return; }
    var refused := CheckDependencies(Keys(nodes), deps);
    if refused.Some? { r := Err(refused.value); }
  }

  method PickNodes(nodes: seq<NodeInput>, byKey: map<Key, NodeInput>, l: seq<Placed<Key>>)
    returns (ordered: seq<NodeInput>)
    requires forall k :: k in byKey ==> byKey[k] in nodes && byKey[k].key == k
    requires forall i :: 0 <= i < |l| ==> l[i].row.id in byKey
    ensures NodesOf(nodes, l, ordered)
  {
    ordered := [];
    for i := 0 to |l|
      invariant |ordered| == i && forall j :: 0 <= j < i ==> ordered[j] in nodes && ordered[j].key == l[j].row.id
    {
      ordered := ordered + [byKey[l[i].row.id]];
    }
  }

  lemma RowsUnique(nodes: seq<NodeInput>)
    ensures UniqueKeys(nodes) ==> UniqueIds(RowsOf(nodes))
  {}

  lemma TreeOrderIds(rows: seq<Row<Key>>)
    requires UniqueIds(rows)
    ensures forall i :: 0 <= i < |TreeOrder(rows)| ==>
            TreeOrder(rows)[i].row in rows && TreeOrder(rows)[i].row.id in Ids(rows)
  {
    TreeOrderHolds(rows);
    forall i | 0 <= i < |TreeOrder(rows)| ensures TreeOrder(rows)[i].row in rows {
      assert TreeOrder(rows)[i] in TreeOrder(rows);
    }
  }

  lemma {:induction false} DistinctMultiset<T(!new)>(s: seq<T>, x: T)
    requires Distinct(s)
    ensures multiset(s)[x] == if x in s then 1 else 0
    decreases |s|
  {
    if s != [] {
      var init, last := s[..|s| - 1], s[|s| - 1];
      assert s == init + [last];
      DistinctMultiset(init, x);
    }
  }

  lemma SameElements<T(!new)>(s: seq<T>, t: seq<T>)
    requires Distinct(s) && Distinct(t) && forall x :: x in s <==> x in t
    ensures multiset(s) == multiset(t)
  {
    forall x ensures multiset(s)[x] == multiset(t)[x] {
      DistinctMultiset(s, x);
      DistinctMultiset(t, x);
    }
  }

  /** ordered is the listing with each row replaced by its node. */
  ghost predicate NodesOf(nodes: seq<NodeInput>, l: seq<Placed<Key>>, ordered: seq<NodeInput>) {
    |ordered| == |l| && forall i :: 0 <= i < |l| ==> ordered[i] in nodes && ordered[i].key == l[i].row.id
  }

  lemma NodeOfRow(nodes: seq<NodeInput>, n: NodeInput, r: Row<Key>)
    requires UniqueKeys(nodes) && n in nodes && r in RowsOf(nodes) && r.id == n.key
    ensures r.parent == n.parentKey
  {
    var i :| 0 <= i < |nodes| && nodes[i] == n;
    var j :| 0 <= j < |nodes| && RowsOf(nodes)[j] == r;
  }

  lemma OrderedDistinct(nodes: seq<NodeInput>, l: seq<Placed<Key>>, ordered: seq<NodeInput>)
    requires DistinctRows(l) && NodesOf(nodes, l, ordered)
    ensures Distinct(ordered) && UniqueKeys(ordered)
  {}

  lemma OrderedCovers(nodes: seq<NodeInput>, l: seq<Placed<Key>>, ordered: seq<NodeInput>, n: NodeInput)
    requires UniqueKeys(nodes) && NodesOf(nodes, l, ordered) && n in nodes
    requires forall r :: r in RowsOf(nodes) ==> r in RowSet(l)
    ensures n in ordered
  {
    hide RowSet, RowsOf, UniqueKeys;
    var k :| 0 <= k < |nodes| && nodes[k] == n;
    assert RowsOf(nodes)[k] in RowsOf(nodes);
    var i := WhereListed(l, RowsOf(nodes)[k]);
    var m :| 0 <= m < |nodes| && nodes[m] == ordered[i];
    SameKeySamePlace(nodes, m, k);
  }

  lemma WhereListed(l: seq<Placed<Key>>, r: Row<Key>) returns (i: nat)
    requires r in RowSet(l)
    ensures i < |l| && l[i].row == r
  {
    var x :| x in l && x.row == r;
    i :| 0 <= i < |l| && l[i] == x;
  }

  lemma SameKeySamePlace(nodes: seq<NodeInput>, m: nat, k: nat)
    requires UniqueKeys(nodes) && m < |nodes| && k < |nodes| && nodes[m].key == nodes[k].key
    ensures m == k
  {}

  lemma OrderedIsPermutation(nodes: seq<NodeInput>, l: seq<Placed<Key>>, ordered: seq<NodeInput>)
    requires UniqueKeys(nodes) && RootReachesAll(nodes) && l == TreeOrder(RowsOf(nodes)) && NodesOf(nodes, l, ordered)
    ensures multiset(ordered) == multiset(nodes) && UniqueKeys(ordered)
  {
    var rows := RowsOf(nodes);
    RowsUnique(nodes);
    assert Distinct(nodes);
    assert forall r :: r in rows ==> Rooted(rows, r.id);
    hide *;
    TreeOrderHolds(rows);
    ListedAllIffRooted(rows);
    OrderedDistinct(nodes, l, ordered);
    forall n | n in nodes ensures n in ordered { OrderedCovers(nodes, l, ordered, n); }
    forall n | n in ordered ensures n in nodes { OrderedWithin(nodes, l, ordered, n); }
    SameElements(ordered, nodes);
  }

  lemma OrderedWithin(nodes: seq<NodeInput>, l: seq<Placed<Key>>, ordered: seq<NodeInput>, n: NodeInput)
    requires NodesOf(nodes, l, ordered) && n in ordered
    ensures n in nodes
  {}

  lemma OrderedIsParentFirst(nodes: seq<NodeInput>, l: seq<Placed<Key>>, ordered: seq<NodeInput>)
    requires UniqueKeys(nodes) && RootReachesAll(nodes) && l == TreeOrder(RowsOf(nodes)) && NodesOf(nodes, l, ordered)
    ensures ParentFirst(nodes, ordered)
  {
    hide TreeOrder, Children, WithParent;
    var rows := RowsOf(nodes);
    OrderedIsPermutation(nodes, l, ordered);
    RowsUnique(nodes);
    TreeOrderHolds(rows);
    forall i: nat | i < |ordered| && ordered[i].parentKey.Some?
      ensures exists j: nat :: j < i && ordered[j].key == ordered[i].parentKey.value
    {
      assert l[i] in l;
      NodeOfRow(nodes, ordered[i], l[i].row);
      var j: nat :| InsideBlockOf(l, i, j);
      assert ordered[j].key == l[j].row.id;
    }
  }

  // ----- When the cycle check is right -----

  /** No two different edges between these keys share their text. */
  ghost predicate Unambiguous(keys: set<Key>) {
    forall d, e :: WithinKeys(keys, d) && WithinKeys(keys, e) && Label(d) == Label(e) ==> d == e
  }

  ghost predicate WithinKeys(keys: set<Key>, d: Dependency) {
    d.blockerKey in keys && d.blockedKey in keys && d.blockerKey != d.blockedKey
  }

  /** No edge before this one reads the same when its two keys are written with an arrow between them. */
  ghost predicate FirstToRead(deps: seq<Dependency>, i: nat)
    requires i < |deps|
  {
    forall j :: 0 <= j < i ==>
      deps[j].blockerKey + "->" + deps[j].blockedKey != deps[i].blockerKey + "->" + deps[i].blockedKey
  }

  /** Of the edges that read the same only the first is ever looked at. */
  lemma {:induction false} KeptAreTheFirst(deps: seq<Dependency>, d: Dependency)
    ensures d in Kept(deps) <==> exists i: nat :: i < |deps| && deps[i] == d && FirstToRead(deps, i)
    decreases |deps|
  {
    if deps != [] {
      var n := |deps| - 1;
      var init := deps[..n];
      KeptAreTheFirst(init, d);
      forall i: nat | i < n ensures FirstToRead(deps, i) <==> FirstToRead(init, i) {}
      assert FirstToRead(deps, n) <==> !TextSeen(init, Label(deps[n])) by {
        if !FirstToRead(deps, n) {
          var j :| 0 <= j < n && Label(deps[j]) == Label(deps[n]);
          assert init[j] in init;
        }
      }
    }
  }

  lemma {:induction false} KeptIsSubset(deps: seq<Dependency>)
    ensures forall d :: d in Kept(deps) ==> d in deps
    decreases |deps|
  {
    if deps != [] { KeptIsSubset(deps[..|deps| - 1]); }
  }

  lemma {:induction false} NothingLost(keys: set<Key>, deps: seq<Dependency>)
    requires Unambiguous(keys) && forall d :: d in deps ==> WithinKeys(keys, d)
    ensures forall d :: d in deps ==> d in Kept(deps)
    decreases |deps|
  {
    if deps != [] {
      var init, last := deps[..|deps| - 1], deps[|deps| - 1];
      assert deps == init + [last];
      assert forall d :: d in init ==> d in deps;
      NothingLost(keys, init);
    }
  }

  lemma KeptIsAll(keys: set<Key>, deps: seq<Dependency>)
    requires Unambiguous(keys) && DependenciesResolve(keys, deps)
    ensures Edges(Kept(deps)) == Edges(deps)
  {
    hide Unambiguous, Kept;
    assert forall d :: d in deps ==> WithinKeys(keys, d);
    NothingLost(keys, deps);
    KeptIsSubset(deps);
  }

  lemma HierarchyIsExact(nodes: seq<NodeInput>)
    ensures TreeVerdict(nodes).None? <==>
            UniqueKeys(nodes) && |Children(RowsOf(nodes), None)| == 1 && ParentsResolve(nodes)
              && Acyclic(ParentLinks(RowsOf(nodes)))
  {
    hide Acyclic, Children, Rooted;
    RowsUnique(nodes);
    if UniqueKeys(nodes) && ParentsResolve(nodes) {
      ParentsAreListed(nodes);
      RootedIffAcyclic(RowsOf(nodes));
    }
  }

  /** On keys whose edge texts are unambiguous, exactly the valid payloads are accepted. */
  lemma AcceptsExactlyTheValid(nodes: seq<NodeInput>, deps: seq<Dependency>)
    requires Unambiguous(Keys(nodes))
    ensures Verdict(nodes, deps).None? <==> ValidPayload(nodes, deps)
  {
    hide TreeVerdict, Acyclic, Unambiguous, UniqueKeys, ParentsResolve, DependenciesResolve, Kept, FirstBadDependency,
         Children, Keys;
    HierarchyIsExact(nodes);
    if DependenciesResolve(Keys(nodes), deps) { KeptIsAll(Keys(nodes), deps); }
  }

  lemma ParentsAreListed(nodes: seq<NodeInput>)
    requires ParentsResolve(nodes)
    ensures Resolved(RowsOf(nodes))
  {
    forall r | r in RowsOf(nodes) && r.parent.Some? ensures r.parent.value in Ids(RowsOf(nodes)) {
      var i :| 0 <= i < |nodes| && RowsOf(nodes)[i] == r;
      assert nodes[i] in nodes;
    }
  }

  lemma KeptOfThree(d: Dependency, e: Dependency, back: Dependency)
    requires Label(d) == Label(e)
    ensures forall x :: x in Kept([d, e, back]) ==> x == d || x == back
  {
    hide Label;
    assert [d, e, back][..2] == [d, e] && [d, e][..1] == [d] && [d][..0] == [];
    assert d in [d];
    assert TextSeen([d], Label(e));
    assert Kept([d, e]) == Kept([d]);
    KeptIsSubset([d]);
  }

  /** A second edge with the first one's text, and its own reverse: a cycle the check does not see. */
  lemma HiddenCycle(d: Dependency, e: Dependency)
    requires d != e && Label(d) == Label(e) && d.blockerKey != d.blockedKey && e.blockerKey != e.blockedKey
    ensures var deps := [d, e, Dependency(e.blockedKey, e.blockerKey)];
            !Acyclic(Edges(deps)) && Acyclic(Edges(Kept(deps)))
  {
    hide Label, Kept;
    var back := Dependency(e.blockedKey, e.blockerKey);
    var deps := [d, e, back];
    var x, y := e.blockerKey, e.blockedKey;
    assert e in deps && back in deps;
    EdgeReaches(Edges(deps), x, y);
    EdgeReaches(Edges(deps), y, x);
    ReachesTrans(Edges(deps), x, y, x);
    KeptOfThree(d, e, back);
    var two := {(d.blockerKey, d.blockedKey), (y, x)};
    TwoEdgesAcyclic(d.blockerKey, d.blockedKey, y, x);
    assert Edges(Kept(deps)) <= two;
    FewerEdgesAcyclic(Edges(Kept(deps)), two);
  }

  /** For any other set of keys some cyclic dependency list gets through. */
  lemma AmbiguousKeysLetACycleThrough(keys: set<Key>) returns (deps: seq<Dependency>)
    requires !Unambiguous(keys)
    ensures DependenciesResolve(keys, deps) && !Acyclic(Edges(deps)) && Acyclic(Edges(Kept(deps)))
  {
    hide Label, Kept;
    var d, e :| WithinKeys(keys, d) && WithinKeys(keys, e) && Label(d) == Label(e) && d != e;
    HiddenCycle(d, e);
    deps := [d, e, Dependency(e.blockedKey, e.blockerKey)];
  }

  lemma TwoEdgesAcyclic(a: Key, b: Key, c: Key, d: Key)
    requires a != b && c != d && !(b == c && d == a)
    ensures Acyclic({(a, b), (c, d)})
  {
    var none: set<(Key, Key)> := {};
    forall v ensures !StrictlyReaches(none, v, v) {
      if StrictlyReaches(none, v, v) { var w := FirstStep(none, v, v); }
    }
    var one := none + {(a, b)};
    if Reaches(none, b, a) { StrictUnlessSame(none, b, a); var w := FirstStep(none, b, a); }
    AddEdgeAcyclic(none, a, b);
    if Reaches(one, d, c) {
      StrictUnlessSame(one, d, c);
      var w := FirstStep(one, d, c);
      assert d == a && w == b;
      StrictUnlessSame(one, b, c);
      var z := FirstStep(one, b, c);
    }
    AddEdgeAcyclic(one, c, d);
    assert one + {(c, d)} == {(a, b), (c, d)};
  }

  /**
   The check is right for every dependency list over a set of keys exactly when no two edges between them share
   a text.
  */
  lemma CycleCheckIsRightIff(keys: set<Key>)
    ensures (forall deps :: DependenciesResolve(keys, deps) ==> (Acyclic(Edges(Kept(deps))) <==> Acyclic(Edges(deps))))
            <==> Unambiguous(keys)
  {
    if Unambiguous(keys) {
      forall deps | DependenciesResolve(keys, deps) ensures Acyclic(Edges(Kept(deps))) <==> Acyclic(Edges(deps)) {
        KeptIsAll(keys, deps);
      }
    } else {
      var deps := AmbiguousKeysLetACycleThrough(keys);
    }
  }

  /** The key contains the text "->". */
  predicate HasArrow(k: Key) {
    exists i :: 0 <= i < |k| - 1 && k[i] == '-' && k[i + 1] == '>'
  }

  /** Keys without an arrow in them are never ambiguous. */
  lemma PlainKeysAreUnambiguous(keys: set<Key>)
    requires forall k :: k in keys ==> !HasArrow(k)
    ensures Unambiguous(keys)
  {
    forall d, e | WithinKeys(keys, d) && WithinKeys(keys, e) && Label(d) == Label(e) ensures d == e {
      if |d.blockerKey| <= |e.blockerKey| { ArrowSplits(d, e); } else { ArrowSplits(e, d); }
    }
  }

  lemma ArrowSplits(d: Dependency, e: Dependency)
    requires Label(d) == Label(e) && |d.blockerKey| <= |e.blockerKey| && !HasArrow(e.blockerKey)
    ensures d == e
  {
    var l, n := Label(d), |d.blockerKey|;
    assert l[n] == '-' && l[n + 1] == '>';
    assert forall i :: 0 <= i < |e.blockerKey| ==> l[i] == e.blockerKey[i];
    assert l[|e.blockerKey|] == '-';
    assert d.blockerKey == l[..n] == e.blockerKey;
    assert d.blockedKey == l[n + 2..] == e.blockedKey;
  }

  /** For an accepted hierarchy with ambiguous keys, some dependency list with a cycle is accepted. */
  lemma AmbiguousTreeAcceptsACycle(nodes: seq<NodeInput>) returns (deps: seq<Dependency>)
    requires TreeVerdict(nodes).None? && !Unambiguous(Keys(nodes))
    ensures Verdict(nodes, deps).None? && !ValidPayload(nodes, deps) && !Acyclic(Edges(deps))
  {
    hide TreeVerdict, Acyclic, Unambiguous, UniqueKeys, ParentsResolve, Kept, FirstBadDependency, Children, Keys, Edges;
    deps := AmbiguousKeysLetACycleThrough(Keys(nodes));
  }

  /**
   Over an accepted hierarchy, exactly the valid dependency lists are accepted, if and only if no two edges
   share a text.
  */
  lemma AcceptanceIsRightIff(nodes: seq<NodeInput>)
    requires TreeVerdict(nodes).None?
    ensures (forall deps :: Verdict(nodes, deps).None? <==> ValidPayload(nodes, deps)) <==> Unambiguous(Keys(nodes))
  {
    hide Verdict, ValidPayload, Unambiguous, TreeVerdict;
    if Unambiguous(Keys(nodes)) {
      forall deps ensures Verdict(nodes, deps).None? <==> ValidPayload(nodes, deps) {
        AcceptsExactlyTheValid(nodes, deps);
      }
    } else {
      var deps := AmbiguousTreeAcceptsACycle(nodes);
    }
  }

  /** A root and nodes right below it. */
  predicate Star(nodes: seq<NodeInput>) {
    |nodes| > 0 && forall i :: 0 <= i < |nodes| ==> nodes[i].parentKey == if i == 0 then None else Some(nodes[0].key)
  }

  lemma {:induction false} OnlyTheFirstIsRoot(rows: seq<Row<Key>>)
    requires |rows| > 0 && forall i :: 0 <= i < |rows| ==> (rows[i].parent.None? <==> i == 0)
    ensures |Children(rows, None)| == 1
    decreases |rows|
  {
    if |rows| == 1 {
      assert Children(rows[..0], None) == [];
    } else {
      OnlyTheFirstIsRoot(rows[..|rows| - 1]);
    }
  }

  /** Links that all lead to one row without a parent close no loop. */
  lemma StarIsAcyclic(rows: seq<Row<Key>>, center: Key)
    requires forall r :: r in rows && r.parent.Some? ==> r.parent.value == center && r.id != center
    ensures Acyclic(ParentLinks(rows))
  {
    forall a ensures !StrictlyReaches(ParentLinks(rows), a, a) {
      if StrictlyReaches(ParentLinks(rows), a, a) {
        var b := FirstStep(ParentLinks(rows), a, a);
        StrictUnlessSame(ParentLinks(rows), b, a);
        var c := FirstStep(ParentLinks(rows), b, a);
      }
    }
  }

  lemma StarRows(nodes: seq<NodeInput>)
    requires UniqueKeys(nodes) && Star(nodes)
    ensures ParentsResolve(nodes) && |Children(RowsOf(nodes), None)| == 1
    ensures forall r :: r in RowsOf(nodes) && r.parent.Some? ==> r.parent.value == nodes[0].key && r.id != nodes[0].key
  {
    hide Children, Keys;
    OnlyTheFirstIsRoot(RowsOf(nodes));
    forall r | r in RowsOf(nodes) && r.parent.Some? ensures r.parent.value == nodes[0].key && r.id != nodes[0].key {
      var i :| 0 <= i < |nodes| && RowsOf(nodes)[i] == r;
    }
  }

  /** Such a hierarchy is accepted, and with it any resolvable dependencies that make no cycle. */
  lemma StarIsAccepted(nodes: seq<NodeInput>, deps: seq<Dependency>)
    requires UniqueKeys(nodes) && Star(nodes)
    ensures TreeVerdict(nodes).None?
    ensures DependenciesResolve(Keys(nodes), deps) && Acyclic(Edges(deps)) ==> Verdict(nodes, deps).None?
  {
    hide UniqueKeys, Children, Acyclic, Kept, DependenciesResolve, ParentsResolve, Keys, Edges, RowsOf,
         FirstBadDependency, TreeVerdict;
    StarRows(nodes);
    StarIsAcyclic(RowsOf(nodes), nodes[0].key);
    HierarchyIsExact(nodes);
    KeptEdges(deps);
    if Acyclic(Edges(deps)) { FewerEdgesAcyclic(Edges(Kept(deps)), Edges(deps)); }
  }

  lemma KeptEdges(deps: seq<Dependency>)
    ensures Edges(Kept(deps)) <= Edges(deps)
  {
    hide Kept;
    KeptIsSubset(deps);
  }

  // ----- One such payload -----

  /** A root and three tasks right below it. */
  const EXAMPLE_NODES: seq<NodeInput> := [
    NodeInput(None, "a", None, None, ""), NodeInput(None, "b->c", Some("a"), None, ""),
    NodeInput(None, "a->b", Some("a"), None, ""), NodeInput(None, "c", Some("a"), None, "")]

  const EXAMPLE_DEPENDENCIES: seq<Dependency> :=
    [Dependency("a", "b->c"), Dependency("a->b", "c"), Dependency("c", "a->b")]

  /** It is accepted although two of its dependencies block each other. */
  lemma AnAcceptedCycle()
    ensures Verdict(EXAMPLE_NODES, EXAMPLE_DEPENDENCIES).None?
    ensures !ValidPayload(EXAMPLE_NODES, EXAMPLE_DEPENDENCIES) && !Acyclic(Edges(EXAMPLE_DEPENDENCIES))
  {
    hide TreeVerdict, Acyclic, Kept, ValidPayload;
    ExampleKeysDiffer();
    StarIsAccepted(EXAMPLE_NODES, EXAMPLE_DEPENDENCIES);
    var d, e := Dependency("a", "b->c"), Dependency("a->b", "c");
    assert Label(d) == "a->b->c" == Label(e);
    HiddenCycle(d, e);
    ExampleResolves();
    assert !ValidPayload(EXAMPLE_NODES, EXAMPLE_DEPENDENCIES) by {
      NotValidWithACycle(EXAMPLE_NODES, EXAMPLE_DEPENDENCIES);
    }
  }

  lemma NotValidWithACycle(nodes: seq<NodeInput>, deps: seq<Dependency>)
    requires !Acyclic(Edges(deps))
    ensures !ValidPayload(nodes, deps)
  {}

  lemma ExampleKeysDiffer()
    ensures UniqueKeys(EXAMPLE_NODES)
  {
    assert |"a"| == 1 && |"b->c"| == 4 && |"a->b"| == 4 && |"c"| == 1;
    assert "a"[0] == 'a' && "b->c"[0] == 'b' && "a->b"[0] == 'a' && "c"[0] == 'c';
  }

  lemma ExampleResolves()
    ensures DependenciesResolve(Keys(EXAMPLE_NODES), EXAMPLE_DEPENDENCIES)
  {
    ExampleKeysDiffer();
    var n := EXAMPLE_NODES;
    assert n[0].key == "a" && n[1].key == "b->c" && n[2].key == "a->b" && n[3].key == "c";
  }
}
