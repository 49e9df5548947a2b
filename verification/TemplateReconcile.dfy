/**
 Saving a template's tree in place: nodes that carry an id are updated, new ones created, and those
 no longer present deleted, with the database cascading each deletion to child nodes. No kept node
 falls to the cascade, because by then every kept node hangs off a kept node. With distinct ids the
 stored tree ends up exactly the payload; nodes that share an id share a row, which the last one fills.
 */
module TemplateReconcile {
  import opened Wrappers
  import opened Entities
  import opened Graphs
  import T = TemplateTree

  type NodeId = nat

  datatype NodeRow = NodeRow(templateId: nat, parent: Option<NodeId>, dutyId: Option<DutyId>, data: string)

  datatype Refusal = Invalid(why: T.Refusal) | NotInTemplate | BadDuty

  type Nodes = map<NodeId, NodeRow>

  type Edges = set<(NodeId, NodeId)>

  ghost function ParentLinksOf(nodes: Nodes): (e: set<(NodeId, NodeId)>)
    ensures forall a, b :: (a, b) in e <==> a in nodes && nodes[a].parent == Some(b)
  {
    set a | a in nodes && nodes[a].parent.Some? :: (a, nodes[a].parent.value)
  }

  /** The rows a deletion takes with it: everything whose parents lead to a deleted row. */
  ghost predicate Doomed(nodes: Nodes, ids: set<NodeId>, x: NodeId) {
    exists r :: r in ids && Reaches(ParentLinksOf(nodes), x, r)
  }

  /** Payload nodes that name an id name different ones. */
  ghost predicate DistinctIds(nodes: seq<T.NodeInput>) {
    forall i, j :: 0 <= i < j < |nodes| && nodes[i].id.Some? ==> nodes[i].id != nodes[j].id
  }

  ghost predicate GivenIds(nodes: seq<T.NodeInput>, f: map<T.Key, NodeId>) {
    forall n :: n in nodes && n.id.Some? ==> n.key in f && f[n.key] == n.id.value
  }

  function RowFor(templateId: nat, n: T.NodeInput, f: map<T.Key, NodeId>): NodeRow {
    NodeRow(templateId,
            if n.parentKey.Some? && n.parentKey.value in f then Some(f[n.parentKey.value]) else None,
            n.dutyId, n.data)
  }

  /** A stored node has its template, content and duty, and hangs off the row of the node it names. */
  predicate RowOfNode(templateId: nat, n: T.NodeInput, f: map<T.Key, NodeId>, row: NodeRow) {
    && row.templateId == templateId && row.dutyId == n.dutyId && row.data == n.data
    && (n.parentKey.None? ==> row.parent.None?)
    && (n.parentKey.Some? && n.parentKey.value in f ==> row.parent == Some(f[n.parentKey.value]))
  }

  lemma RowsInWords(templateId: nat, n: T.NodeInput, f: map<T.Key, NodeId>)
    ensures RowOfNode(templateId, n, f, RowFor(templateId, n, f))
  {}

  /** A duty that is not active may stay on the row it is on, and go on no other. */
  ghost predicate DutiesMayBe(nodes: Nodes, payload: seq<T.NodeInput>, activeDuties: set<DutyId>) {
    forall n, d :: n in payload && n.dutyId == Some(d) && d !in activeDuties ==>
      n.id.Some? && n.id.value in nodes && nodes[n.id.value].dutyId == Some(d)
  }

  lemma DutiesInWords(nodes: Nodes, payload: seq<T.NodeInput>, activeDuties: set<DutyId>)
    ensures NewDuties(nodes, payload) <= activeDuties <==> DutiesMayBe(nodes, payload, activeDuties)
  {
    if NewDuties(nodes, payload) <= activeDuties {
      forall n, d | n in payload && n.dutyId == Some(d) && d !in activeDuties
        ensures n.id.Some? && n.id.value in nodes && nodes[n.id.value].dutyId == Some(d)
      {
        assert d !in NewDuties(nodes, payload) && !PutsOn(nodes, n, d);
      }
    }
  }

  /** The template's stored nodes are the payload's, under the ids f gives their keys. */
  ghost predicate Stored(after: Nodes, templateId: nat, nodes: seq<T.NodeInput>, f: map<T.Key, NodeId>) {
    && (forall n :: n in nodes ==> n.key in f && f[n.key] in after && after[f[n.key]] == RowFor(templateId, n, f))
    && forall x :: x in after && after[x].templateId == templateId ==> exists n :: n in nodes && f[n.key] == x
  }

  ghost predicate RowsOfNodes(after: Nodes, templateId: nat, nodes: seq<T.NodeInput>, f: map<T.Key, NodeId>) {
    forall n :: n in nodes ==> n.key in f && f[n.key] in after && RowOfNode(templateId, n, f, after[f[n.key]])
  }

  lemma StoredInWords(after: Nodes, templateId: nat, nodes: seq<T.NodeInput>, f: map<T.Key, NodeId>)
    requires Stored(after, templateId, nodes, f)
    ensures RowsOfNodes(after, templateId, nodes, f)
  {
    hide RowOfNode, RowFor;
    forall n | n in nodes ensures RowOfNode(templateId, n, f, after[f[n.key]]) { RowsInWords(templateId, n, f); }
  }

  /** No node after the j-th is saved under the same id. */
  ghost predicate LastUnderItsId(ordered: seq<T.NodeInput>, i: nat, f: map<T.Key, NodeId>, j: nat)
    requires i <= |ordered| && forall k :: 0 <= k < i ==> ordered[k].key in f
  {
    j < i && forall k :: j < k < i ==> f[ordered[k].key] != f[ordered[j].key]
  }

  /** The same with ids shared: saved in this order, the last node under an id fills its row. */
  ghost predicate StoredInOrder(after: Nodes, templateId: nat, ordered: seq<T.NodeInput>, f: map<T.Key, NodeId>) {
    && (forall j :: 0 <= j < |ordered| ==> ordered[j].key in f && f[ordered[j].key] in after)
    && (forall j :: 0 <= j < |ordered| && LastUnderItsId(ordered, |ordered|, f, j) ==>
          after[f[ordered[j].key]] == RowFor(templateId, ordered[j], f))
    && forall x :: x in after && after[x].templateId == templateId ==>
       exists j :: 0 <= j < |ordered| && f[ordered[j].key] == x
  }

  /** Ids are handed out upward; parents and edges stay within their template. */
  ghost predicate Sound(nodes: Nodes, deps: Edges, nextId: NodeId) {
    && (forall x :: x in nodes ==> x < nextId)
    && (forall x :: x in nodes && nodes[x].parent.Some? ==>
          nodes[x].parent.value in nodes && nodes[nodes[x].parent.value].templateId == nodes[x].templateId)
    && forall a, b :: (a, b) in deps ==> a in nodes && b in nodes && nodes[a].templateId == nodes[b].templateId
  }

  function IdsOf(nodes: Nodes, templateId: nat): set<NodeId> {
    set x | x in nodes && nodes[x].templateId == templateId
  }

  ghost predicate OthersKept(before: Nodes, after: Nodes, templateId: nat) {
    && (forall x :: x in before && before[x].templateId != templateId ==> x in after && after[x] == before[x])
    && forall x :: x in after && after[x].templateId != templateId ==> x in before
  }

  /** The template's edges are the wanted ones; every other template keeps its own. */
  ghost predicate EdgesReplaced(nodes: Nodes, before: Edges, after: Edges, templateId: nat, wanted: Edges) {
    && (forall a, b :: (a, b) in wanted ==> a in nodes && nodes[a].templateId == templateId)
    && (forall a, b :: a in nodes && nodes[a].templateId == templateId ==> ((a, b) in after <==> (a, b) in wanted))
    && (forall a, b :: a in nodes && nodes[a].templateId != templateId ==> ((a, b) in after <==> (a, b) in before))
    && forall a, b :: (a, b) in after ==> a in nodes
  }

  function PayloadIds(nodes: seq<T.NodeInput>): (s: set<NodeId>)
    ensures forall x :: x in s <==> exists n :: n in nodes && n.id == Some(x)
  {
    set n | n in nodes && n.id.Some? :: n.id.value
  }

  /** The duties put on a node that did not have them. */
  function NewDuties(nodes: Nodes, payload: seq<T.NodeInput>): (s: set<DutyId>)
    ensures forall d :: d in s <==> exists n :: n in payload && PutsOn(nodes, n, d)
  {
    var s := set n | n in payload && n.dutyId.Some? && PutsOn(nodes, n, n.dutyId.value) :: n.dutyId.value;
    s
  }

  predicate PutsOn(nodes: Nodes, n: T.NodeInput, d: DutyId) {
    n.dutyId == Some(d) && !(n.id.Some? && n.id.value in nodes && nodes[n.id.value].dutyId == Some(d))
  }

  /** A node stored for that template. */
  ghost predicate OwnNode(nodes: Nodes, templateId: nat, id: NodeId) {
    id in nodes && nodes[id].templateId == templateId
  }

  lemma IdsInWords(nodes: Nodes, templateId: nat, payload: seq<T.NodeInput>)
    ensures PayloadIds(payload) <= IdsOf(nodes, templateId)
            <==> forall n :: n in payload && n.id.Some? ==> OwnNode(nodes, templateId, n.id.value)
  {}

  class TemplateStore {
    var nodes: Nodes
    var deps: Edges
    var nextId: NodeId

    ghost predicate Valid()
      reads this
    {
      Sound(nodes, deps, nextId)
    }

    constructor ()
      ensures Valid() && nodes == map[] && deps == {}
    {
      nodes, deps, nextId := map[], {}, 1;
    }

    /** Delete these rows; the foreign keys delete their descendants and every edge touching one. */
    method DeleteMany(ids: set<NodeId>)
      requires ids <= nodes.Keys
      modifies this`nodes, this`deps
      ensures forall x :: x in nodes <==> x in old(nodes) && !Doomed(old(nodes), ids, x)
      ensures forall x :: x in nodes ==> nodes[x] == old(nodes)[x]
      ensures forall a, b :: (a, b) in deps <==>
                (a, b) in old(deps) && !Doomed(old(nodes), ids, a) && !Doomed(old(nodes), ids, b)
    {
      var gone := Cascade(nodes, ids);
      nodes := nodes - gone;
      deps := set d | d in deps && d.0 !in gone && d.1 !in gone;
    }

    method ReconcileTree(templateId: nat, payload: seq<T.NodeInput>, dependencies: seq<T.Dependency>,
                         activeDuties: set<DutyId>)
      returns (r: Result<map<T.Key, NodeId>, Refusal>)
      requires Valid()
      modifies this
      ensures Valid()
      ensures r.Err? ==> nodes == old(nodes) && deps == old(deps) && nextId == old(nextId)
      ensures match T.Verdict(payload, dependencies)
              case Some(why) => r == Err(Invalid(why))
              case None =>
                if !(PayloadIds(payload) <= IdsOf(old(nodes), templateId)) then r == Err(NotInTemplate)
                else if !(NewDuties(old(nodes), payload) <= activeDuties) then r == Err(BadDuty)
                else r.Ok?
      ensures r.Ok? ==> forall n :: n in payload && n.id.Some? ==> OwnNode(old(nodes), templateId, n.id.value)
      ensures r == Err(NotInTemplate) ==>
                exists n :: n in payload && n.id.Some? && !OwnNode(old(nodes), templateId, n.id.value)
      ensures r.Ok? ==> DutiesMayBe(old(nodes), payload, activeDuties)
      ensures r == Err(BadDuty) ==> !DutiesMayBe(old(nodes), payload, activeDuties)
      // every supplied id is kept, every other node gets a new one
      ensures r.Ok? ==> r.value.Keys == T.Keys(payload) && GivenIds(payload, r.value)
      ensures r.Ok? ==> forall n :: n in payload && n.id.None? ==> r.value[n.key] >= old(nextId)
      ensures r.Ok? ==> forall n, o :: n in payload && o in payload && n.id.None? && o.id.None? && n.key != o.key ==>
                r.value[n.key] != r.value[o.key]
      // keys keep apart exactly when the supplied ids are distinct
      ensures r.Ok? ==> (Injective(r.value) <==> DistinctIds(payload))
      // the template's edges become all of the payload's between different rows; other templates are untouched
      ensures r.Ok? ==>
                && OthersKept(old(nodes), nodes, templateId)
                && EdgesReplaced(nodes, old(deps), deps, templateId, Unlooped(Renamed(T.Edges(dependencies), r.value)))
      // its nodes become the payload's, saved in some parents-first order
      ensures r.Ok? ==> exists ordered ::
              T.ParentFirst(payload, ordered) && StoredInOrder(nodes, templateId, ordered, r.value)
      // with distinct ids, tree and edges become exactly the payload's
      ensures r.Ok? && DistinctIds(payload) ==>
                && Stored(nodes, templateId, payload, r.value)
                && RowsOfNodes(nodes, templateId, payload, r.value)
                && Unlooped(Renamed(T.Edges(dependencies), r.value)) == Renamed(T.Edges(dependencies), r.value)
    {
      hide T.Verdict, T.Keys, T.ParentFirst, Stored, StoredInOrder, Upserted, Assigned, DistinctIds, Injective,
           GivenIds, Doomed, PayloadIds, IdsOf, Sound, GivenExactly, GivenOnly, Settled, EdgesReplaced, OthersKept,
           ParentsStayInTemplate, RowFor, DutiesMayBe, RowsOfNodes, NewDuties, OwnNode;
      var ordered := T.ValidateAndOrderTree(payload, dependencies);
      if ordered.Err? { return Err(Invalid(ordered.error)); }
      AcceptedFacts(payload, dependencies);
      var existingIds, payloadIds := IdsOf(nodes, templateId), PayloadIds(payload);
      IdsInWords(nodes, templateId, payload);
      if !(payloadIds <= existingIds) { return Err(NotInTemplate); }
      DutiesInWords(nodes, payload, activeDuties);
      if !(NewDuties(nodes, payload) <= activeDuties) { return Err(BadDuty); }
      OrderedFacts(payload, ordered.value);
      var given := GivenMap(payload);
      GivenForOrdered(payload, ordered.value, given);
      ghost var before, depsBefore, lo := nodes, deps, nextId;
      SoundBelow(before, depsBefore, lo);
      var keyToId := UpsertAll(templateId, ordered.value, given);
      ghost var upserted := nodes;
      var removed := existingIds - payloadIds;
      IdsOfExist(before, templateId);
      DeleteMany(removed);
      ghost var left := deps;
      var others := set d | d in deps && !(d.0 in nodes && nodes[d.0].templateId == templateId);
      var edges := Unlooped(Renamed(T.Edges(dependencies), keyToId));
      deps := others + edges;
      KeysAssigned(payload, ordered.value, given, keyToId, lo, nextId);
      RemovedAreAllDoomed(before, upserted, templateId, ordered.value, given, keyToId, lo, nextId, removed);
      NodesSettled(before, upserted, nodes, templateId, ordered.value, given, keyToId, lo, nextId, removed);
      RemovedOrSaved(before, templateId, ordered.value, given, keyToId, lo, nextId, removed);
      EdgesSettled(before, nodes, depsBefore, left, deps, templateId, keyToId, lo, nextId, removed,
                   T.Edges(dependencies));
      if DistinctIds(payload) {
        StoredForPayload(nodes, templateId, payload, ordered.value, keyToId);
        StoredInWords(nodes, templateId, payload, keyToId);
        NoEdgeLost(keyToId, T.Edges(dependencies));
      }
      r := Ok(keyToId);
    }

    /** Update or create each node, parents first. keyToId starts with the supplied ids. */
    method UpsertAll(templateId: nat, ordered: seq<T.NodeInput>, given: map<T.Key, NodeId>)
      returns (keyToId: map<T.Key, NodeId>)
      requires T.UniqueKeys(ordered) && ParentsEarlier(ordered) && GivenExactly(ordered, given)
      requires (forall x :: x in nodes ==> x < nextId) && PayloadIds(ordered) <= IdsOf(nodes, templateId)
      modifies this`nodes, this`nextId
      ensures Assigned(ordered, |ordered|, given, keyToId, old(nextId), nextId)
      ensures Upserted(old(nodes), nodes, templateId, ordered, |ordered|, keyToId)
      ensures forall x :: x in nodes ==> x < nextId
      ensures old(nodes).Keys <= nodes.Keys
    {
      hide Assigned, Upserted, T.UniqueKeys, ParentsEarlier, GivenExactly, DistinctIds, RowFor, PayloadIds, IdsOf;
      keyToId := given;
      NothingAssigned(ordered, given, nextId);
      NothingUpserted(nodes, templateId, ordered, given);
      var i := 0;
      while i < |ordered|
        invariant 0 <= i <= |ordered|
        invariant Assigned(ordered, i, given, keyToId, old(nextId), nextId)
        invariant Upserted(old(nodes), nodes, templateId, ordered, i, keyToId)
        invariant forall x :: x in nodes ==> x < nextId
        invariant old(nodes).Keys <= nodes.Keys
      {
        var n := ordered[i];
        var row := RowFor(templateId, n, keyToId);
        AssignedStep(ordered, i, given, keyToId, old(nextId), nextId);
        UpsertedStep(old(nodes), nodes, templateId, ordered, i, given, keyToId, old(nextId), nextId);
        GivenIsBelow(old(nodes), templateId, ordered, i, old(nextId));
        if n.id.Some? {
          nodes := nodes[n.id.value := row];
        } else {
          nodes := nodes[nextId := row];
          keyToId := keyToId[n.key := nextId];
          nextId := nextId + 1;
        }
        i := i + 1;
      }
    }
  }

  lemma AcceptedFacts(payload: seq<T.NodeInput>, dependencies: seq<T.Dependency>)
    requires T.Verdict(payload, dependencies).None?
    ensures T.UniqueKeys(payload) && T.ParentsResolve(payload) && T.DependenciesResolve(T.Keys(payload), dependencies)
  {
    hide T.UniqueKeys, T.ParentsResolve, T.DependenciesResolve, T.RootReachesAll, T.Kept;
  }

  /** Apart from order, the ordered nodes are the payload. */
  ghost predicate SameNodes(a: seq<T.NodeInput>, b: seq<T.NodeInput>) {
    forall n :: n in a <==> n in b
  }

  /** DistinctIds without positions. */
  ghost predicate IdsDiffer(nodes: seq<T.NodeInput>) {
    forall n, m :: n in nodes && m in nodes && n != m && n.id.Some? ==> n.id != m.id
  }

  lemma IdsDifferIff(nodes: seq<T.NodeInput>)
    requires T.UniqueKeys(nodes)
    ensures DistinctIds(nodes) <==> IdsDiffer(nodes)
  {
    if DistinctIds(nodes) {
      forall n, m | n in nodes && m in nodes && n != m && n.id.Some? ensures n.id != m.id {
        var i :| 0 <= i < |nodes| && nodes[i] == n;
        var j :| 0 <= j < |nodes| && nodes[j] == m;
        if j < i && m.id.Some? { assert nodes[j].id != nodes[i].id; }
      }
    }
    if IdsDiffer(nodes) {
      forall i, j | 0 <= i < j < |nodes| && nodes[i].id.Some? ensures nodes[i].id != nodes[j].id {
        assert nodes[i] in nodes && nodes[j] in nodes && nodes[i] != nodes[j];
      }
    }
  }

  lemma OrderedFacts(payload: seq<T.NodeInput>, ordered: seq<T.NodeInput>)
    requires T.UniqueKeys(payload) && T.ParentFirst(payload, ordered)
    ensures T.UniqueKeys(ordered) && ParentsEarlier(ordered) && SameNodes(ordered, payload)
    ensures PayloadIds(ordered) == PayloadIds(payload)
    ensures DistinctIds(ordered) <==> DistinctIds(payload)
  {
    hide T.UniqueKeys, DistinctIds;
    forall n ensures n in ordered <==> n in payload {
      assert n in multiset(ordered) <==> n in multiset(payload);
    }
    IdsDifferIff(ordered);
    IdsDifferIff(payload);
  }

  method GivenMap(payload: seq<T.NodeInput>) returns (given: map<T.Key, NodeId>)
    requires T.UniqueKeys(payload)
    ensures GivenExactly(payload, given) && GivenOnly(payload, given)
  {
    given := map[];
    for i := 0 to |payload|
      invariant forall j :: 0 <= j < i && payload[j].id.Some? ==>
                payload[j].key in given && given[payload[j].key] == payload[j].id.value
      invariant forall k :: k in given ==> exists j :: 0 <= j < i && payload[j].key == k && payload[j].id.Some?
    {
      if payload[i].id.Some? { given := given[payload[i].key := payload[i].id.value]; }
    }
  }

  lemma GivenForOrdered(payload: seq<T.NodeInput>, ordered: seq<T.NodeInput>, given: map<T.Key, NodeId>)
    requires SameNodes(ordered, payload) && GivenExactly(payload, given) && GivenOnly(payload, given)
    ensures GivenExactly(ordered, given) && GivenOnly(ordered, given)
  {
    forall k | k in given ensures exists i :: 0 <= i < |ordered| && ordered[i].key == k {
      var j :| 0 <= j < |payload| && payload[j].key == k;
      assert payload[j] in ordered;
    }
    forall i | 0 <= i < |ordered|
      ensures ordered[i].id.Some? ==> ordered[i].key in given && given[ordered[i].key] == ordered[i].id.value
      ensures ordered[i].id.None? ==> ordered[i].key !in given
    {
      assert ordered[i] in ordered;
      var j :| 0 <= j < |payload| && payload[j] == ordered[i];
    }
  }

  lemma SoundBelow(nodes: Nodes, deps: Edges, nextId: NodeId)
    requires Sound(nodes, deps, nextId)
    ensures (forall x :: x in nodes ==> x < nextId) && ParentsStayInTemplate(nodes)
  {}

  lemma IdsOfExist(nodes: Nodes, templateId: nat)
    ensures IdsOf(nodes, templateId) <= nodes.Keys
  {}

  ghost predicate GivenOnly(ordered: seq<T.NodeInput>, given: map<T.Key, NodeId>) {
    forall k :: k in given ==> exists i :: 0 <= i < |ordered| && ordered[i].key == k
  }

  /** What keyToId holds at the end; it keeps keys apart exactly when the supplied ids are distinct. */
  lemma KeysAssigned(payload: seq<T.NodeInput>, ordered: seq<T.NodeInput>, given: map<T.Key, NodeId>,
                     f: map<T.Key, NodeId>, lo: nat, hi: nat)
    requires T.UniqueKeys(ordered) && SameNodes(ordered, payload) && GivenExactly(ordered, given)
    requires Assigned(ordered, |ordered|, given, f, lo, hi) && GivenOnly(ordered, given)
    requires forall x :: x in PayloadIds(ordered) ==> x < lo
    ensures f.Keys == T.Keys(payload) && GivenIds(payload, f)
    ensures forall n :: n in payload && n.id.None? ==> n.key in f && f[n.key] >= lo
    ensures forall n, o :: n in payload && o in payload && n.id.None? && o.id.None? && n.key != o.key ==>
              n.key in f && o.key in f && f[n.key] != f[o.key]
    ensures Injective(f) <==> DistinctIds(ordered)
  {
    hide T.UniqueKeys, T.Keys, GivenExactly, Assigned, GivenOnly, Injective, DistinctIds, PayloadIds;
    KeysAreCovered(payload, ordered, given, f, lo, hi);
    forall n | n in payload
      ensures n.key in f && (n.id.Some? ==> f[n.key] == n.id.value) && (n.id.None? ==> f[n.key] >= lo)
    {
      assert n in ordered;
      var j :| 0 <= j < |ordered| && ordered[j] == n;
      IdOfNode(ordered, j, given, f, lo, hi);
    }
    forall n, o | n in payload && o in payload && n.id.None? && o.id.None? && n.key != o.key
      ensures n.key in f && o.key in f && f[n.key] != f[o.key]
    {
      assert n in ordered && o in ordered;
      var i: nat :| i < |ordered| && ordered[i] == n;
      var j: nat :| j < |ordered| && ordered[j] == o;
      NewIdsDiffer(ordered, if i < j then i else j, if i < j then j else i, given, f, lo, hi);
    }
    if DistinctIds(ordered) { DistinctInjective(ordered, given, f, lo, hi); }
    if Injective(f) { InjectiveDistinct(ordered, given, f, lo, hi); }
  }

  lemma NewIdsDiffer(ordered: seq<T.NodeInput>, i: nat, j: nat, given: map<T.Key, NodeId>, f: map<T.Key, NodeId>,
                     lo: nat, hi: nat)
    requires Assigned(ordered, |ordered|, given, f, lo, hi) && i < j < |ordered| && ordered[i].id.None?
             && ordered[j].id.None?
    ensures ordered[i].key in f && ordered[j].key in f && f[ordered[i].key] != f[ordered[j].key]
  {}

  lemma KeysAreCovered(payload: seq<T.NodeInput>, ordered: seq<T.NodeInput>, given: map<T.Key, NodeId>,
                       f: map<T.Key, NodeId>, lo: nat, hi: nat)
    requires SameNodes(ordered, payload) && Assigned(ordered, |ordered|, given, f, lo, hi) && GivenOnly(ordered, given)
    ensures f.Keys == T.Keys(payload)
  {
    forall k ensures k in f <==> k in T.Keys(payload) {
      if k in f {
        var j :| 0 <= j < |ordered| && ordered[j].key == k;
        assert ordered[j] in payload;
      }
      if k in T.Keys(payload) {
        var i :| 0 <= i < |payload| && payload[i].key == k;
        assert payload[i] in ordered;
      }
    }
  }

  lemma IdOfNode(ordered: seq<T.NodeInput>, j: nat, given: map<T.Key, NodeId>, f: map<T.Key, NodeId>, lo: nat, hi: nat)
    requires j < |ordered| && GivenExactly(ordered, given) && Assigned(ordered, |ordered|, given, f, lo, hi)
    ensures ordered[j].key in f
    ensures if ordered[j].id.Some? then f[ordered[j].key] == ordered[j].id.value else lo <= f[ordered[j].key] < hi
  {}

  lemma DistinctInjective(ordered: seq<T.NodeInput>, given: map<T.Key, NodeId>, f: map<T.Key, NodeId>, lo: nat, hi: nat)
    requires T.UniqueKeys(ordered) && GivenExactly(ordered, given) && GivenOnly(ordered, given)
    requires Assigned(ordered, |ordered|, given, f, lo, hi) && DistinctIds(ordered)
    requires forall x :: x in PayloadIds(ordered) ==> x < lo
    ensures Injective(f)
  {
    hide T.UniqueKeys, GivenExactly, GivenOnly, Assigned, DistinctIds;
    forall a, b | a in f && b in f && f[a] == f[b] ensures a == b {
      var i := NodeWithKey(ordered, given, f, lo, hi, a);
      var j := NodeWithKey(ordered, given, f, lo, hi, b);
      assert ordered[i] in ordered && ordered[j] in ordered;
      if i != j { IdsOfTwo(ordered, if i < j then i else j, if i < j then j else i, given, f, lo, hi); }
    }
  }

  lemma NodeWithKey(ordered: seq<T.NodeInput>, given: map<T.Key, NodeId>, f: map<T.Key, NodeId>, lo: nat, hi: nat,
                    k: T.Key)
    returns (j: nat)
    requires Assigned(ordered, |ordered|, given, f, lo, hi) && GivenOnly(ordered, given) && k in f
    ensures j < |ordered| && ordered[j].key == k
  {
    j :| 0 <= j < |ordered| && ordered[j].key == k;
  }

  lemma IdsOfTwo(ordered: seq<T.NodeInput>, i: nat, j: nat, given: map<T.Key, NodeId>, f: map<T.Key, NodeId>, lo: nat,
                 hi: nat)
    requires i < j < |ordered| && GivenExactly(ordered, given) && Assigned(ordered, |ordered|, given, f, lo, hi)
    requires DistinctIds(ordered) && forall x :: x in PayloadIds(ordered) ==> x < lo
    ensures ordered[i].key in f && ordered[j].key in f && f[ordered[i].key] != f[ordered[j].key]
  {
    hide GivenExactly;
    IdOfNode(ordered, i, given, f, lo, hi);
    IdOfNode(ordered, j, given, f, lo, hi);
    assert ordered[i] in ordered && ordered[j] in ordered;
    assert ordered[i].id.Some? ==> ordered[i].id.value in PayloadIds(ordered);
    assert ordered[j].id.Some? ==> ordered[j].id.value in PayloadIds(ordered);
  }

  lemma InjectiveDistinct(ordered: seq<T.NodeInput>, given: map<T.Key, NodeId>, f: map<T.Key, NodeId>, lo: nat, hi: nat)
    requires T.UniqueKeys(ordered) && GivenExactly(ordered, given)
    requires Assigned(ordered, |ordered|, given, f, lo, hi) && Injective(f)
    ensures DistinctIds(ordered)
  {
    hide Assigned, GivenExactly;
    forall i, j | 0 <= i < j < |ordered| && ordered[i].id.Some? ensures ordered[i].id != ordered[j].id {
      IdOfNode(ordered, i, given, f, lo, hi);
      IdOfNode(ordered, j, given, f, lo, hi);
    }
  }

  // ----- After the deletion -----

  /** A saved node's id is never one of the removed ones. */
  lemma SavedIdsStay(before: Nodes, templateId: nat, ordered: seq<T.NodeInput>, given: map<T.Key, NodeId>,
                     f: map<T.Key, NodeId>, lo: nat, hi: nat, x: NodeId) returns (j: nat)
    requires GivenExactly(ordered, given) && GivenOnly(ordered, given) && Assigned(ordered, |ordered|, given, f, lo, hi)
    requires (forall y :: y in before ==> y < lo) && PayloadIds(ordered) <= IdsOf(before, templateId)
    requires x in f.Values
    ensures j < |ordered| && ordered[j].key in f && f[ordered[j].key] == x
    ensures x in PayloadIds(ordered) || (x !in before && lo <= x)
  {
    var k :| k in f && f[k] == x;
    j :| 0 <= j < |ordered| && ordered[j].key == k;
    IdOfNode(ordered, j, given, f, lo, hi);
    assert ordered[j] in ordered;
  }

  lemma SuppliedIsSaved(ordered: seq<T.NodeInput>, given: map<T.Key, NodeId>, f: map<T.Key, NodeId>, lo: nat, hi: nat,
                        x: NodeId)
    requires GivenExactly(ordered, given) && Assigned(ordered, |ordered|, given, f, lo, hi) && x in PayloadIds(ordered)
    ensures x in f.Values
  {
    var n :| n in ordered && n.id == Some(x);
    var j :| 0 <= j < |ordered| && ordered[j] == n;
    IdOfNode(ordered, j, given, f, lo, hi);
    assert f[n.key] in f.Values;
  }

  /** Deletion takes just the removed rows with it: every other row hangs off a row that stays. */
  lemma RemovedAreAllDoomed(before: Nodes, upserted: Nodes, templateId: nat, ordered: seq<T.NodeInput>,
                            given: map<T.Key, NodeId>, f: map<T.Key, NodeId>, lo: nat, hi: nat, removed: set<NodeId>)
    requires GivenExactly(ordered, given) && GivenOnly(ordered, given) && Assigned(ordered, |ordered|, given, f, lo, hi)
    requires (forall y :: y in before ==> y < lo) && PayloadIds(ordered) <= IdsOf(before, templateId)
    requires ParentsStayInTemplate(before) && Upserted(before, upserted, templateId, ordered, |ordered|, f)
    requires removed == IdsOf(before, templateId) - PayloadIds(ordered)
    ensures forall x :: Doomed(upserted, removed, x) <==> x in removed
  {
    hide GivenExactly, GivenOnly, Assigned, PayloadIds, IdsOf, Upserted, ParentsStayInTemplate, Doomed;
    forall a, b | (a, b) in ParentLinksOf(upserted) && b in removed ensures a in removed {
      if a in f.Values {
        var p := ParentOfSaved(before, upserted, templateId, ordered, given, f, lo, hi, a);
        var j := SavedIdsStay(before, templateId, ordered, given, f, lo, hi, b);
        InIdsOf(before, templateId, b);
      } else {
        UnsavedIsAsBefore(before, upserted, templateId, ordered, f, a);
        ParentInTemplate(before, a);
        InIdsOf(before, templateId, a);
        InIdsOf(before, templateId, b);
        if a in PayloadIds(ordered) { SuppliedIsSaved(ordered, given, f, lo, hi, a); }
      }
    }
    forall x ensures Doomed(upserted, removed, x) <==> x in removed {
      if Doomed(upserted, removed, x) { DoomedIsIn(upserted, removed, removed, x); }
      if x in removed { RootIsDoomed(upserted, removed, x); }
    }
  }

  lemma RootIsDoomed(nodes: Nodes, ids: set<NodeId>, x: NodeId)
    requires x in ids
    ensures Doomed(nodes, ids, x)
  {
    SelfReaches(ParentLinksOf(nodes), x);
  }

  ghost predicate ParentsStayInTemplate(nodes: Nodes) {
    forall x :: x in nodes && nodes[x].parent.Some? ==>
      nodes[x].parent.value in nodes && nodes[nodes[x].parent.value].templateId == nodes[x].templateId
  }

  lemma ParentInTemplate(nodes: Nodes, x: NodeId)
    requires ParentsStayInTemplate(nodes) && x in nodes && nodes[x].parent.Some?
    ensures nodes[x].parent.value in nodes && nodes[nodes[x].parent.value].templateId == nodes[x].templateId
  {}

  lemma InIdsOf(nodes: Nodes, templateId: nat, x: NodeId)
    ensures x in IdsOf(nodes, templateId) <==> x in nodes && nodes[x].templateId == templateId
  {}

  lemma UnsavedIsAsBefore(before: Nodes, upserted: Nodes, templateId: nat, ordered: seq<T.NodeInput>,
                          f: map<T.Key, NodeId>, x: NodeId)
    requires Upserted(before, upserted, templateId, ordered, |ordered|, f) && x in upserted && x !in f.Values
    ensures x in before && upserted[x] == before[x]
  {
    assert forall j :: 0 <= j < |ordered| ==> ordered[j].key in f && f[ordered[j].key] in f.Values;
  }

  /** A saved row is the template's, and its parent, if any, is another saved row. */
  lemma ParentOfSaved(before: Nodes, upserted: Nodes, templateId: nat, ordered: seq<T.NodeInput>,
                      given: map<T.Key, NodeId>, f: map<T.Key, NodeId>, lo: nat, hi: nat, x: NodeId)
    returns (p: Option<NodeId>)
    requires GivenExactly(ordered, given) && GivenOnly(ordered, given) && Assigned(ordered, |ordered|, given, f, lo, hi)
    requires (forall y :: y in before ==> y < lo) && PayloadIds(ordered) <= IdsOf(before, templateId)
    requires Upserted(before, upserted, templateId, ordered, |ordered|, f) && x in f.Values
    ensures x in upserted && upserted[x].templateId == templateId && p == upserted[x].parent
    ensures p.Some? ==> p.value in f.Values
  {
    hide GivenExactly, GivenOnly, Assigned, PayloadIds, IdsOf;
    var j := SavedIdsStay(before, templateId, ordered, given, f, lo, hi, x);
    var k := LastUnderSameId(ordered, f, j);
    p := upserted[x].parent;
    assert upserted[f[ordered[k].key]] == RowFor(templateId, ordered[k], f);
  }

  lemma LastUnderSameId(ordered: seq<T.NodeInput>, f: map<T.Key, NodeId>, j: nat) returns (k: nat)
    requires j < |ordered| && forall i :: 0 <= i < |ordered| ==> ordered[i].key in f
    ensures LastUnderItsId(ordered, |ordered|, f, k) && f[ordered[k].key] == f[ordered[j].key]
    decreases |ordered| - j
  {
    if i: nat :| j < i < |ordered| && f[ordered[i].key] == f[ordered[j].key] {
      k := LastUnderSameId(ordered, f, i);
    } else {
      k := j;
    }
  }

  /** The rows are the saved ones, of this template and hanging together, and every other template's as before. */
  ghost predicate Settled(before: Nodes, nodes: Nodes, templateId: nat, saved: set<NodeId>) {
    && (forall x :: x in nodes ==>
        x in saved || (x in before && nodes[x] == before[x] && before[x].templateId != templateId))
    && (forall x :: x in saved ==> x in nodes && nodes[x].templateId == templateId)
    && (forall x :: x in saved && nodes[x].parent.Some? ==> nodes[x].parent.value in saved)
    && (forall x :: x in before && before[x].templateId != templateId ==> x in nodes && nodes[x] == before[x])
  }

  lemma NodesSettled(before: Nodes, upserted: Nodes, nodes: Nodes, templateId: nat, ordered: seq<T.NodeInput>,
                     given: map<T.Key, NodeId>, f: map<T.Key, NodeId>, lo: nat, hi: nat, removed: set<NodeId>)
    requires GivenExactly(ordered, given) && GivenOnly(ordered, given) && Assigned(ordered, |ordered|, given, f, lo, hi)
    requires (forall y :: y in before ==> y < lo) && PayloadIds(ordered) <= IdsOf(before, templateId)
    requires Upserted(before, upserted, templateId, ordered, |ordered|, f)
    requires removed == IdsOf(before, templateId) - PayloadIds(ordered)
    requires forall x :: x in nodes <==> x in upserted && x !in removed
    requires forall x :: x in nodes ==> nodes[x] == upserted[x]
    ensures Settled(before, nodes, templateId, f.Values)
    ensures StoredInOrder(nodes, templateId, ordered, f)
  {
    hide GivenExactly, GivenOnly, Assigned, PayloadIds, IdsOf, Upserted, RowFor, LastUnderItsId, StoredInOrder;
    forall x | x in f.Values
      ensures x in nodes && nodes[x].templateId == templateId
              && (nodes[x].parent.Some? ==> nodes[x].parent.value in f.Values)
    {
      var p := ParentOfSaved(before, upserted, templateId, ordered, given, f, lo, hi, x);
      var j := SavedIdsStay(before, templateId, ordered, given, f, lo, hi, x);
      InIdsOf(before, templateId, x);
    }
    forall x | x in nodes && x !in f.Values
      ensures x in before && nodes[x] == before[x] && before[x].templateId != templateId
    {
      UnsavedIsAsBefore(before, upserted, templateId, ordered, f, x);
      InIdsOf(before, templateId, x);
      if x in PayloadIds(ordered) { SuppliedIsSaved(ordered, given, f, lo, hi, x); }
    }
    forall x | x in before && before[x].templateId != templateId ensures x in nodes && nodes[x] == before[x] {
      InIdsOf(before, templateId, x);
      if x in f.Values { var j := SavedIdsStay(before, templateId, ordered, given, f, lo, hi, x); }
      StillThere(before, upserted, templateId, ordered, f, x);
      UnsavedIsAsBefore(before, upserted, templateId, ordered, f, x);
    }
    InOrder(before, upserted, nodes, templateId, ordered, given, f, lo, hi);
  }

  lemma InOrder(before: Nodes, upserted: Nodes, nodes: Nodes, templateId: nat, ordered: seq<T.NodeInput>,
                given: map<T.Key, NodeId>, f: map<T.Key, NodeId>, lo: nat, hi: nat)
    requires Upserted(before, upserted, templateId, ordered, |ordered|, f)
             && Settled(before, nodes, templateId, f.Values)
    requires Assigned(ordered, |ordered|, given, f, lo, hi) && GivenOnly(ordered, given)
    requires forall x :: x in nodes ==> x in upserted && nodes[x] == upserted[x]
    ensures StoredInOrder(nodes, templateId, ordered, f)
  {
    hide RowFor, Upserted, Settled, Assigned, GivenOnly, LastUnderItsId;
    forall j | 0 <= j < |ordered|
      ensures ordered[j].key in f && f[ordered[j].key] in nodes
    {
      RowSaved(before, upserted, templateId, ordered, f, j);
      assert f[ordered[j].key] in f.Values;
      SavedIsThere(before, nodes, templateId, f.Values, f[ordered[j].key]);
    }
    forall j | 0 <= j < |ordered| && LastUnderItsId(ordered, |ordered|, f, j)
      ensures nodes[f[ordered[j].key]] == RowFor(templateId, ordered[j], f)
    {
      RowSaved(before, upserted, templateId, ordered, f, j);
    }
    forall x | x in nodes && nodes[x].templateId == templateId
      ensures exists j :: 0 <= j < |ordered| && f[ordered[j].key] == x {
      SettledSaved(before, nodes, templateId, f.Values, x);
      var k :| k in f && f[k] == x;
      var j := NodeWithKey(ordered, given, f, lo, hi, k);
    }
  }

  lemma SavedIsThere(before: Nodes, nodes: Nodes, templateId: nat, saved: set<NodeId>, x: NodeId)
    requires Settled(before, nodes, templateId, saved) && x in saved
    ensures x in nodes && nodes[x].templateId == templateId
  {}

  lemma StillThere(before: Nodes, upserted: Nodes, templateId: nat, ordered: seq<T.NodeInput>, f: map<T.Key, NodeId>,
                   x: NodeId)
    requires Upserted(before, upserted, templateId, ordered, |ordered|, f) && x in before
    ensures x in upserted
  {}

  lemma RowSaved(before: Nodes, upserted: Nodes, templateId: nat, ordered: seq<T.NodeInput>, f: map<T.Key, NodeId>,
                 j: nat)
    requires Upserted(before, upserted, templateId, ordered, |ordered|, f) && j < |ordered|
    ensures (forall k :: 0 <= k < |ordered| ==> ordered[k].key in f) && f[ordered[j].key] in upserted
    ensures LastUnderItsId(ordered, |ordered|, f, j) ==>
            upserted[f[ordered[j].key]] == RowFor(templateId, ordered[j], f)
  {}

  lemma RemovedOrSaved(before: Nodes, templateId: nat, ordered: seq<T.NodeInput>, given: map<T.Key, NodeId>,
                       f: map<T.Key, NodeId>, lo: nat, hi: nat, removed: set<NodeId>)
    requires GivenExactly(ordered, given) && Assigned(ordered, |ordered|, given, f, lo, hi)
    requires removed == IdsOf(before, templateId) - PayloadIds(ordered)
    ensures forall x :: x in removed ==> x in before && before[x].templateId == templateId
    ensures forall x :: x in before && before[x].templateId == templateId ==> x in removed || x in f.Values
  {
    hide GivenExactly, Assigned, PayloadIds;
    forall x | x in before && before[x].templateId == templateId ensures x in removed || x in f.Values {
      if x in PayloadIds(ordered) { SuppliedIsSaved(ordered, given, f, lo, hi, x); }
    }
  }

  /** With distinct ids every node is the last under its id. */
  lemma StoredForPayload(nodes: Nodes, templateId: nat, payload: seq<T.NodeInput>, ordered: seq<T.NodeInput>,
                         f: map<T.Key, NodeId>)
    requires SameNodes(ordered, payload) && T.UniqueKeys(ordered) && Injective(f)
             && StoredInOrder(nodes, templateId, ordered, f)
    ensures Stored(nodes, templateId, payload, f)
  {
    hide RowFor;
    forall n | n in payload ensures n.key in f && f[n.key] in nodes && nodes[f[n.key]] == RowFor(templateId, n, f) {
      assert n in ordered;
      var j :| 0 <= j < |ordered| && ordered[j] == n;
      assert LastUnderItsId(ordered, |ordered|, f, j);
    }
    forall x | x in nodes && nodes[x].templateId == templateId ensures exists n :: n in payload && f[n.key] == x {
      var j :| 0 <= j < |ordered| && f[ordered[j].key] == x;
      assert ordered[j] in payload;
    }
  }

  lemma SettledSaved(before: Nodes, nodes: Nodes, templateId: nat, saved: set<NodeId>, x: NodeId)
    requires Settled(before, nodes, templateId, saved) && x in nodes && nodes[x].templateId == templateId
    ensures x in saved
  {}

  lemma EdgesSettled(before: Nodes, nodes: Nodes, depsBefore: Edges, left: Edges, deps: Edges, templateId: nat,
                     f: map<T.Key, NodeId>, lo: nat, hi: nat, removed: set<NodeId>, wanted: set<(T.Key, T.Key)>)
    requires Sound(before, depsBefore, lo) && Settled(before, nodes, templateId, f.Values)
    requires forall a, b :: (a, b) in left <==> (a, b) in depsBefore && a !in removed && b !in removed
    requires forall x :: x in removed ==> x in before && before[x].templateId == templateId
    requires forall x :: x in before && before[x].templateId == templateId ==> x in removed || x in f.Values
    requires forall a, b :: (a, b) in deps <==>
               ((a, b) in left && !(a in nodes && nodes[a].templateId == templateId))
                 || (a, b) in Unlooped(Renamed(wanted, f))
    requires forall x :: x in nodes ==> x < hi
    ensures OthersKept(before, nodes, templateId) && Sound(nodes, deps, hi)
    ensures EdgesReplaced(nodes, depsBefore, deps, templateId, Unlooped(Renamed(wanted, f)))
  {
    hide *;
    var edges := Unlooped(Renamed(wanted, f));
    SavedEdges(f, wanted);
    NodesSound(before, nodes, depsBefore, templateId, f.Values, lo);
    OtherEdges(before, nodes, depsBefore, left, templateId, f.Values, lo, removed);
    EdgesSound(before, nodes, depsBefore, deps, templateId, f.Values, edges, lo, hi);
    EdgesSplit(before, nodes, depsBefore, deps, templateId, f.Values, edges);
  }

  lemma SavedEdges(f: map<T.Key, NodeId>, wanted: set<(T.Key, T.Key)>)
    ensures forall a, b :: (a, b) in Unlooped(Renamed(wanted, f)) ==> a in f.Values && b in f.Values
  {
    forall a, b | (a, b) in Renamed(wanted, f) ensures a in f.Values && b in f.Values {
      var k, l :| (k, l) in wanted && k in f && l in f && f[k] == a && f[l] == b;
    }
  }

  /** While keys keep apart no dependency shrinks to one row. */
  lemma NoEdgeLost(f: map<T.Key, NodeId>, wanted: set<(T.Key, T.Key)>)
    requires Injective(f) && forall a, b :: (a, b) in wanted ==> a != b
    ensures Unlooped(Renamed(wanted, f)) == Renamed(wanted, f)
  {
    forall a, b | (a, b) in Renamed(wanted, f) ensures a != b {
      var k, l :| (k, l) in wanted && k in f && l in f && f[k] == a && f[l] == b;
    }
  }

  lemma NodesSound(before: Nodes, nodes: Nodes, depsBefore: Edges, templateId: nat, saved: set<NodeId>, lo: nat)
    requires Sound(before, depsBefore, lo) && Settled(before, nodes, templateId, saved)
    ensures ParentsStayInTemplate(nodes) && OthersKept(before, nodes, templateId)
  {
    forall x | x in nodes && nodes[x].parent.Some?
      ensures nodes[x].parent.value in nodes && nodes[nodes[x].parent.value].templateId == nodes[x].templateId
    {
      if x !in saved { assert before[x].parent.value in before; }
    }
  }

  /** What was stored between other templates' nodes survives the deletion, and nothing else is left there. */
  lemma OtherEdges(before: Nodes, nodes: Nodes, depsBefore: Edges, left: Edges, templateId: nat, saved: set<NodeId>,
                   lo: nat, removed: set<NodeId>)
    requires Sound(before, depsBefore, lo) && Settled(before, nodes, templateId, saved)
    requires forall a, b :: (a, b) in left <==> (a, b) in depsBefore && a !in removed && b !in removed
    requires forall x :: x in removed ==> x in before && before[x].templateId == templateId
    requires forall x :: x in before && before[x].templateId == templateId ==> x in removed || x in saved
    ensures forall a, b :: (a, b) in left && !(a in nodes && nodes[a].templateId == templateId) <==>
              (a, b) in depsBefore && a in nodes && nodes[a].templateId != templateId
  {
    forall a, b ensures (a, b) in left && !(a in nodes && nodes[a].templateId == templateId) <==>
                  (a, b) in depsBefore && a in nodes && nodes[a].templateId != templateId
    {
      if (a, b) in depsBefore {
        assert a in before && b in before && before[a].templateId == before[b].templateId;
      }
    }
  }

  lemma EdgesSound(before: Nodes, nodes: Nodes, depsBefore: Edges, deps: Edges, templateId: nat, saved: set<NodeId>,
                   edges: Edges, lo: nat, hi: nat)
    requires Sound(before, depsBefore, lo)
    requires Settled(before, nodes, templateId, saved) && ParentsStayInTemplate(nodes)
    requires forall a, b :: (a, b) in edges ==> a in saved && b in saved
    requires forall a, b ::
               (a, b) in deps
               <==> ((a, b) in depsBefore && a in nodes && nodes[a].templateId != templateId) || (a, b) in edges
    requires forall x :: x in nodes ==> x < hi
    ensures Sound(nodes, deps, hi)
  {
    forall a, b | (a, b) in deps ensures a in nodes && b in nodes && nodes[a].templateId == nodes[b].templateId {
      if (a, b) !in edges { assert a in before && b in before && nodes[a] == before[a]; }
    }
  }

  lemma EdgesSplit(before: Nodes, nodes: Nodes, depsBefore: Edges, deps: Edges, templateId: nat, saved: set<NodeId>,
                   wanted: Edges)
    requires Settled(before, nodes, templateId, saved)
    requires forall a, b :: (a, b) in wanted ==> a in saved && b in saved
    requires forall a, b ::
               (a, b) in deps
               <==> ((a, b) in depsBefore && a in nodes && nodes[a].templateId != templateId) || (a, b) in wanted
    ensures EdgesReplaced(nodes, depsBefore, deps, templateId, wanted)
  {}

  lemma NothingAssigned(ordered: seq<T.NodeInput>, given: map<T.Key, NodeId>, lo: nat)
    ensures Assigned(ordered, 0, given, given, lo, lo)
  {}

  lemma NothingUpserted(nodes: Nodes, templateId: nat, ordered: seq<T.NodeInput>, given: map<T.Key, NodeId>)
    ensures Upserted(nodes, nodes, templateId, ordered, 0, given)
  {}

  lemma GivenIsBelow(before: Nodes, templateId: nat, ordered: seq<T.NodeInput>, i: nat, lo: nat)
    requires i < |ordered| && (forall x :: x in before ==> x < lo) && PayloadIds(ordered) <= IdsOf(before, templateId)
    ensures ordered[i].id.Some? ==> ordered[i].id.value in before && ordered[i].id.value < lo
  {
    if ordered[i].id.Some? {
      assert ordered[i] in ordered && ordered[i].id.value in PayloadIds(ordered);
    }
  }

  /** keyToId and the id sequence after one more node. */
  function NextMap(n: T.NodeInput, f: map<T.Key, NodeId>, hi: nat): map<T.Key, NodeId> {
    if n.id.Some? then f else f[n.key := hi]
  }

  lemma AssignedStep(ordered: seq<T.NodeInput>, i: nat, given: map<T.Key, NodeId>, f: map<T.Key, NodeId>, lo: nat,
                     hi: nat)
    requires T.UniqueKeys(ordered) && GivenExactly(ordered, given) && i < |ordered|
    requires Assigned(ordered, i, given, f, lo, hi)
    ensures Assigned(ordered, i + 1, given, NextMap(ordered[i], f, hi), lo, if ordered[i].id.Some? then hi else hi + 1)
    ensures ordered[i].id.Some? ==> ordered[i].key in f && f[ordered[i].key] == ordered[i].id.value
    ensures ordered[i].id.None? ==> ordered[i].key !in f
  {
    hide T.UniqueKeys, GivenExactly, Assigned;
    KeyOfNext(ordered, i, given, f, lo, hi);
    AssignedMore(ordered, i, given, f, lo, hi);
  }

  lemma KeyOfNext(ordered: seq<T.NodeInput>, i: nat, given: map<T.Key, NodeId>, f: map<T.Key, NodeId>, lo: nat, hi: nat)
    requires T.UniqueKeys(ordered) && GivenExactly(ordered, given) && i < |ordered|
    requires Assigned(ordered, i, given, f, lo, hi)
    ensures ordered[i].id.Some? ==> ordered[i].key in f && f[ordered[i].key] == ordered[i].id.value
    ensures ordered[i].id.None? ==> ordered[i].key !in f
  {}

  lemma AssignedMore(ordered: seq<T.NodeInput>, i: nat, given: map<T.Key, NodeId>, f: map<T.Key, NodeId>, lo: nat,
                     hi: nat)
    requires i < |ordered| && Assigned(ordered, i, given, f, lo, hi)
    requires if ordered[i].id.Some? then ordered[i].key in f else ordered[i].key !in f
    ensures Assigned(ordered, i + 1, given, NextMap(ordered[i], f, hi), lo, if ordered[i].id.Some? then hi else hi + 1)
  {
    hide KeysAre;
    var g := NextMap(ordered[i], f, hi);
    KeysGrow(ordered, i, given, f, hi);
    forall j | 0 <= j < i ensures ordered[j].key in g && g[ordered[j].key] == f[ordered[j].key] {
      assert ordered[j].key in f;
    }
    forall k | k in given ensures k in g && g[k] == given[k] { assert k in f; }
    forall j | 0 <= j < i + 1 && ordered[j].id.None?
      ensures lo <= g[ordered[j].key] < if ordered[i].id.Some? then hi else hi + 1 {
      if j < i { assert lo <= f[ordered[j].key] < hi; }
    }
    forall j, k | 0 <= j < k < i + 1 && ordered[j].id.None? && ordered[k].id.None?
      ensures g[ordered[j].key] != g[ordered[k].key] {
      if k < i { assert f[ordered[j].key] != f[ordered[k].key]; }
    }
  }

  lemma KeysGrow(ordered: seq<T.NodeInput>, i: nat, given: map<T.Key, NodeId>, f: map<T.Key, NodeId>, hi: nat)
    requires i < |ordered| && (ordered[i].id.Some? ==> ordered[i].key in f) && KeysAre(ordered, i, given, f)
    ensures KeysAre(ordered, i + 1, given, NextMap(ordered[i], f, hi))
  {
    var g := NextMap(ordered[i], f, hi);
    forall k ensures k in g <==> k in given || exists j :: 0 <= j < i + 1 && ordered[j].key == k {
      if k in g && k !in given && k != ordered[i].key {
        var j :| 0 <= j < i && ordered[j].key == k;
      }
      if j :| 0 <= j < i + 1 && ordered[j].key == k {
        if j < i { assert ordered[j].key in f; }
      }
    }
  }

  lemma ParentKnown(ordered: seq<T.NodeInput>, i: nat, given: map<T.Key, NodeId>, f: map<T.Key, NodeId>, lo: nat,
                    hi: nat)
    requires ParentsEarlier(ordered) && i < |ordered| && Assigned(ordered, i, given, f, lo, hi)
    ensures ordered[i].parentKey.Some? ==> ordered[i].parentKey.value in f
  {
    if ordered[i].parentKey.Some? {
      var j: nat :| j < i && ordered[j].key == ordered[i].parentKey.value;
    }
  }

  /** One more row written; under an id written before, it takes that row's place. */
  lemma UpsertGlue(before: Nodes, after: Nodes, templateId: nat, ordered: seq<T.NodeInput>, i: nat,
                   f: map<T.Key, NodeId>, g: map<T.Key, NodeId>, id: NodeId)
    requires i < |ordered| && Upserted(before, after, templateId, ordered, i, f)
    requires f.Keys <= g.Keys && (forall k :: k in f ==> g[k] == f[k]) && ordered[i].key in g && g[ordered[i].key] == id
    requires ordered[i].parentKey.Some? ==> ordered[i].parentKey.value in f
    ensures Upserted(before, after[id := RowFor(templateId, ordered[i], f)], templateId, ordered, i + 1, g)
  {
    hide RowFor, LastUnderItsId;
    var now := after[id := RowFor(templateId, ordered[i], f)];
    forall x | x in now
      ensures (x in before && now[x] == before[x]) || exists j :: 0 <= j < i + 1 && g[ordered[j].key] == x
    {
      if x == id {
        assert g[ordered[i].key] == x;
      } else if !(x in before && after[x] == before[x]) {
        var j :| 0 <= j < i && f[ordered[j].key] == x;
        assert g[ordered[j].key] == x;
      }
    }
    forall j: nat | j < i + 1 && LastUnderItsId(ordered, i + 1, g, j)
      ensures now[g[ordered[j].key]] == RowFor(templateId, ordered[j], g)
    {
      if j < i { LastBefore(ordered, i, f, g, j); }
      SameRowFor(templateId, ordered[j], f, g);
    }
  }

  lemma LastBefore(ordered: seq<T.NodeInput>, i: nat, f: map<T.Key, NodeId>, g: map<T.Key, NodeId>, j: nat)
    requires j < i < |ordered| && (forall k :: 0 <= k < i ==> ordered[k].key in f) && ordered[i].key in g
    requires f.Keys <= g.Keys && forall k :: k in f ==> g[k] == f[k]
    requires LastUnderItsId(ordered, i + 1, g, j)
    ensures LastUnderItsId(ordered, i, f, j) && f[ordered[j].key] != g[ordered[i].key]
  {
    assert g[ordered[i].key] != g[ordered[j].key];
    forall k | j < k < i ensures f[ordered[k].key] != f[ordered[j].key] {
      assert g[ordered[k].key] != g[ordered[j].key];
    }
  }

  /** A row names its parent by an id that no later node changes. */
  lemma SameRowFor(templateId: nat, n: T.NodeInput, f: map<T.Key, NodeId>, g: map<T.Key, NodeId>)
    requires f.Keys <= g.Keys && (forall k :: k in f ==> g[k] == f[k]) && (n.parentKey.Some? ==> n.parentKey.value in f)
    ensures RowFor(templateId, n, f) == RowFor(templateId, n, g)
  {}

  lemma UpsertedStep(before: Nodes, after: Nodes, templateId: nat, ordered: seq<T.NodeInput>, i: nat,
                     given: map<T.Key, NodeId>, f: map<T.Key, NodeId>, lo: nat, hi: nat)
    requires T.UniqueKeys(ordered) && ParentsEarlier(ordered) && GivenExactly(ordered, given)
    requires i < |ordered| && Assigned(ordered, i, given, f, lo, hi)
             && Upserted(before, after, templateId, ordered, i, f)
    ensures var n := ordered[i];
            var id := if n.id.Some? then n.id.value else hi;
            Upserted(before, after[id := RowFor(templateId, n, f)], templateId, ordered, i + 1, NextMap(n, f, hi))
  {
    hide T.UniqueKeys, ParentsEarlier, GivenExactly, Assigned, Upserted, RowFor;
    var id := if ordered[i].id.Some? then ordered[i].id.value else hi;
    AssignedStep(ordered, i, given, f, lo, hi);
    ParentKnown(ordered, i, given, f, lo, hi);
    UpsertGlue(before, after, templateId, ordered, i, f, NextMap(ordered[i], f, hi), id);
  }

  ghost predicate ParentsEarlier(ordered: seq<T.NodeInput>) {
    forall i: nat :: i < |ordered| && ordered[i].parentKey.Some? ==>
      exists j: nat :: j < i && ordered[j].key == ordered[i].parentKey.value
  }

  /** given maps just the keys of nodes that came with an id. */
  ghost predicate GivenExactly(ordered: seq<T.NodeInput>, given: map<T.Key, NodeId>) {
    && (forall i :: 0 <= i < |ordered| && ordered[i].id.Some? ==>
        ordered[i].key in given && given[ordered[i].key] == ordered[i].id.value)
    && forall i :: 0 <= i < |ordered| && ordered[i].id.None? ==> ordered[i].key !in given
  }

  /** f has the keys given at the start and those of the first i nodes. */
  ghost predicate KeysAre(ordered: seq<T.NodeInput>, i: nat, given: map<T.Key, NodeId>, f: map<T.Key, NodeId>)
    requires i <= |ordered|
  {
    forall k :: k in f <==> k in given || exists j :: 0 <= j < i && ordered[j].key == k
  }

  /** After i nodes: supplied ids untouched, and one new id in [lo, hi) for each created node. */
  ghost predicate Assigned(ordered: seq<T.NodeInput>, i: nat, given: map<T.Key, NodeId>, f: map<T.Key, NodeId>, lo: nat,
                           hi: nat)
    requires i <= |ordered|
  {
    && lo <= hi && KeysAre(ordered, i, given, f)
    && (forall k :: k in given ==> k in f && f[k] == given[k])
    && (forall j :: 0 <= j < i ==> ordered[j].key in f)
    && (forall j :: 0 <= j < i && ordered[j].id.None? ==> lo <= f[ordered[j].key] < hi)
    && (forall j, k :: 0 <= j < k < i && ordered[j].id.None? && ordered[k].id.None? ==>
        f[ordered[j].key] != f[ordered[k].key])
  }

  /** After i nodes: those rows are as the last node under their id says, and every other row is as it was. */
  ghost predicate Upserted(before: Nodes, after: Nodes, templateId: nat, ordered: seq<T.NodeInput>, i: nat,
                           f: map<T.Key, NodeId>)
    requires i <= |ordered|
  {
    && before.Keys <= after.Keys
    && (forall j :: 0 <= j < i ==> ordered[j].key in f && f[ordered[j].key] in after
                                   && (ordered[j].parentKey.Some? ==> ordered[j].parentKey.value in f))
    && (forall j: nat :: j < i && LastUnderItsId(ordered, i, f, j) ==>
        after[f[ordered[j].key]] == RowFor(templateId, ordered[j], f))
    && forall x :: x in after ==>
       (x in before && after[x] == before[x]) || exists j :: 0 <= j < i && f[ordered[j].key] == x
  }

  /** Everything that leads to one of these rows, level by level. */
  method Cascade(nodes: Nodes, ids: set<NodeId>) returns (gone: set<NodeId>)
    requires ids <= nodes.Keys
    ensures forall x :: x in gone <==> Doomed(nodes, ids, x)
    ensures gone <= nodes.Keys
  {
    hide Walk, Reaches;
    gone := {};
    var level := ids;
    forall x | x in ids ensures Doomed(nodes, ids, x) { SelfReaches(ParentLinksOf(nodes), x); }
    while level != {}
      invariant gone !! level && gone + level <= nodes.Keys && ids <= gone + level
      invariant forall x :: x in gone || x in level ==> Doomed(nodes, ids, x)
      invariant forall x, p :: (x, p) in ParentLinksOf(nodes) && p in gone ==> x in gone || x in level
      decreases nodes.Keys - gone
    {
      gone := gone + level;
      var next := set x | x in nodes && x !in gone && nodes[x].parent.Some? && nodes[x].parent.value in level;
      forall x | x in next ensures Doomed(nodes, ids, x) {
        var p := nodes[x].parent.value;
        assert p in gone;
        var d :| d in ids && Reaches(ParentLinksOf(nodes), p, d);
        EdgeReaches(ParentLinksOf(nodes), x, p);
        ReachesTrans(ParentLinksOf(nodes), x, p, d);
      }
      level := next;
    }
    forall x | Doomed(nodes, ids, x) ensures x in gone { DoomedIsIn(nodes, ids, gone, x); }
  }

  lemma DoomedIsIn(nodes: Nodes, ids: set<NodeId>, s: set<NodeId>, x: NodeId)
    requires ids <= s && forall a, b :: (a, b) in ParentLinksOf(nodes) && b in s ==> a in s
    requires Doomed(nodes, ids, x)
    ensures x in s
  {
    var r :| r in ids && Reaches(ParentLinksOf(nodes), x, r);
    var n: nat :| Walk(ParentLinksOf(nodes), x, r, n);
    BackClosedWalk(ParentLinksOf(nodes), s, x, r, n);
  }
}
