/**
 The relationship writers as a protocol. A locked writer takes the shared lock, reads one node at a
 time and commits; the other writers take no lock and may run between any two of its reads. Each
 action below is one database statement or one commit. Unlocked writers only drop edges or add edges
 that leave rows of their own, so the parent links never loop; the dependencies do exactly when a
 template is generated whose own dependencies do.
 */
module RelationshipProtocol {
  import opened Wrappers
  import opened Entities
  import opened Graphs
  import opened Relationships

  datatype Tx =
    | ParentQueued(task: TaskId, parent: TaskId)
    | ParentLocked(task: TaskId, parent: TaskId)
    | ParentWalking(task: TaskId, parent: TaskId, cursor: Option<TaskId>, seen: set<TaskId>)
    | ParentPassed(task: TaskId, parent: TaskId, seen: set<TaskId>)
    | BlockQueued(blocker: TaskId, blocked: TaskId)
    | BlockLocked(blocker: TaskId, blocked: TaskId)
    | BlockWalking(blocker: TaskId, blocked: TaskId, stack: seq<TaskId>, seen: set<TaskId>)
    | BlockPassed(blocker: TaskId, blocked: TaskId, seen: set<TaskId>)
    | CopyRead(order: seq<TaskId>, rows: map<TaskId, Option<TaskId>>)
    | CopyReady(order: seq<TaskId>, rows: map<TaskId, Option<TaskId>>, edges: set<Edge>)

  /** ever holds every id handed out so far: the sequence behind the id column never repeats one. */
  datatype State = State(store: Store, ever: set<TaskId>, lock: Option<Pid>, txs: map<Pid, Tx>)

  datatype Action =
    | StartSetParent(pid: Pid, task: TaskId, parent: TaskId)
    | StartAddDependency(pid: Pid, blocker: TaskId, blocked: TaskId)
    | TakeLock(pid: Pid)
    // the locked transaction's next read; outgoing lists the rows of a dependency read in some order
    | Read(pid: Pid, outgoing: seq<TaskId>)
    | Commit(pid: Pid)
    // an error or a lost connection: the database rolls the transaction back and frees its lock
    | Abort(pid: Pid)
    | CreateTask(id: TaskId)
    | CreateSubtask(id: TaskId, parent: TaskId)
    | ClearParent(task: TaskId)
    | RemoveDependency(blocker: TaskId, blocked: TaskId)
    | DeleteTask(task: TaskId)
    // duplicateTask: order is whatever its level-by-level reads collected, its root first
    | StartCopy(pid: Pid, order: seq<TaskId>)
    | ReadCopyEdges(pid: Pid)
    | CommitCopy(pid: Pid, ids: seq<TaskId>)
    // generateOccurrence: node i becomes ids[i], below an earlier node; edges are the template's, whatever they are
    | InsertTree(ids: seq<TaskId>, parents: seq<Option<nat>>, edges: set<(nat, nat)>)

  predicate HoldsLock(tx: Tx) {
    tx.ParentLocked? || tx.ParentWalking? || tx.ParentPassed? || tx.BlockLocked? || tx.BlockWalking? || tx.BlockPassed?
  }

  function Finish(s: State, pid: Pid, store: Store): State {
    s.(store := store, lock := None, txs := s.txs - {pid})
  }

  /** One read of a transaction that holds the lock. */
  function ReadNext(s: State, pid: Pid, tx: Tx, outgoing: seq<TaskId>): Option<State> {
    match tx
    case ParentLocked(t, p) =>
      if ParentOf(s.store, t) == Some(p) then Some(Finish(s, pid, s.store))
      else Some(s.(txs := s.txs[pid := ParentWalking(t, p, Some(p), {})]))
    case ParentWalking(t, p, cursor, seen) =>
      if cursor.None? then Some(s.(txs := s.txs[pid := ParentPassed(t, p, seen)]))
      else if cursor.value == t then Some(Finish(s, pid, s.store))
      else if cursor.value in seen then Some(s.(txs := s.txs[pid := ParentPassed(t, p, seen)]))
      else Some(s.(txs := s.txs[pid := ParentWalking(t, p, ParentOf(s.store, cursor.value), seen + {cursor.value})]))
    case BlockLocked(a, b) =>
      if (a, b) in s.store.deps then Some(Finish(s, pid, s.store))
      else Some(s.(txs := s.txs[pid := BlockWalking(a, b, [b], {})]))
    case BlockWalking(a, b, stack, seen) =>
      if |stack| == 0 then Some(s.(txs := s.txs[pid := BlockPassed(a, b, seen)]))
      else
        var node, rest := stack[|stack| - 1], stack[..|stack| - 1];
        if node == a then Some(Finish(s, pid, s.store))
        else if node in seen then Some(s.(txs := s.txs[pid := BlockWalking(a, b, rest, seen)]))
        else if (set y | y in outgoing) != Blocks(s.store, node) then None
        else Some(s.(txs := s.txs[pid := BlockWalking(a, b, rest + outgoing, seen + {node})]))
    case _ => None
  }

  /** The commit of a transaction whose check passed; a vanished row makes the database refuse it. */
  function CommitNext(s: State, pid: Pid, tx: Tx): Option<State> {
    match tx
    case ParentPassed(t, p, _) =>
      Some(Finish(s, pid, if t in s.store.tasks && p in s.store.tasks
                          then s.store.(parent := s.store.parent[t := p]) else s.store))
    case BlockPassed(a, b, _) =>
      Some(Finish(s, pid, if a in s.store.tasks && b in s.store.tasks
                          then s.store.(deps := s.store.deps + {(a, b)}) else s.store))
    case _ => None
  }

  /** The clone rows of duplicateTask: their ids, the original-to-clone map, and each clone's parent. */
  datatype Clones = Clones(created: set<TaskId>, idMap: map<TaskId, TaskId>, parent: map<TaskId, TaskId>)

  function CloneRows(order: seq<TaskId>, rows: map<TaskId, Option<TaskId>>, ids: seq<TaskId>, k: nat): Clones
    requires |ids| == |order| && k <= |order|
  {
    if k == 0 then Clones({}, map[], map[])
    else
      var c, o := CloneRows(order, rows, ids, k - 1), order[k - 1];
      if o !in rows then c
      else
        var parent := if o == order[0] then rows[o]
                      else if rows[o].Some? && rows[o].value in c.idMap then Some(c.idMap[rows[o].value])
                      else None;
        AddClone(c, o, ids[k - 1], parent)
  }

  function AddClone(c: Clones, o: TaskId, id: TaskId, parent: Option<TaskId>): Clones {
    Clones(c.created + {id}, c.idMap[o := id], if parent.Some? then c.parent[id := parent.value] else c.parent)
  }

  /** Rows added in one commit, with ids never seen before. */
  function Insert(s: State, ids: set<TaskId>, parent: map<TaskId, TaskId>, edges: set<Edge>): State {
    s.(store := Store(s.store.tasks + ids, s.store.parent + parent, s.store.deps + edges), ever := s.ever + ids)
  }

  function TreeParents(ids: seq<TaskId>, parents: seq<Option<nat>>, k: nat): map<TaskId, TaskId>
    requires |parents| == |ids| && k <= |ids|
    requires forall i :: 0 <= i < |ids| && parents[i].Some? ==> parents[i].value < i
  {
    if k == 0 then map[]
    else
      var m := TreeParents(ids, parents, k - 1);
      if parents[k - 1].Some? then m[ids[k - 1] := ids[parents[k - 1].value]] else m
  }

  /** The template's edges that become dependencies: between two different nodes of it. */
  function Carried(edges: set<(nat, nat)>, n: nat): (r: set<(nat, nat)>)
    ensures forall a, b :: (a, b) in r <==> (a, b) in edges && a < n && b < n && a != b
  {
    set e | e in edges && e.0 < n && e.1 < n && e.0 != e.1
  }

  function Members(order: seq<TaskId>): set<TaskId> { set o | o in order }

  ghost predicate Fresh(s: State, ids: seq<TaskId>) {
    Distinct(ids) && forall i :: 0 <= i < |ids| ==> ids[i] !in s.ever
  }

  /** The state after an action, or None when the action cannot happen there. */
  ghost function Step(s: State, a: Action): Option<State> {
    match a
    case StartSetParent(pid, t, p) =>
      if pid in s.txs || t == p || t !in s.store.tasks || p !in s.store.tasks then None
      else Some(s.(txs := s.txs[pid := ParentQueued(t, p)]))
    case StartAddDependency(pid, x, y) =>
      if pid in s.txs || x == y || x !in s.store.tasks || y !in s.store.tasks then None
      else Some(s.(txs := s.txs[pid := BlockQueued(x, y)]))
    case TakeLock(pid) =>
      if pid !in s.txs || s.lock.Some? then None
      else (match s.txs[pid]
            case ParentQueued(t, p) => Some(s.(lock := Some(pid), txs := s.txs[pid := ParentLocked(t, p)]))
            case BlockQueued(x, y) => Some(s.(lock := Some(pid), txs := s.txs[pid := BlockLocked(x, y)]))
            case _ => None)
    case Read(pid, outgoing) =>
      if pid !in s.txs then None else ReadNext(s, pid, s.txs[pid], outgoing)
    case Commit(pid) =>
      if pid !in s.txs then None else CommitNext(s, pid, s.txs[pid])
    case Abort(pid) =>
      if pid !in s.txs then None
      else Some(s.(lock := if HoldsLock(s.txs[pid]) then None else s.lock, txs := s.txs - {pid}))
    case CreateTask(id) =>
      if id in s.ever then None else Some(Insert(s, {id}, map[], {}))
    case CreateSubtask(id, p) =>
      if id in s.ever || p !in s.store.tasks then None else Some(Insert(s, {id}, map[id := p], {}))
    case ClearParent(t) =>
      Some(s.(store := s.store.(parent := s.store.parent - {t})))
    case RemoveDependency(x, y) =>
      Some(s.(store := s.store.(deps := s.store.deps - {(x, y)})))
    case DeleteTask(t) =>
      Some(s.(store := Store(s.store.tasks - {t},
                             map c | c in s.store.parent && c != t && s.store.parent[c] != t :: s.store.parent[c],
                             set e | e in s.store.deps && e.0 != t && e.1 != t)))
    case StartCopy(pid, order) =>
      if pid in s.txs || |order| == 0 || order[0] !in s.store.tasks then None
      else Some(s.(txs := s.txs[pid :=
                                CopyRead(order, map o | o in order && o in s.store.tasks :: ParentOf(s.store, o))]))
    case ReadCopyEdges(pid) =>
      if pid !in s.txs || !s.txs[pid].CopyRead? then None
      else
        var tx := s.txs[pid];
        var edges := if |Members(tx.order)| > 1
                     then set e | e in s.store.deps && e.0 in tx.order && e.1 in tx.order else {};
        Some(s.(txs := s.txs[pid := CopyReady(tx.order, tx.rows, edges)]))
    case CommitCopy(pid, ids) =>
      if pid !in s.txs || !s.txs[pid].CopyReady? || |ids| != |s.txs[pid].order| || |ids| == 0 || !Fresh(s, ids) then
        None
      else
        var tx := s.txs[pid];
        var c := CloneRows(tx.order, tx.rows, ids, |ids|);
        var done := s.(txs := s.txs - {pid});
        // the root copy goes beside the original: refused when that parent is gone by now
        if tx.order[0] in tx.rows && tx.rows[tx.order[0]].Some? && tx.rows[tx.order[0]].value !in s.store.tasks
        then Some(done)
        else Some(Insert(done, c.created, c.parent, Renamed(tx.edges, c.idMap)))
    case InsertTree(ids, parents, edges) =>
      if !Fresh(s, ids) || |parents| != |ids|
          || (exists i :: 0 <= i < |ids| && parents[i].Some? && parents[i].value >= i)
      then None
      else Some(Insert(s, (set id | id in ids), TreeParents(ids, parents, |ids|),
                       Renamed(Carried(edges, |ids|), map i: nat | i < |ids| :: ids[i])))
  }

  // ----- The invariant -----

  /** What a locked transaction has learnt so far, and no unlocked writer can undo. */
  ghost predicate TxOk(store: Store, ever: set<TaskId>, tx: Tx) {
    match tx
    case ParentQueued(t, p) => {t, p} <= ever && t != p
    case ParentLocked(t, p) => {t, p} <= ever && t != p
    case ParentWalking(t, p, cursor, seen) =>
      && {t, p} <= ever && seen <= ever && (cursor.Some? ==> cursor.value in ever)
      && t !in seen && (p in seen || cursor == Some(p))
      && forall x, y :: (x, y) in Links(store.parent) && x in seen ==> y in seen || cursor == Some(y)
    case ParentPassed(t, p, seen) =>
      {t, p} <= ever && seen <= ever && t !in seen && p in seen && Closed(Links(store.parent), seen)
    case BlockQueued(a, b) => {a, b} <= ever && a != b
    case BlockLocked(a, b) => {a, b} <= ever && a != b
    case BlockWalking(a, b, stack, seen) =>
      && {a, b} <= ever && seen <= ever && (forall x :: x in stack ==> x in ever)
      && a !in seen && (b in seen || b in stack)
      && forall x, y :: (x, y) in store.deps && x in seen ==> y in seen || y in stack
    case BlockPassed(a, b, seen) =>
      {a, b} <= ever && seen <= ever && a !in seen && b in seen && Closed(store.deps, seen)
    case CopyRead(order, rows) =>
      |order| > 0 && forall o :: o in rows && rows[o].Some? ==> rows[o].value in ever
    case CopyReady(order, rows, edges) =>
      |order| > 0 && forall o :: o in rows && rows[o].Some? ==> rows[o].value in ever
  }

  /** What every step keeps. */
  ghost predicate Inv(s: State) {
    && Intact(s.store) && Acyclic(Links(s.store.parent)) && s.store.tasks <= s.ever
    && (forall pid :: pid in s.txs ==> TxOk(s.store, s.ever, s.txs[pid]))
    && (forall pid :: pid in s.txs && HoldsLock(s.txs[pid]) ==> s.lock == Some(pid))
  }

  /** What every step keeps but one: no dependency loop, stored or about to be copied. */
  ghost predicate NoDependencyLoop(s: State) {
    Acyclic(s.store.deps) && forall pid :: pid in s.txs && s.txs[pid].CopyReady? ==> Acyclic(s.txs[pid].edges)
  }

  // ----- Unlocked writers -----

  /** Dropping edges and rows keeps every transaction's knowledge true. */
  lemma DropKeepsInv(s: State, store: Store)
    requires Inv(s) && Intact(store) && store.tasks <= s.store.tasks
    requires Links(store.parent) <= Links(s.store.parent) && store.deps <= s.store.deps
    ensures Inv(s.(store := store)) && (NoDependencyLoop(s) ==> NoDependencyLoop(s.(store := store)))
  {
    FewerEdgesAcyclic(Links(store.parent), Links(s.store.parent));
    if Acyclic(s.store.deps) { FewerEdgesAcyclic(store.deps, s.store.deps); }
    assert forall x, y :: (x, y) in Links(store.parent) ==> (x, y) in Links(s.store.parent);
    forall pid | pid in s.txs ensures TxOk(store, s.ever, s.txs[pid]) {
      assert TxOk(s.store, s.ever, s.txs[pid]);
    }
  }

  /** Edges that leave brand-new rows touch nothing a walk has seen, and close no loop but among themselves. */
  lemma InsertKeepsInv(s: State, ids: set<TaskId>, parent: map<TaskId, TaskId>, edges: set<Edge>)
    requires Inv(s) && ids !! s.ever && parent.Keys <= ids && parent.Values <= s.store.tasks + ids
    requires forall a, b :: (a, b) in edges ==> a in ids && b in ids
    requires Acyclic(Links(parent))
    ensures Inv(Insert(s, ids, parent, edges))
    ensures NoDependencyLoop(s) ==> (NoDependencyLoop(Insert(s, ids, parent, edges)) <==> Acyclic(edges))
    ensures Acyclic(Insert(s, ids, parent, edges).store.deps) ==> Acyclic(edges)
  {
    var t := Insert(s, ids, parent, edges);
    assert forall c :: c in parent ==> parent[c] in parent.Values;
    assert Links(t.store.parent) == Links(s.store.parent) + Links(parent);
    FreshEdgesAcyclic(Links(s.store.parent), Links(parent), s.ever);
    if Acyclic(s.store.deps) && Acyclic(edges) { FreshEdgesAcyclic(s.store.deps, edges, s.ever); }
    if Acyclic(t.store.deps) { FewerEdgesAcyclic(edges, t.store.deps); }
    forall pid | pid in t.txs ensures TxOk(t.store, t.ever, t.txs[pid]) {
      assert TxOk(s.store, s.ever, s.txs[pid]);
    }
  }

  lemma SingleEdgeAcyclic(a: TaskId, b: TaskId)
    requires a != b
    ensures Acyclic(Links<TaskId>(map[a := b]))
  {
    NoEdgesAcyclic();
    PointNewRow(map[], {b}, a, b);
  }

  /** A new row may point at anything but itself while nothing points at it. */
  lemma PointNewRow(parent: map<TaskId, TaskId>, known: set<TaskId>, id: TaskId, p: TaskId)
    requires Acyclic(Links(parent)) && parent.Keys <= known && parent.Values <= known && id !in known && p in known
    ensures Acyclic(Links(parent[id := p]))
  {
    assert forall c :: c in parent ==> parent[c] in parent.Values;
    ClosedNotReached(Links(parent), known, p, id);
    AddEdgeAcyclic(Links(parent), id, p);
    assert Links(parent[id := p]) == Links(parent) + {(id, p)};
  }

  function Prefix(ids: seq<TaskId>, k: nat): (r: set<TaskId>)
    requires k <= |ids|
    ensures forall i :: 0 <= i < k ==> ids[i] in r
  {
    set id | id in ids[..k]
  }

  lemma PrefixGrows(ids: seq<TaskId>, k: nat)
    requires 0 < k <= |ids| && Distinct(ids)
    ensures Prefix(ids, k) == Prefix(ids, k - 1) + {ids[k - 1]} && ids[k - 1] !in Prefix(ids, k - 1)
    ensures Prefix(ids, k) <= set id | id in ids
  {
    assert ids[..k] == ids[..k - 1] + [ids[k - 1]];
  }

  /** Copies so far: one row each, pointing only at earlier copies or outside. */
  ghost predicate WellMade(c: Clones, outside: set<TaskId>) {
    && Acyclic(Links(c.parent))
    && c.parent.Keys <= c.created && c.idMap.Values <= c.created
    && c.parent.Values <= c.created + outside
    && Injective(c.idMap)
  }

  lemma AddCloneWellMade(c: Clones, outside: set<TaskId>, o: TaskId, id: TaskId, parent: Option<TaskId>)
    requires WellMade(c, outside) && id !in c.created && id !in outside
    requires parent.Some? ==> parent.value in c.created + outside
    ensures WellMade(AddClone(c, o, id, parent), outside)
  {
    assert forall x :: x in c.idMap ==> c.idMap[x] in c.idMap.Values;
    assert forall x :: x in c.parent ==> c.parent[x] in c.parent.Values;
    if parent.Some? { PointNewRow(c.parent, c.created + outside, id, parent.value); }
  }

  lemma {:induction false} ClonesWellMade(order: seq<TaskId>, rows: map<TaskId, Option<TaskId>>, ids: seq<TaskId>,
                                          k: nat, outside: set<TaskId>)
    requires |ids| == |order| > 0 && k <= |order| && Distinct(ids)
    requires order[0] in rows && rows[order[0]].Some? ==> rows[order[0]].value in outside
    requires forall id :: id in ids ==> id !in outside
    ensures WellMade(CloneRows(order, rows, ids, k), outside)
    ensures CloneRows(order, rows, ids, k).created <= Prefix(ids, k)
    decreases k
  {
    if k == 0 {
      NoEdgesAcyclic();
    } else {
      ClonesWellMade(order, rows, ids, k - 1, outside);
      var c, o := CloneRows(order, rows, ids, k - 1), order[k - 1];
      PrefixGrows(ids, k);
      if o in rows {
        var parent := if o == order[0] then rows[o]
                      else if rows[o].Some? && rows[o].value in c.idMap then Some(c.idMap[rows[o].value])
                      else None;
        assert forall x :: x in c.idMap ==> c.idMap[x] in c.idMap.Values;
        AddCloneWellMade(c, outside, o, ids[k - 1], parent);
      }
    }
  }

  lemma {:induction false} TreeWellMade(ids: seq<TaskId>, parents: seq<Option<nat>>, k: nat)
    requires |parents| == |ids| && k <= |ids| && Distinct(ids)
    requires forall i :: 0 <= i < |ids| && parents[i].Some? ==> parents[i].value < i
    ensures var m := TreeParents(ids, parents, k);
            Acyclic(Links(m)) && m.Keys <= Prefix(ids, k) && m.Values <= Prefix(ids, k)
    decreases k
  {
    if k == 0 {
      NoEdgesAcyclic();
    } else {
      TreeWellMade(ids, parents, k - 1);
      PrefixGrows(ids, k);
      var m, d := TreeParents(ids, parents, k - 1), TreeParents(ids, parents, k);
      if parents[k - 1].Some? {
        PointNewRow(m, Prefix(ids, k - 1), ids[k - 1], ids[parents[k - 1].value]);
        assert forall x :: x in d ==> d[x] == ids[parents[k - 1].value] || (x in m && d[x] == m[x] && m[x] in m.Values);
      }
    }
  }

  // ----- One lemma per kind of action -----

  lemma TakeLockKeepsInv(s: State, a: Action)
    requires Inv(s) && a.TakeLock? && Step(s, a).Some?
    ensures Inv(Step(s, a).value) && (NoDependencyLoop(s) ==> NoDependencyLoop(Step(s, a).value))
  {
    var t := Step(s, a).value;
    assert TxOk(s.store, s.ever, s.txs[a.pid]);
    forall pid | pid in t.txs ensures TxOk(t.store, t.ever, t.txs[pid]) {
      if pid != a.pid { assert TxOk(s.store, s.ever, s.txs[pid]); }
    }
  }

  lemma ParentReadOk(s: State, pid: Pid, tx: Tx)
    requires Inv(s) && pid in s.txs && s.txs[pid] == tx && (tx.ParentLocked? || tx.ParentWalking?)
    ensures var t := ReadNext(s, pid, tx, []).value;
            pid in t.txs ==> TxOk(s.store, s.ever, t.txs[pid]) && HoldsLock(t.txs[pid])
  {
    assert TxOk(s.store, s.ever, tx);
  }

  lemma BlockReadOk(s: State, pid: Pid, tx: Tx, outgoing: seq<TaskId>)
    requires Inv(s) && pid in s.txs && s.txs[pid] == tx && (tx.BlockLocked? || tx.BlockWalking?)
    requires ReadNext(s, pid, tx, outgoing).Some?
    ensures var t := ReadNext(s, pid, tx, outgoing).value;
            pid in t.txs ==> TxOk(s.store, s.ever, t.txs[pid]) && HoldsLock(t.txs[pid])
  {
    assert TxOk(s.store, s.ever, tx);
    if tx.BlockWalking? && |tx.stack| > 0 {
      var node, rest := tx.stack[|tx.stack| - 1], tx.stack[..|tx.stack| - 1];
      assert tx.stack == rest + [node];
      if node != tx.blocker && node !in tx.seen {
        assert forall y :: y in outgoing <==> y in Blocks(s.store, node) by {
          assert forall y :: y in outgoing <==> y in set z | z in outgoing;
        }
      }
    }
  }

  lemma ReadKeepsInv(s: State, a: Action)
    requires Inv(s) && a.Read? && Step(s, a).Some?
    ensures Inv(Step(s, a).value) && (NoDependencyLoop(s) ==> NoDependencyLoop(Step(s, a).value))
  {
    hide Acyclic, Intact, Closed;
    var t, tx := Step(s, a).value, s.txs[a.pid];
    if tx.ParentLocked? || tx.ParentWalking? {
      ParentReadOk(s, a.pid, tx);
    } else {
      BlockReadOk(s, a.pid, tx, a.outgoing);
    }
    forall pid | pid in t.txs ensures TxOk(t.store, t.ever, t.txs[pid]) {
      if pid != a.pid { assert TxOk(s.store, s.ever, s.txs[pid]); }
    }
  }

  lemma CommitKeepsInv(s: State, a: Action)
    requires Inv(s) && a.Commit? && Step(s, a).Some?
    ensures Inv(Step(s, a).value) && (NoDependencyLoop(s) ==> NoDependencyLoop(Step(s, a).value))
  {
    var t := Step(s, a).value;
    var tx := s.txs[a.pid];
    assert TxOk(s.store, s.ever, tx);
    if tx.ParentPassed? {
      ClosedNotReached(Links(s.store.parent), tx.seen, tx.parent, tx.task);
      MoveParent(s.store.parent, tx.task, tx.parent);
    } else {
      ClosedNotReached(s.store.deps, tx.seen, tx.blocked, tx.blocker);
      if Acyclic(s.store.deps) { AddEdgeAcyclic(s.store.deps, tx.blocker, tx.blocked); }
    }
    forall pid | pid in t.txs ensures TxOk(t.store, t.ever, t.txs[pid]) {
      assert TxOk(s.store, s.ever, s.txs[pid]) && !HoldsLock(s.txs[pid]);
    }
  }

  lemma DropStepKeepsInv(s: State, a: Action)
    requires Inv(s) && (a.ClearParent? || a.RemoveDependency? || a.DeleteTask?)
    ensures Inv(Step(s, a).value) && (NoDependencyLoop(s) ==> NoDependencyLoop(Step(s, a).value))
  {
    DropKeepsInv(s, Step(s, a).value.store);
  }

  lemma CreateStepKeepsInv(s: State, a: Action)
    requires Inv(s) && (a.CreateTask? || a.CreateSubtask?) && Step(s, a).Some?
    ensures Inv(Step(s, a).value) && (NoDependencyLoop(s) ==> NoDependencyLoop(Step(s, a).value))
  {
    NoEdgesAcyclic();
    if a.CreateTask? {
      InsertKeepsInv(s, {a.id}, map[], {});
    } else {
      var parent: map<TaskId, TaskId> := map[a.id := a.parent];
      SingleEdgeAcyclic(a.id, a.parent);
      InsertKeepsInv(s, {a.id}, parent, {});
    }
  }

  lemma CopyStepKeepsInv(s: State, a: Action)
    requires Inv(s) && (a.StartCopy? || a.ReadCopyEdges?) && Step(s, a).Some?
    ensures Inv(Step(s, a).value) && (NoDependencyLoop(s) ==> NoDependencyLoop(Step(s, a).value))
  {
    var t := Step(s, a).value;
    if a.ReadCopyEdges? {
      assert TxOk(s.store, s.ever, s.txs[a.pid]);
      if Acyclic(s.store.deps) { FewerEdgesAcyclic(t.txs[a.pid].edges, s.store.deps); }
    }
    forall pid | pid in t.txs ensures TxOk(t.store, t.ever, t.txs[pid]) {
      if pid != a.pid { assert TxOk(s.store, s.ever, s.txs[pid]); }
    }
  }

  lemma CommitCopyKeepsInv(s: State, a: Action)
    requires Inv(s) && a.CommitCopy? && Step(s, a).Some?
    ensures Inv(Step(s, a).value) && (NoDependencyLoop(s) ==> NoDependencyLoop(Step(s, a).value))
  {
    var tx, done := s.txs[a.pid], s.(txs := s.txs - {a.pid});
    assert TxOk(s.store, s.ever, tx) && Inv(done);
    if !(tx.order[0] in tx.rows && tx.rows[tx.order[0]].Some? && tx.rows[tx.order[0]].value !in s.store.tasks) {
      var c := CloneRows(tx.order, tx.rows, a.ids, |a.ids|);
      ClonesWellMade(tx.order, tx.rows, a.ids, |a.ids|, s.store.tasks);
      if Acyclic(tx.edges) { RenamedAcyclic(tx.edges, c.idMap); }
      assert forall x :: x in c.idMap ==> c.idMap[x] in c.idMap.Values;
      InsertKeepsInv(done, c.created, c.parent, Renamed(tx.edges, c.idMap));
    }
  }

  /** Generating a template's tasks adds a loop of dependencies exactly when the template has one. */
  lemma InsertTreeKeepsInv(s: State, a: Action)
    requires Inv(s) && a.InsertTree? && Step(s, a).Some?
    ensures Inv(Step(s, a).value)
    ensures NoDependencyLoop(s) ==> (NoDependencyLoop(Step(s, a).value) <==> Acyclic(Carried(a.edges, |a.ids|)))
    ensures Acyclic(Step(s, a).value.store.deps) ==> Acyclic(Carried(a.edges, |a.ids|))
  {
    var ids := set id | id in a.ids;
    var m, edges := map i: nat | i < |a.ids| :: a.ids[i], Carried(a.edges, |a.ids|);
    TreeWellMade(a.ids, a.parents, |a.ids|);
    assert a.ids[..|a.ids|] == a.ids;
    RenamedAcyclicIff(edges, m);
    InsertKeepsInv(s, ids, TreeParents(a.ids, a.parents, |a.ids|), Renamed(edges, m));
  }

  /** Only a template with a loop of its own can bring one in. */
  ghost predicate BringsNoLoop(a: Action) {
    a.InsertTree? ==> Acyclic(Carried(a.edges, |a.ids|))
  }

  lemma StepKeepsInv(s: State, a: Action)
    requires Inv(s) && Step(s, a).Some?
    ensures Inv(Step(s, a).value)
    ensures NoDependencyLoop(s) ==> (NoDependencyLoop(Step(s, a).value) <==> BringsNoLoop(a))
    ensures Acyclic(Step(s, a).value.store.deps) ==> BringsNoLoop(a)
  {
    match a
    case StartSetParent(_, _, _) =>
      assert forall pid :: pid in s.txs ==> TxOk(s.store, s.ever, s.txs[pid]);
    case StartAddDependency(_, _, _) =>
      assert forall pid :: pid in s.txs ==> TxOk(s.store, s.ever, s.txs[pid]);
    case TakeLock(_) => TakeLockKeepsInv(s, a);
    case Read(_, _) => ReadKeepsInv(s, a);
    case Commit(_) => CommitKeepsInv(s, a);
    case Abort(_) =>
      assert forall pid :: pid in s.txs ==> TxOk(s.store, s.ever, s.txs[pid]);
    case CreateTask(_) => CreateStepKeepsInv(s, a);
    case CreateSubtask(_, _) => CreateStepKeepsInv(s, a);
    case ClearParent(_) => DropStepKeepsInv(s, a);
    case RemoveDependency(_, _) => DropStepKeepsInv(s, a);
    case DeleteTask(_) => DropStepKeepsInv(s, a);
    case StartCopy(_, _) => CopyStepKeepsInv(s, a);
    case ReadCopyEdges(_) => CopyStepKeepsInv(s, a);
    case CommitCopy(_, _) => CommitCopyKeepsInv(s, a);
    case InsertTree(_, _, _) => InsertTreeKeepsInv(s, a);
  }

  // ----- Whole runs -----

  ghost predicate Run(states: seq<State>, actions: seq<Action>) {
    && |states| == |actions| + 1
    && forall i :: 0 <= i < |actions| ==> Step(states[i], actions[i]) == Some(states[i + 1])
  }

  ghost predicate StartsSound(s: State) {
    Intact(s.store) && NoLoops(s.store) && s.store.tasks <= s.ever && s.txs == map[]
  }

  /** No interleaving ever makes a task its own ancestor. */
  lemma {:induction false} NeverItsOwnAncestor(states: seq<State>, actions: seq<Action>, k: nat)
    requires Run(states, actions) && k < |states| && StartsSound(states[0])
    ensures Inv(states[k]) && Intact(states[k].store) && Acyclic(Links(states[k].store.parent))
    decreases k
  {
    if k > 0 {
      NeverItsOwnAncestor(states, actions, k - 1);
      assert Step(states[k - 1], actions[k - 1]) == Some(states[k - 1 + 1]);
      StepKeepsInv(states[k - 1], actions[k - 1]);
    }
  }

  /**
   Neither graph has a loop at any moment of a run, exactly when no template generated in it has a loop of
   dependencies.
  */
  lemma NeverALoopIff(states: seq<State>, actions: seq<Action>)
    requires Run(states, actions) && StartsSound(states[0])
    ensures (forall k :: 0 <= k < |states| ==> NoLoops(states[k].store))
            <==> forall a :: a in actions ==> BringsNoLoop(a)
  {
    hide Inv, NoDependencyLoop, BringsNoLoop, Step, Acyclic, StartsSound;
    if forall a :: a in actions ==> BringsNoLoop(a) {
      forall k | 0 <= k < |states| ensures NoLoops(states[k].store) {
        NeverItsOwnAncestor(states, actions, k);
        NoLoopSoFar(states, actions, k);
      }
    }
    if forall k :: 0 <= k < |states| ==> NoLoops(states[k].store) {
      forall a | a in actions ensures BringsNoLoop(a) {
        var i :| 0 <= i < |actions| && actions[i] == a;
        NeverItsOwnAncestor(states, actions, i);
        assert Step(states[i], actions[i]) == Some(states[i + 1]) && NoLoops(states[i + 1].store);
        StepKeepsInv(states[i], actions[i]);
      }
    }
  }

  lemma {:induction false} NoLoopSoFar(states: seq<State>, actions: seq<Action>, k: nat)
    requires Run(states, actions) && k < |states| && StartsSound(states[0])
    requires forall a :: a in actions ==> BringsNoLoop(a)
    ensures NoDependencyLoop(states[k]) && Acyclic(states[k].store.deps)
    decreases k
  {
    hide Inv, BringsNoLoop, Step, Acyclic;
    if k > 0 {
      NoLoopSoFar(states, actions, k - 1);
      NeverItsOwnAncestor(states, actions, k - 1);
      assert Step(states[k - 1], actions[k - 1]) == Some(states[k - 1 + 1]) && actions[k - 1] in actions;
      StepKeepsInv(states[k - 1], actions[k - 1]);
    }
  }
}
