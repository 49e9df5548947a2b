/**
 What the relationship writers are for. Each commit writes just what was asked for and nothing else, however
 it is interleaved; a check that refuses had a loop to refuse when its lock was taken; and a locked writer
 that runs alone leaves exactly what the operation by itself leaves.
 */
module RelationshipEffects {
  import opened Wrappers
  import opened Entities
  import opened Graphs
  import opened TaskAccess
  import opened Relationships
  import opened RelationshipProtocol

  // ----- What one commit writes -----

  /** p is t's parent now; every other link and every dependency is as it was. */
  ghost predicate OnlyParentSet(a: Store, b: Store, t: TaskId, p: TaskId) {
    && b.tasks == a.tasks && b.deps == a.deps && ParentOf(b, t) == Some(p)
    && forall c :: c != t ==> ParentOf(b, c) == ParentOf(a, c)
  }

  /** x blocks y now; every other dependency and every link is as it was. */
  ghost predicate OnlyEdgeAdded(a: Store, b: Store, x: TaskId, y: TaskId) {
    && b.tasks == a.tasks && b.parent == a.parent
    && forall u: TaskId, v: TaskId :: (u, v) in b.deps <==> (u, v) in a.deps || (u == x && v == y)
  }

  /** The other writers are where they were. */
  ghost predicate OthersKept(s: State, t: State, pid: Pid) {
    forall q :: q != pid ==> (q in s.txs <==> q in t.txs) && (q in s.txs ==> t.txs[q] == s.txs[q])
  }

  /** What a transaction was started for. */
  datatype Request = SettingParent(task: TaskId, parent: TaskId) | Adding(blocker: TaskId, blocked: TaskId)
                   | Copying(order: seq<TaskId>)

  function RequestOf(tx: Tx): Request {
    match tx
    case ParentQueued(t, p) => SettingParent(t, p)
    case ParentLocked(t, p) => SettingParent(t, p)
    case ParentWalking(t, p, _, _) => SettingParent(t, p)
    case ParentPassed(t, p, _) => SettingParent(t, p)
    case BlockQueued(a, b) => Adding(a, b)
    case BlockLocked(a, b) => Adding(a, b)
    case BlockWalking(a, b, _, _) => Adding(a, b)
    case BlockPassed(a, b, _) => Adding(a, b)
    case CopyRead(order, _) => Copying(order)
    case CopyReady(order, _, _) => Copying(order)
  }

  /** The statements of a transaction before its commit, and giving it up, write nothing. */
  ghost predicate WritesNothing(a: Action) {
    a.StartSetParent? || a.StartAddDependency? || a.TakeLock? || a.Read? || a.Abort? || a.StartCopy? || a.ReadCopyEdges?
  }

  lemma NothingWritten(s: State, a: Action)
    requires WritesNothing(a) && Step(s, a).Some?
    ensures Step(s, a).value.store == s.store && Step(s, a).value.ever == s.ever
    ensures OthersKept(s, Step(s, a).value, a.pid)
  {}

  /** A transaction still running is running for what it was started for. */
  lemma RequestStays(s: State, a: Action, pid: Pid)
    requires pid in s.txs && Step(s, a).Some? && pid in Step(s, a).value.txs
    ensures RequestOf(Step(s, a).value.txs[pid]) == RequestOf(s.txs[pid])
  {}

  lemma {:induction false} RequestKept(states: seq<State>, actions: seq<Action>, i: nat, j: nat, pid: Pid)
    requires Run(states, actions) && i <= j < |states| && forall k :: i <= k <= j ==> pid in states[k].txs
    ensures RequestOf(states[j].txs[pid]) == RequestOf(states[i].txs[pid])
    decreases j
  {
    hide Step, RequestOf;
    if i < j {
      RequestKept(states, actions, i, j - 1, pid);
      assert Step(states[j - 1], actions[j - 1]) == Some(states[j - 1 + 1]);
      RequestStays(states[j - 1], actions[j - 1], pid);
    }
  }

  /** The transaction started at i is still running at every moment up to j. */
  ghost predicate Running(states: seq<State>, actions: seq<Action>, i: nat, j: nat, pid: Pid) {
    Run(states, actions) && i < j < |actions| && forall k :: i < k <= j ==> pid in states[k].txs
  }

  lemma CommitSetsParent(s: State, pid: Pid, t: TaskId, p: TaskId)
    requires pid in s.txs && RequestOf(s.txs[pid]) == SettingParent(t, p) && Step(s, Commit(pid)).Some?
    ensures var d := Step(s, Commit(pid)).value;
            && (if t in s.store.tasks && p in s.store.tasks then OnlyParentSet(s.store, d.store, t, p)
                else d.store == s.store)
            && pid !in d.txs && d.lock.None? && d.ever == s.ever && OthersKept(s, d, pid)
  {}

  lemma CommitAddsEdge(s: State, pid: Pid, x: TaskId, y: TaskId)
    requires pid in s.txs && RequestOf(s.txs[pid]) == Adding(x, y) && Step(s, Commit(pid)).Some?
    ensures var d := Step(s, Commit(pid)).value;
            && (if x in s.store.tasks && y in s.store.tasks then OnlyEdgeAdded(s.store, d.store, x, y)
                else d.store == s.store)
            && pid !in d.txs && d.lock.None? && d.ever == s.ever && OthersKept(s, d, pid)
  {}

  /** In any run, the commit of a setParent makes that task the parent of the other, and changes nothing else. */
  lemma SetParentTakesEffect(states: seq<State>, actions: seq<Action>, i: nat, j: nat, pid: Pid, t: TaskId, p: TaskId)
    requires Running(states, actions, i, j, pid)
    requires actions[i] == StartSetParent(pid, t, p) && actions[j] == Commit(pid)
    ensures var s, d := states[j], states[j + 1];
            && (if t in s.store.tasks && p in s.store.tasks then OnlyParentSet(s.store, d.store, t, p)
                else d.store == s.store)
            && pid !in d.txs && d.lock.None? && d.ever == s.ever && OthersKept(s, d, pid)
  {
    hide RequestOf, OnlyParentSet, OthersKept;
    assert Step(states[i], actions[i]) == Some(states[i + 1]) && Step(states[j], actions[j]) == Some(states[j + 1]);
    StartedFor(states[i], actions[i]);
    hide Step;
    RequestKept(states, actions, i + 1, j, pid);
    CommitSetsParent(states[j], pid, t, p);
  }

  /** And the commit of an addDependency adds just that edge. */
  lemma AddDependencyTakesEffect(states: seq<State>, actions: seq<Action>, i: nat, j: nat, pid: Pid, x: TaskId,
                                 y: TaskId)
    requires Running(states, actions, i, j, pid)
    requires actions[i] == StartAddDependency(pid, x, y) && actions[j] == Commit(pid)
    ensures var s, d := states[j], states[j + 1];
            && (if x in s.store.tasks && y in s.store.tasks then OnlyEdgeAdded(s.store, d.store, x, y)
                else d.store == s.store)
            && pid !in d.txs && d.lock.None? && d.ever == s.ever && OthersKept(s, d, pid)
  {
    hide RequestOf, OnlyEdgeAdded, OthersKept;
    assert Step(states[i], actions[i]) == Some(states[i + 1]) && Step(states[j], actions[j]) == Some(states[j + 1]);
    StartedFor(states[i], actions[i]);
    hide Step;
    RequestKept(states, actions, i + 1, j, pid);
    CommitAddsEdge(states[j], pid, x, y);
  }

  lemma StartedFor(s: State, a: Action)
    requires (a.StartSetParent? || a.StartAddDependency? || a.StartCopy?) && Step(s, a).Some?
    ensures a.pid in Step(s, a).value.txs
    ensures a.StartSetParent? ==> RequestOf(Step(s, a).value.txs[a.pid]) == SettingParent(a.task, a.parent)
    ensures a.StartAddDependency? ==> RequestOf(Step(s, a).value.txs[a.pid]) == Adding(a.blocker, a.blocked)
    ensures a.StartCopy? ==> RequestOf(Step(s, a).value.txs[a.pid]) == Copying(a.order)
  {}

  // ----- Why a check refuses -----

  /** The links of the rows there were stay or go; new rows bring only links of their own. */
  ghost predicate OldLinksIn(known: set<TaskId>, a: Store, b: Store) {
    && (forall x, y :: (x, y) in Links(b.parent) && x in known ==> (x, y) in Links(a.parent))
    && forall x, y :: (x, y) in b.deps && x in known ==> (x, y) in a.deps
  }

  lemma OldLinksTrans(known: set<TaskId>, more: set<TaskId>, a: Store, b: Store, c: Store)
    requires OldLinksIn(known, a, b) && OldLinksIn(more, b, c) && known <= more
    ensures OldLinksIn(known, a, c)
  {}

  /** While someone holds the lock nobody else adds a link to a row there was. */
  lemma OthersAddNoLinks(s: State, a: Action, pid: Pid)
    requires Inv(s) && Step(s, a).Some? && s.lock == Some(pid) && pid in s.txs && HoldsLock(s.txs[pid])
             && a != Commit(pid)
    ensures OldLinksIn(s.ever, s.store, Step(s, a).value.store) && s.ever <= Step(s, a).value.ever
  {
    hide Acyclic, TxOk;
    match a
    case CommitCopy(q, ids) => CopiesLinkNew(s, a);
    case InsertTree(ids, parents, edges) => TreeLinksNew(s, a);
    case _ =>
  }

  lemma CopiesLinkNew(s: State, a: Action)
    requires Inv(s) && a.CommitCopy? && Step(s, a).Some?
    ensures OldLinksIn(s.ever, s.store, Step(s, a).value.store) && s.ever <= Step(s, a).value.ever
  {
    hide Acyclic;
    var tx := s.txs[a.pid];
    if !(tx.order[0] in tx.rows && tx.rows[tx.order[0]].Some? && tx.rows[tx.order[0]].value !in s.store.tasks) {
      var c := CloneRows(tx.order, tx.rows, a.ids, |a.ids|);
      ClonesWellMade(tx.order, tx.rows, a.ids, |a.ids|, s.store.tasks);
      assert c.created <= Prefix(a.ids, |a.ids|);
      assert forall x :: x in c.idMap ==> c.idMap[x] in c.idMap.Values;
      assert forall x :: x in Prefix(a.ids, |a.ids|) ==> x in a.ids;
    }
  }

  lemma TreeLinksNew(s: State, a: Action)
    requires Inv(s) && a.InsertTree? && Step(s, a).Some?
    ensures OldLinksIn(s.ever, s.store, Step(s, a).value.store) && s.ever <= Step(s, a).value.ever
  {
    hide Acyclic;
    TreeWellMade(a.ids, a.parents, |a.ids|);
    assert forall x :: x in Prefix(a.ids, |a.ids|) ==> x in a.ids;
  }

  /** All that the transaction has read so far was so when it took the lock, in s0. */
  ghost predicate ReadsAreReal(s0: State, s: State, pid: Pid) {
    && pid in s.txs && HoldsLock(s.txs[pid]) && s.lock == Some(pid)
    && s0.ever <= s.ever && OldLinksIn(s0.ever, s0.store, s.store)
    && match s.txs[pid]
       case ParentLocked(t, p) => p in s0.ever
       case ParentWalking(t, p, cursor, _) =>
         cursor.Some? ==> cursor.value in s0.ever && Reaches(Links(s0.store.parent), p, cursor.value)
       case BlockLocked(a, b) => b in s0.ever
       case BlockWalking(a, b, stack, _) =>
         forall x :: x in stack ==> x in s0.ever && Reaches(s0.store.deps, b, x)
       case _ => true
  }

  lemma LockedReadsNothingYet(s: State, pid: Pid)
    requires Inv(s) && Step(s, TakeLock(pid)).Some?
    ensures ReadsAreReal(s, Step(s, TakeLock(pid)).value, pid)
  {
    hide Acyclic;
    assert TxOk(s.store, s.ever, s.txs[pid]);
  }

  lemma ReadStaysReal(s0: State, s: State, a: Action, pid: Pid)
    requires Intact(s0.store) && s0.store.tasks <= s0.ever && Inv(s) && ReadsAreReal(s0, s, pid)
    requires a.Read? && a.pid == pid && Step(s, a).Some? && pid in Step(s, a).value.txs
    ensures ReadsAreReal(s0, Step(s, a).value, pid)
  {
    hide Acyclic, Walk, Reaches, TxOk;
    match s.txs[pid]
    case ParentLocked(t, p) => SelfReaches(Links(s0.store.parent), p);
    case ParentWalking(t, p, cursor, seen) =>
      if cursor.Some? && cursor.value in s.store.parent {
        var up := s.store.parent[cursor.value];
        assert (cursor.value, up) in Links(s.store.parent);
        EdgeReaches(Links(s0.store.parent), cursor.value, up);
        ReachesTrans(Links(s0.store.parent), p, cursor.value, up);
      }
    case BlockLocked(x, y) => SelfReaches(s0.store.deps, y);
    case BlockWalking(x, y, stack, seen) => StackStaysReal(s0, s, a, pid);
    case _ =>
  }

  lemma StackStaysReal(s0: State, s: State, a: Action, pid: Pid)
    requires Intact(s0.store) && s0.store.tasks <= s0.ever && ReadsAreReal(s0, s, pid)
    requires a.Read? && a.pid == pid && s.txs[pid].BlockWalking? && Step(s, a).Some? && pid in Step(s, a).value.txs
    ensures ReadsAreReal(s0, Step(s, a).value, pid)
  {
    hide Acyclic, Walk, Reaches;
    var y, stack := s.txs[pid].blocked, s.txs[pid].stack;
    if |stack| > 0 {
      var node, rest := stack[|stack| - 1], stack[..|stack| - 1];
      assert stack == rest + [node];
      if node != s.txs[pid].blocker && node !in s.txs[pid].seen {
        forall z | z in a.outgoing ensures z in s0.ever && Reaches(s0.store.deps, y, z) {
          assert z in set w | w in a.outgoing;
          assert z in Blocks(s.store, node) && (node, z) in s.store.deps;
          EdgeReaches(s0.store.deps, node, z);
          ReachesTrans(s0.store.deps, y, node, z);
        }
      }
    }
  }

  lemma StepStaysReal(s0: State, s: State, a: Action, pid: Pid)
    requires Inv(s0) && Inv(s) && ReadsAreReal(s0, s, pid)
    requires Step(s, a).Some? && pid in Step(s, a).value.txs
    ensures ReadsAreReal(s0, Step(s, a).value, pid)
  {
    hide Acyclic, Reaches, OldLinksIn, TxOk, Intact;
    if a.Read? && a.pid == pid {
      ReadStaysReal(s0, s, a, pid);
    } else {
      var d := Step(s, a).value;
      OnlyItsOwnReads(s, a, pid);
      OthersAddNoLinks(s, a, pid);
      OldLinksTrans(s0.ever, s.ever, s0.store, s.store, d.store);
    }
  }

  lemma OnlyItsOwnReads(s: State, a: Action, pid: Pid)
    requires Inv(s) && Step(s, a).Some? && s.lock == Some(pid) && pid in s.txs && HoldsLock(s.txs[pid])
    requires pid in Step(s, a).value.txs && !(a.Read? && a.pid == pid)
    ensures a != Commit(pid) && Step(s, a).value.txs[pid] == s.txs[pid] && Step(s, a).value.lock == s.lock
  {
    hide Acyclic, TxOk;
  }

  lemma {:induction false} LockTaken(states: seq<State>, actions: seq<Action>, i: nat, j: nat, pid: Pid)
    returns (k: nat)
    requires Running(states, actions, i, j, pid) && (actions[i].StartSetParent? || actions[i].StartAddDependency?)
    requires actions[i].pid == pid && HoldsLock(states[j].txs[pid])
    ensures i < k < j && actions[k] == TakeLock(pid)
    decreases j
  {
    hide Step, HoldsLock;
    assert Step(states[j - 1], actions[j - 1]) == Some(states[j - 1 + 1]);
    if i + 1 == j {
      NotYetLocked(states[i], actions[i]);
    } else if HoldsLock(states[j - 1].txs[pid]) {
      k := LockTaken(states, actions, i, j - 1, pid);
    } else {
      OnlyTakingLocks(states[j - 1], actions[j - 1], pid);
      k := j - 1;
    }
  }

  lemma NotYetLocked(s: State, a: Action)
    requires (a.StartSetParent? || a.StartAddDependency?) && Step(s, a).Some?
    ensures !HoldsLock(Step(s, a).value.txs[a.pid])
  {}

  lemma OnlyTakingLocks(s: State, a: Action, pid: Pid)
    requires pid in s.txs && !HoldsLock(s.txs[pid]) && Step(s, a).Some? && pid in Step(s, a).value.txs
    requires HoldsLock(Step(s, a).value.txs[pid])
    ensures a == TakeLock(pid)
  {}

  lemma {:induction false} ReadsAreRealSoFar(states: seq<State>, actions: seq<Action>, k: nat, j: nat, pid: Pid)
    requires Run(states, actions) && StartsSound(states[0]) && k < j < |states| && actions[k] == TakeLock(pid)
    requires forall m :: k < m <= j ==> pid in states[m].txs
    ensures Inv(states[k]) && Inv(states[j]) && ReadsAreReal(states[k], states[j], pid)
    decreases j
  {
    hide Inv, ReadsAreReal, Step;
    NeverItsOwnAncestor(states, actions, k);
    NeverItsOwnAncestor(states, actions, j - 1);
    NeverItsOwnAncestor(states, actions, j);
    assert Step(states[j - 1], actions[j - 1]) == Some(states[j - 1 + 1]);
    if k + 1 == j {
      LockedReadsNothingYet(states[k], pid);
    } else {
      ReadsAreRealSoFar(states, actions, k, j - 1, pid);
      StepStaysReal(states[k], states[j - 1], actions[j - 1], pid);
    }
  }

  /**
   How a transaction that holds the lock may end: it writes, gives up, or finds on reading that it has nothing
   to write.
  */
  lemma EndsOnReading(s0: State, s: State, a: Action, pid: Pid, t: TaskId, p: TaskId)
    requires ReadsAreReal(s0, s, pid) && Step(s, a).Some? && a.Read? && a.pid == pid && pid !in Step(s, a).value.txs
    ensures RequestOf(s.txs[pid]) == SettingParent(t, p) ==>
              ParentOf(s.store, t) == Some(p) || Reaches(Links(s0.store.parent), p, t)
    ensures RequestOf(s.txs[pid]) == Adding(t, p) ==> (t, p) in s.store.deps || Reaches(s0.store.deps, p, t)
  {
    hide Reaches, OldLinksIn;
    if s.txs[pid].BlockWalking? { assert s.txs[pid].stack[|s.txs[pid].stack| - 1] in s.txs[pid].stack; }
  }

  lemma PassedMeansNoWay(s: State, pid: Pid)
    requires Inv(s) && Step(s, Commit(pid)).Some?
    ensures match RequestOf(s.txs[pid])
            case SettingParent(t, p) => !Reaches(Links(s.store.parent), p, t) && t != p
            case Adding(x, y) => !Reaches(s.store.deps, y, x) && x != y
            case Copying(_) => true
  {
    hide Acyclic;
    var tx := s.txs[pid];
    assert TxOk(s.store, s.ever, tx);
    if tx.ParentPassed? { ClosedNotReached(Links(s.store.parent), tx.seen, tx.parent, tx.task); }
    if tx.BlockPassed? { ClosedNotReached(s.store.deps, tx.seen, tx.blocked, tx.blocker); }
  }

  lemma OnlyOwnEnds(s: State, a: Action, pid: Pid)
    requires pid in s.txs && Step(s, a).Some? && pid !in Step(s, a).value.txs && RequestOf(s.txs[pid]).Copying? == false
    ensures a == Commit(pid) || a == Abort(pid) || (a.Read? && a.pid == pid && HoldsLock(s.txs[pid]))
  {}

  /**
   How a setParent that is not aborted ends, in any run. It writes when no way leads from the new parent up to the
   task; it ends without writing when that parent was set already, or when such a way was there as it took the lock.
   */
  lemma SetParentEnds(states: seq<State>, actions: seq<Action>, i: nat, j: nat, pid: Pid, t: TaskId, p: TaskId)
    returns (k: nat)
    requires Running(states, actions, i, j, pid) && StartsSound(states[0])
    requires actions[i] == StartSetParent(pid, t, p) && pid !in states[j + 1].txs && actions[j] != Abort(pid)
    ensures i < k < j && actions[k] == TakeLock(pid)
    ensures if actions[j] == Commit(pid) then !Reaches(Links(states[j].store.parent), p, t)
            else states[j + 1].store == states[j].store
                 && (ParentOf(states[j].store, t) == Some(p) || Reaches(Links(states[k].store.parent), p, t))
  {
    k := EndsAfterLock(states, actions, i, j, pid);
    hide Inv, Reaches, ReadsAreReal, RequestOf;
    assert Step(states[i], actions[i]) == Some(states[i + 1]) && Step(states[j], actions[j]) == Some(states[j + 1]);
    StartedFor(states[i], actions[i]);
    hide Step;
    RequestKept(states, actions, i + 1, j, pid);
    ReadsAreRealSoFar(states, actions, k, j, pid);
    if actions[j] == Commit(pid) {
      PassedMeansNoWay(states[j], pid);
    } else {
      NothingWritten(states[j], actions[j]);
      EndsOnReading(states[k], states[j], actions[j], pid, t, p);
    }
  }

  /** The same of an addDependency. */
  lemma AddDependencyEnds(states: seq<State>, actions: seq<Action>, i: nat, j: nat, pid: Pid, x: TaskId, y: TaskId)
    returns (k: nat)
    requires Running(states, actions, i, j, pid) && StartsSound(states[0])
    requires actions[i] == StartAddDependency(pid, x, y) && pid !in states[j + 1].txs && actions[j] != Abort(pid)
    ensures i < k < j && actions[k] == TakeLock(pid)
    ensures if actions[j] == Commit(pid) then !Reaches(states[j].store.deps, y, x)
            else states[j + 1].store == states[j].store
                 && ((x, y) in states[j].store.deps || Reaches(states[k].store.deps, y, x))
  {
    k := EndsAfterLock(states, actions, i, j, pid);
    hide Inv, Reaches, ReadsAreReal, RequestOf;
    assert Step(states[i], actions[i]) == Some(states[i + 1]) && Step(states[j], actions[j]) == Some(states[j + 1]);
    StartedFor(states[i], actions[i]);
    hide Step;
    RequestKept(states, actions, i + 1, j, pid);
    ReadsAreRealSoFar(states, actions, k, j, pid);
    if actions[j] == Commit(pid) {
      PassedMeansNoWay(states[j], pid);
    } else {
      NothingWritten(states[j], actions[j]);
      EndsOnReading(states[k], states[j], actions[j], pid, x, y);
    }
  }

  lemma EndsAfterLock(states: seq<State>, actions: seq<Action>, i: nat, j: nat, pid: Pid) returns (k: nat)
    requires Running(states, actions, i, j, pid) && (actions[i].StartSetParent? || actions[i].StartAddDependency?)
    requires actions[i].pid == pid && pid !in states[j + 1].txs && actions[j] != Abort(pid)
    ensures i < k < j && actions[k] == TakeLock(pid)
    ensures actions[j] == Commit(pid) || (actions[j].Read? && actions[j].pid == pid)
  {
    assert Step(states[i], actions[i]) == Some(states[i + 1]) && Step(states[j], actions[j]) == Some(states[j + 1]);
    StartedFor(states[i], actions[i]);
    hide RequestOf;
    RequestKept(states, actions, i + 1, j, pid);
    OnlyOwnEnds(states[j], actions[j], pid);
    CommitHolds(states[j], actions[j], pid);
    hide Step;
    k := LockTaken(states, actions, i, j, pid);
  }

  lemma CommitHolds(s: State, a: Action, pid: Pid)
    requires pid in s.txs && Step(s, a).Some?
    ensures a == Commit(pid) ==> HoldsLock(s.txs[pid])
  {}

  // ----- A locked writer alone -----

  /** From its start to its end only this transaction takes steps, and it is not aborted. */
  ghost predicate Alone(states: seq<State>, actions: seq<Action>, pid: Pid) {
    && |actions| > 1 && Running(states, actions, 0, |actions| - 1, pid) && pid !in states[|actions|].txs
    && forall a :: a in actions ==> OwnStep(a, pid)
  }

  predicate OwnStep(a: Action, pid: Pid) {
    match a
    case StartSetParent(q, _, _) => q == pid
    case StartAddDependency(q, _, _) => q == pid
    case TakeLock(q) => q == pid
    case Read(q, _) => q == pid
    case Commit(q) => q == pid
    case _ => false
  }

  lemma {:induction false} NothingYet(states: seq<State>, actions: seq<Action>, pid: Pid, k: nat)
    requires Alone(states, actions, pid) && k < |actions|
    ensures states[k].store == states[0].store
    decreases k
  {
    hide Step, OwnStep;
    if k > 0 {
      NothingYet(states, actions, pid, k - 1);
      var a := actions[k - 1];
      assert Step(states[k - 1], actions[k - 1]) == Some(states[k - 1 + 1]) && a in actions;
      NoCommitYet(states[k - 1], a, pid);
      NothingWritten(states[k - 1], a);
    }
  }

  lemma NoCommitYet(s: State, a: Action, pid: Pid)
    requires OwnStep(a, pid) && Step(s, a).Some? && pid in Step(s, a).value.txs
    ensures WritesNothing(a)
  {}

  /** A setParent alone sets that parent and no more, exactly when this closes no loop; otherwise it changes nothing. */
  lemma SetParentAlone(states: seq<State>, actions: seq<Action>, pid: Pid, t: TaskId, p: TaskId)
    requires Alone(states, actions, pid) && StartsSound(states[0]) && actions[0] == StartSetParent(pid, t, p)
    ensures var before, after := states[0].store, states[|actions|].store;
            if Acyclic(Links(before.parent[t := p])) then OnlyParentSet(before, after, t, p) else after == before
  {
    var j := |actions| - 1;
    hide Step, Acyclic, Reaches, OnlyParentSet, OwnStep;
    assert Step(states[0], actions[0]) == Some(states[0 + 1]) && Step(states[j], actions[j]) == Some(states[j + 1]);
    assert actions[j] in actions;
    OwnIsNoAbort(actions[j], pid);
    var k := SetParentEnds(states, actions, 0, j, pid, t, p);
    NothingYet(states, actions, pid, j);
    NothingYet(states, actions, pid, k);
    StartedBetween(states[0], actions[0]);
    SoundLinks(states[0]);
    MoveParent(states[0].store.parent, t, p);
    if actions[j] == Commit(pid) {
      SetParentTakesEffect(states, actions, 0, j, pid, t, p);
    } else if ParentOf(states[j].store, t) == Some(p) {
      assert states[0].store.parent[t := p] == states[0].store.parent;
      ParentSetAlready(states[0].store, t, p);
    }
  }

  lemma SoundLinks(s: State)
    requires StartsSound(s)
    ensures Acyclic(Links(s.store.parent)) && Acyclic(s.store.deps)
  {}

  lemma ParentSetAlready(s: Store, t: TaskId, p: TaskId)
    requires ParentOf(s, t) == Some(p)
    ensures OnlyParentSet(s, s, t, p)
  {}

  lemma OwnIsNoAbort(a: Action, pid: Pid)
    requires OwnStep(a, pid)
    ensures a != Abort(pid)
  {}

  /** Both ends are there and differ: the operation has checked that by now. */
  lemma StartedBetween(s: State, a: Action)
    requires Step(s, a).Some?
    ensures a.StartSetParent? ==> a.task in s.store.tasks && a.parent in s.store.tasks && a.task != a.parent
    ensures a.StartAddDependency? ==> a.blocker in s.store.tasks && a.blocked in s.store.tasks && a.blocker != a.blocked
  {}

  /** And an addDependency alone adds that edge and no more, exactly when this closes no loop. */
  lemma AddDependencyAlone(states: seq<State>, actions: seq<Action>, pid: Pid, x: TaskId, y: TaskId)
    requires Alone(states, actions, pid) && StartsSound(states[0]) && actions[0] == StartAddDependency(pid, x, y)
    ensures var before, after := states[0].store, states[|actions|].store;
            if Acyclic(before.deps + {(x, y)}) then OnlyEdgeAdded(before, after, x, y) else after == before
  {
    var j := |actions| - 1;
    hide Step, Acyclic, Reaches, OnlyEdgeAdded, OwnStep;
    assert Step(states[0], actions[0]) == Some(states[0 + 1]) && Step(states[j], actions[j]) == Some(states[j + 1]);
    assert actions[j] in actions;
    OwnIsNoAbort(actions[j], pid);
    var k := AddDependencyEnds(states, actions, 0, j, pid, x, y);
    NothingYet(states, actions, pid, j);
    NothingYet(states, actions, pid, k);
    StartedBetween(states[0], actions[0]);
    SoundLinks(states[0]);
    AddEdgeIff(states[0].store.deps, x, y);
    if actions[j] == Commit(pid) {
      AddDependencyTakesEffect(states, actions, 0, j, pid, x, y);
    } else if (x, y) in states[j].store.deps {
      assert states[0].store.deps + {(x, y)} == states[0].store.deps;
      EdgeThereAlready(states[0].store, x, y);
    }
  }

  lemma EdgeThereAlready(s: Store, x: TaskId, y: TaskId)
    requires (x, y) in s.deps
    ensures OnlyEdgeAdded(s, s, x, y)
  {}

  /** The operation by itself and the transaction alone leave the same tables. */
  method SetParentBothWays(r: Relations, access: map<TaskId, Level>, t: TaskId, p: TaskId, pid: Pid,
                           ghost states: seq<State>, ghost actions: seq<Action>) returns (answer: Result<(), Refusal>)
    requires r.Valid() && EditRefusal(r.store, access, t).None? && LinkRefusal(r.store, access, p).None?
    requires Alone(states, actions, pid) && StartsSound(states[0]) && actions[0] == StartSetParent(pid, t, p)
    requires states[0].store == r.store
    modifies r
    ensures r.store == states[|actions|].store && (answer.Ok? || answer == Err(WouldCycle))
    ensures answer.Ok? <==> ParentOf(states[|actions|].store, t) == Some(p)
  {
    hide Acyclic, StartsSound, Step;
    ghost var before := r.store;
    assert t != p by { FirstAction(states, actions, pid); StartedBetween(states[0], actions[0]); }
    SetParentAlone(states, actions, pid, t, p);
    assert ParentOf(before, t) == Some(p) ==> before.parent[t := p] == before.parent;
    answer := r.SetParent(access, t, p);
    if answer.Ok? {
      SameParents(r.store, states[|actions|].store);
    }
  }

  lemma FirstAction(states: seq<State>, actions: seq<Action>, pid: Pid)
    requires Alone(states, actions, pid)
    ensures Step(states[0], actions[0]).Some?
  {
    hide Step;
    assert Step(states[0], actions[0]) == Some(states[0 + 1]);
  }

  lemma SameParents(a: Store, b: Store)
    requires a.tasks == b.tasks && a.deps == b.deps && forall c :: ParentOf(a, c) == ParentOf(b, c)
    ensures a == b
  {
    assert forall c :: c in a.parent <==> ParentOf(a, c).Some?;
    assert forall c :: c in b.parent <==> ParentOf(b, c).Some?;
    assert a.parent == b.parent;
  }

  method AddDependencyBothWays(r: Relations, access: map<TaskId, Level>, x: TaskId, y: TaskId, pid: Pid,
                               ghost states: seq<State>, ghost actions: seq<Action>)
    returns (answer: Result<(), Refusal>)
    requires r.Valid() && EditRefusal(r.store, access, x).None? && LinkRefusal(r.store, access, y).None?
    requires Alone(states, actions, pid) && StartsSound(states[0]) && actions[0] == StartAddDependency(pid, x, y)
    requires states[0].store == r.store
    modifies r
    ensures r.store == states[|actions|].store && (answer.Ok? || answer == Err(WouldCycle))
    ensures answer.Ok? <==> (x, y) in states[|actions|].store.deps
  {
    hide Acyclic, StartsSound, Step;
    ghost var before := r.store;
    assert x != y by { FirstAction(states, actions, pid); StartedBetween(states[0], actions[0]); }
    AddDependencyAlone(states, actions, pid, x, y);
    assert (x, y) in before.deps ==> before.deps + {(x, y)} == before.deps;
    answer := r.AddDependency(access, x, true, y);
    if answer.Ok? {
      SameEdges(r.store.deps, states[|actions|].store.deps);
    }
  }

  // ----- No transaction is stuck -----

  /** Some listing of the rows a read may return. */
  lemma {:induction false} Listing(rows: set<TaskId>) returns (outgoing: seq<TaskId>)
    ensures (set y | y in outgoing) == rows
    decreases rows
  {
    outgoing := [];
    if rows == {} {
      assert (set y | y in outgoing) == {};
    } else {
      var y :| y in rows;
      var rest := Listing(rows - {y});
      outgoing := [y] + rest;
      forall z ensures z in (set w | w in outgoing) <==> z in rows {
        assert z in rest <==> z in rows - {y} by { assert z in rest <==> z in set w | w in rest; }
        assert z in outgoing <==> z == y || z in rest;
      }
    }
  }

  function Phase(tx: Tx): nat {
    if tx.ParentLocked? || tx.BlockLocked? then 2 else if tx.ParentWalking? || tx.BlockWalking? then 1 else 0
  }

  function SeenBy(tx: Tx): set<TaskId> {
    if tx.ParentWalking? || tx.ParentPassed? || tx.BlockWalking? || tx.BlockPassed? then tx.seen else {}
  }

  function StackOf(tx: Tx): nat {
    if tx.BlockWalking? then |tx.stack| else if tx.ParentWalking? && tx.cursor.Some? then 1 else 0
  }

  /** Whoever holds the lock can take a step of its own, and comes nearer to its end with it. */
  lemma NextOwnStep(s: State, pid: Pid) returns (a: Action)
    requires Inv(s) && pid in s.txs && HoldsLock(s.txs[pid])
    ensures OwnStep(a, pid) && Step(s, a).Some? && Step(s, a).value.ever == s.ever
    ensures var d := Step(s, a).value;
            pid in d.txs ==>
              && HoldsLock(d.txs[pid])
              && (Phase(d.txs[pid]) < Phase(s.txs[pid])
                  || (Phase(d.txs[pid]) == Phase(s.txs[pid])
                      && (SeenBy(d.txs[pid]) > SeenBy(s.txs[pid])
                          || (SeenBy(d.txs[pid]) == SeenBy(s.txs[pid]) && StackOf(d.txs[pid]) < StackOf(s.txs[pid])))))
  {
    hide Acyclic;
    var tx := s.txs[pid];
    assert TxOk(s.store, s.ever, tx);
    if tx.ParentPassed? || tx.BlockPassed? {
      a := Commit(pid);
    } else if tx.BlockWalking? && |tx.stack| > 0 {
      var outgoing := Listing(Blocks(s.store, tx.stack[|tx.stack| - 1]));
      a := Read(pid, outgoing);
    } else {
      a := Read(pid, []);
    }
  }

  /** How far a transaction still is from its end, as three numbers that go down one after the other. */
  ghost function StepsLeft(s: State, pid: Pid): (r: (nat, nat, nat)) {
    if pid !in s.txs then (0, 0, 0)
    else (Phase(s.txs[pid]) + 1, |s.ever - SeenBy(s.txs[pid])|, StackOf(s.txs[pid]))
  }

  lemma FewerLeft(s: State, pid: Pid, a: Action)
    requires Inv(s) && pid in s.txs && HoldsLock(s.txs[pid]) && OwnStep(a, pid) && Step(s, a).Some?
    requires var d := Step(s, a).value;
             && d.ever == s.ever && pid in d.txs && Phase(d.txs[pid]) == Phase(s.txs[pid])
             && SeenBy(d.txs[pid]) > SeenBy(s.txs[pid])
    ensures |Step(s, a).value.ever - SeenBy(Step(s, a).value.txs[pid])| < |s.ever - SeenBy(s.txs[pid])|
  {
    hide Step, Acyclic;
    StepKeepsInv(s, a);
    var d := Step(s, a).value;
    SeenIsKnown(d, pid);
    var more, fewer := s.ever - SeenBy(s.txs[pid]), d.ever - SeenBy(d.txs[pid]);
    var x :| x in SeenBy(d.txs[pid]) && x !in SeenBy(s.txs[pid]);
    assert fewer <= more - {x};
    SmallerSet(fewer, more - {x});
  }

  lemma SeenIsKnown(s: State, pid: Pid)
    requires Inv(s) && pid in s.txs
    ensures SeenBy(s.txs[pid]) <= s.ever
  {
    hide Acyclic;
    assert TxOk(s.store, s.ever, s.txs[pid]);
  }

  lemma SmallerSet<T>(a: set<T>, b: set<T>)
    requires a <= b
    ensures |a| <= |b|
  {
    assert |a| + |b - a| == |b|;
  }

  /** From any moment, whoever holds the lock can end by its own steps alone. */
  lemma {:induction false} CanEnd(s: State, pid: Pid) returns (states: seq<State>, actions: seq<Action>)
    requires Inv(s) && pid in s.txs && HoldsLock(s.txs[pid])
    ensures Run(states, actions) && states[0] == s && |actions| > 0 && pid !in states[|actions|].txs
    ensures (forall k :: 0 <= k < |actions| ==> pid in states[k].txs) && forall a :: a in actions ==> OwnStep(a, pid)
    decreases StepsLeft(s, pid).0, StepsLeft(s, pid).1, StepsLeft(s, pid).2
  {
    hide Inv, Step, OwnStep, HoldsLock;
    var a := NextOwnStep(s, pid);
    var d := Step(s, a).value;
    if pid !in d.txs {
      states, actions := [s, d], [a];
    } else {
      StepKeepsInv(s, a);
      if SeenBy(d.txs[pid]) > SeenBy(s.txs[pid]) && Phase(d.txs[pid]) == Phase(s.txs[pid]) { FewerLeft(s, pid, a); }
      var restStates, restActions := CanEnd(d, pid);
      states, actions := [s] + restStates, [a] + restActions;
      forall i | 0 <= i < |actions| ensures Step(states[i], actions[i]) == Some(states[i + 1]) {
        if i > 0 { assert Step(restStates[i - 1], restActions[i - 1]) == Some(restStates[i - 1 + 1]); }
      }
    }
  }

  /** So a writer that starts with nobody else there can run alone to its end. */
  lemma CanRunAlone(s: State, start: Action, pid: Pid) returns (states: seq<State>, actions: seq<Action>)
    requires StartsSound(s) && s.lock.None? && OwnStep(start, pid)
             && (start.StartSetParent? || start.StartAddDependency?)
    requires Step(s, start).Some?
    ensures Alone(states, actions, pid) && states[0] == s && actions[0] == start
  {
    hide Step, HoldsLock, Inv;
    SoundInv(s);
    StepKeepsInv(s, start);
    var queued := Step(s, start).value;
    LockIsFree(s, start, pid);
    StepKeepsInv(queued, TakeLock(pid));
    var restStates, restActions := CanEnd(Step(queued, TakeLock(pid)).value, pid);
    states, actions := [s, queued] + restStates, [start, TakeLock(pid)] + restActions;
    forall i | 0 <= i < |actions| ensures Step(states[i], actions[i]) == Some(states[i + 1]) {
      if i > 1 { assert Step(restStates[i - 2], restActions[i - 2]) == Some(restStates[i - 2 + 1]); }
    }
    forall k | 0 < k <= |actions| - 1 ensures pid in states[k].txs {
      if k > 1 { assert states[k] == restStates[k - 2]; }
    }
    assert states[|actions|] == restStates[|restActions|];
  }

  lemma SoundInv(s: State)
    requires StartsSound(s)
    ensures Inv(s)
  {}

  lemma LockIsFree(s: State, start: Action, pid: Pid)
    requires s.lock.None? && OwnStep(start, pid) && (start.StartSetParent? || start.StartAddDependency?)
    requires Step(s, start).Some?
    ensures var queued := Step(s, start).value;
            && pid in queued.txs && Step(queued, TakeLock(pid)).Some?
            && var locked := Step(queued, TakeLock(pid)).value; pid in locked.txs && HoldsLock(locked.txs[pid])
  {}

  // ----- What the writers without a lock write -----

  /** Old rows keep their parents, and no dependency of theirs comes or goes. */
  ghost predicate OldRowsKept(a: Store, b: Store) {
    && (forall x :: x in a.tasks ==> x in b.tasks && ParentOf(b, x) == ParentOf(a, x))
    && forall u: TaskId, v: TaskId :: u in a.tasks || v in a.tasks ==> ((u, v) in b.deps <==> (u, v) in a.deps)
  }

  lemma CreateTaskAdds(s: State, id: TaskId)
    requires Inv(s) && Step(s, CreateTask(id)).Some?
    ensures var d := Step(s, CreateTask(id)).value;
            && id !in s.store.tasks && (forall x :: x in d.store.tasks <==> x in s.store.tasks || x == id)
            && ParentOf(d.store, id).None? && OldRowsKept(s.store, d.store) && d.store.deps == s.store.deps
            && d.txs == s.txs && d.lock == s.lock
  {
    hide Acyclic, TxOk;
  }

  /** A sub-task is a new row, already below its parent. */
  lemma CreateSubtaskAdds(s: State, id: TaskId, p: TaskId)
    requires Inv(s) && Step(s, CreateSubtask(id, p)).Some?
    ensures var d := Step(s, CreateSubtask(id, p)).value;
            && id !in s.store.tasks && (forall x :: x in d.store.tasks <==> x in s.store.tasks || x == id)
            && ParentOf(d.store, id) == Some(p) && OldRowsKept(s.store, d.store) && d.store.deps == s.store.deps
            && d.txs == s.txs && d.lock == s.lock
  {
    hide Acyclic, TxOk;
  }

  lemma ClearParentClears(s: State, t: TaskId)
    ensures Step(s, ClearParent(t)).Some?
    ensures var d := Step(s, ClearParent(t)).value;
            && ParentOf(d.store, t).None? && (forall c :: c != t ==> ParentOf(d.store, c) == ParentOf(s.store, c))
            && d == s.(store := d.store) && d.store.tasks == s.store.tasks && d.store.deps == s.store.deps
  {}

  lemma RemoveDependencyRemoves(s: State, x: TaskId, y: TaskId)
    ensures Step(s, RemoveDependency(x, y)).Some?
    ensures var d := Step(s, RemoveDependency(x, y)).value;
            && (forall u: TaskId, v: TaskId ::
                 (u, v) in d.store.deps
                 <==> (u, v) in s.store.deps && !(u == x && v == y))
            && d == s.(store := d.store) && d.store.tasks == s.store.tasks && d.store.parent == s.store.parent
  {}

  /** A deleted task leaves its children at the top and takes its dependencies with it. */
  lemma DeleteTaskDeletes(s: State, t: TaskId)
    ensures Step(s, DeleteTask(t)).Some?
    ensures var d := Step(s, DeleteTask(t)).value;
            && (forall x :: x in d.store.tasks <==> x in s.store.tasks && x != t)
            && (forall c :: c != t ==> ParentOf(d.store, c) ==
                                       if ParentOf(s.store, c) == Some(t) then None else ParentOf(s.store, c))
            && (forall u: TaskId, v: TaskId :: (u, v) in d.store.deps <==> (u, v) in s.store.deps && u != t && v != t)
            && d == s.(store := d.store)
  {}

  /** The lock goes to one transaction at a time, and comes back when that is aborted. */
  lemma LocksAndAborts(s: State, pid: Pid)
    requires Inv(s)
    ensures Step(s, TakeLock(pid)).Some? ==>
              s.lock.None? && Step(s, TakeLock(pid)).value.lock == Some(pid)
                && HoldsLock(Step(s, TakeLock(pid)).value.txs[pid])
    ensures pid in s.txs ==>
              && Step(s, Abort(pid)).Some? && pid !in Step(s, Abort(pid)).value.txs
              && (HoldsLock(s.txs[pid]) ==> Step(s, Abort(pid)).value.lock.None?)
              && (!HoldsLock(s.txs[pid]) ==> Step(s, Abort(pid)).value.lock == s.lock)
  {
    hide Acyclic, TxOk;
  }

  // ----- What can happen -----

  ghost predicate NewIds(s: State, ids: seq<TaskId>) {
    && (forall i :: 0 <= i < |ids| ==> ids[i] !in s.ever)
    && forall i, j :: 0 <= i < j < |ids| ==> ids[i] != ids[j]
  }

  /** A read of the dependencies of the node on top of the stack lists those there are. */
  ghost predicate ReadsWhatIsThere(s: State, tx: Tx, outgoing: seq<TaskId>)
    requires tx.BlockWalking? && |tx.stack| > 0
  {
    var top := tx.stack[|tx.stack| - 1];
    top == tx.blocker || top in tx.seen || forall y: TaskId :: y in outgoing <==> (top, y) in s.store.deps
  }

  /** When each action is open to happen: the requests are refused at once only for the reasons given here. */
  ghost predicate Possible(s: State, a: Action) {
    match a
    case StartSetParent(pid, t, p) => pid !in s.txs && t != p && t in s.store.tasks && p in s.store.tasks
    case StartAddDependency(pid, x, y) => pid !in s.txs && x != y && x in s.store.tasks && y in s.store.tasks
    case TakeLock(pid) => pid in s.txs && s.lock.None? && (s.txs[pid].ParentQueued? || s.txs[pid].BlockQueued?)
    case Read(pid, outgoing) =>
      pid in s.txs
      && (s.txs[pid].ParentLocked? || s.txs[pid].ParentWalking? || s.txs[pid].BlockLocked?
          || (s.txs[pid].BlockWalking? && (s.txs[pid].stack == [] || ReadsWhatIsThere(s, s.txs[pid], outgoing))))
    case Commit(pid) => pid in s.txs && (s.txs[pid].ParentPassed? || s.txs[pid].BlockPassed?)
    case Abort(pid) => pid in s.txs
    case CreateTask(id) => NewIds(s, [id])
    case CreateSubtask(id, p) => NewIds(s, [id]) && p in s.store.tasks
    case ClearParent(t) => true
    case RemoveDependency(x, y) => true
    case DeleteTask(t) => true
    case StartCopy(pid, order) => pid !in s.txs && order != [] && order[0] in s.store.tasks
    case ReadCopyEdges(pid) => pid in s.txs && s.txs[pid].CopyRead?
    case CommitCopy(pid, ids) =>
      pid in s.txs && s.txs[pid].CopyReady? && |ids| == |s.txs[pid].order| > 0 && NewIds(s, ids)
    case InsertTree(ids, parents, edges) =>
      NewIds(s, ids) && |parents| == |ids|
      && forall i :: 0 <= i < |ids| && parents[i].Some? ==> parents[i].value < i
  }

  lemma HappensWhenPossible(s: State, a: Action)
    ensures Step(s, a).Some? <==> Possible(s, a)
  {
    match a
    case Read(pid, outgoing) =>
      if pid in s.txs && s.txs[pid].BlockWalking? && s.txs[pid].stack != [] {
        var top := s.txs[pid].stack[|s.txs[pid].stack| - 1];
        assert (set y | y in outgoing) == Blocks(s.store, top)
               <==> forall y: TaskId :: y in outgoing <==> (top, y) in s.store.deps;
      }
    case CreateTask(id) => assert NewIds(s, [id]) <==> id !in s.ever by { assert [id][0] == id; }
    case CreateSubtask(id, p) => assert NewIds(s, [id]) <==> id !in s.ever by { assert [id][0] == id; }
    case CommitCopy(pid, ids) =>
    case InsertTree(ids, parents, edges) =>
    case _ =>
  }

  // ----- Copies -----

  /** The parent a copy gets: the root's own, the copy of an earlier original's, or none. */
  ghost predicate CopyParent(order: seq<TaskId>, rows: map<TaskId, Option<TaskId>>, ids: seq<TaskId>, i: nat,
                             parent: Option<TaskId>)
    requires i < |order| == |ids| && order[i] in rows
  {
    if i == 0 then parent == rows[order[0]]
    else if rows[order[i]].Some? && exists j :: 0 <= j < i && order[j] in rows && rows[order[i]] == Some(order[j]) then
      exists j :: 0 <= j < i && order[j] in rows && rows[order[i]] == Some(order[j]) && parent == Some(ids[j])
    else parent.None?
  }

  /** One copy of each of the first k originals that were there. */
  ghost predicate ClonesListed(c: Clones, order: seq<TaskId>, rows: map<TaskId, Option<TaskId>>, ids: seq<TaskId>,
                               k: nat)
    requires k <= |order| == |ids|
  {
    && (forall x :: x in c.created <==> exists i :: 0 <= i < k && order[i] in rows && ids[i] == x)
    && (forall o :: o in c.idMap <==> exists i :: 0 <= i < k && order[i] in rows && order[i] == o)
    && forall i :: 0 <= i < k && order[i] in rows ==> order[i] in c.idMap && c.idMap[order[i]] == ids[i]
  }

  ghost predicate ClonesHang(c: Clones, order: seq<TaskId>, rows: map<TaskId, Option<TaskId>>, ids: seq<TaskId>, k: nat)
    requires k <= |order| == |ids|
  {
    && (forall x :: x in c.parent ==> x in c.created)
    && forall i :: 0 <= i < k && order[i] in rows ==>
         CopyParent(order, rows, ids, i, if ids[i] in c.parent then Some(c.parent[ids[i]]) else None)
  }

  function CloneParent(c: Clones, order: seq<TaskId>, rows: map<TaskId, Option<TaskId>>, k: nat): Option<TaskId>
    requires k < |order| && order[k] in rows
  {
    if order[k] == order[0] then rows[order[k]]
    else if rows[order[k]].Some? && rows[order[k]].value in c.idMap then Some(c.idMap[rows[order[k]].value])
    else None
  }

  lemma {:induction false} ClonesMean(order: seq<TaskId>, rows: map<TaskId, Option<TaskId>>, ids: seq<TaskId>, k: nat)
    requires |ids| == |order| && k <= |order| && Distinct(ids) && Distinct(order)
    ensures ClonesListed(CloneRows(order, rows, ids, k), order, rows, ids, k)
    ensures ClonesHang(CloneRows(order, rows, ids, k), order, rows, ids, k)
    decreases k
  {
    if k > 0 {
      CloneStep(order, rows, ids, k - 1);
      hide ClonesListed, ClonesHang, Distinct, CloneRows, CloneParent, AddClone;
      ClonesMean(order, rows, ids, k - 1);
      var c := CloneRows(order, rows, ids, k - 1);
      if order[k - 1] in rows {
        OneMoreListed(c, order, rows, ids, k - 1);
        OneMoreHangs(c, order, rows, ids, k - 1);
      } else {
        OneMoreGone(c, order, rows, ids, k - 1);
      }
    }
  }

  lemma CloneStep(order: seq<TaskId>, rows: map<TaskId, Option<TaskId>>, ids: seq<TaskId>, k: nat)
    requires |ids| == |order| && k < |order|
    ensures var c := CloneRows(order, rows, ids, k);
            CloneRows(order, rows, ids, k + 1)
            == if order[k] in rows then AddClone(c, order[k], ids[k], CloneParent(c, order, rows, k)) else c
  {}

  lemma OneMoreGone(c: Clones, order: seq<TaskId>, rows: map<TaskId, Option<TaskId>>, ids: seq<TaskId>, k: nat)
    requires |ids| == |order| && k < |order| && order[k] !in rows
    requires ClonesListed(c, order, rows, ids, k) && ClonesHang(c, order, rows, ids, k)
    ensures ClonesListed(c, order, rows, ids, k + 1) && ClonesHang(c, order, rows, ids, k + 1)
  {
    hide CopyParent;
  }

  lemma OneMoreListed(c: Clones, order: seq<TaskId>, rows: map<TaskId, Option<TaskId>>, ids: seq<TaskId>, k: nat)
    requires |ids| == |order| && k < |order| && Distinct(order) && order[k] in rows
    requires ClonesListed(c, order, rows, ids, k)
    ensures ClonesListed(AddClone(c, order[k], ids[k], CloneParent(c, order, rows, k)), order, rows, ids, k + 1)
  {
    hide CloneParent;
    var d := AddClone(c, order[k], ids[k], CloneParent(c, order, rows, k));
    forall x ensures x in d.created <==> exists i :: 0 <= i < k + 1 && order[i] in rows && ids[i] == x {}
    assert order[k] !in c.idMap;
  }

  lemma OneMoreHangs(c: Clones, order: seq<TaskId>, rows: map<TaskId, Option<TaskId>>, ids: seq<TaskId>, k: nat)
    requires |ids| == |order| && k < |order| && Distinct(ids) && Distinct(order) && order[k] in rows
    requires ClonesListed(c, order, rows, ids, k) && ClonesHang(c, order, rows, ids, k)
    ensures ClonesHang(AddClone(c, order[k], ids[k], CloneParent(c, order, rows, k)), order, rows, ids, k + 1)
  {
    var parent := CloneParent(c, order, rows, k);
    var d := AddClone(c, order[k], ids[k], parent);
    NewCopyParent(c, order, rows, ids, k, parent);
    hide CopyParent, CloneParent;
    assert ids[k] !in c.created;
    forall i | 0 <= i < k + 1 && order[i] in rows
      ensures CopyParent(order, rows, ids, i, if ids[i] in d.parent then Some(d.parent[ids[i]]) else None)
    {
      if i < k { assert ids[i] != ids[k]; }
    }
  }

  lemma NewCopyParent(c: Clones, order: seq<TaskId>, rows: map<TaskId, Option<TaskId>>, ids: seq<TaskId>, k: nat,
                      parent: Option<TaskId>)
    requires |ids| == |order| && k < |order| && Distinct(order) && order[k] in rows
    requires forall o :: o in c.idMap <==> exists i :: 0 <= i < k && order[i] in rows && order[i] == o
    requires forall i :: 0 <= i < k && order[i] in rows ==> order[i] in c.idMap && c.idMap[order[i]] == ids[i]
    requires parent == if order[k] == order[0] then rows[order[k]]
                       else if rows[order[k]].Some? && rows[order[k]].value in c.idMap
                       then Some(c.idMap[rows[order[k]].value]) else None
    ensures CopyParent(order, rows, ids, k, parent)
  {
    if k > 0 && rows[order[k]].Some? && rows[order[k]].value in c.idMap {
      var j :| 0 <= j < k && order[j] in rows && order[j] == rows[order[k]].value;
      assert parent == Some(ids[j]);
    }
  }

  /** b holds a's rows and one copy of each original that was there, each below its parent's copy. */
  ghost predicate Copied(a: Store, b: Store, order: seq<TaskId>, rows: map<TaskId, Option<TaskId>>, edges: set<Edge>,
                         ids: seq<TaskId>)
    requires |order| == |ids|
  {
    && OldRowsKept(a, b)
    && (forall x :: x in b.tasks <==> x in a.tasks || exists i :: 0 <= i < |ids| && order[i] in rows && ids[i] == x)
    && (forall i :: 0 <= i < |ids| && order[i] in rows ==> CopyParent(order, rows, ids, i, ParentOf(b, ids[i])))
    && forall u: TaskId, v: TaskId ::
         (u, v) in b.deps
         <==> (u, v) in a.deps || CopiedEdge(order, rows, edges, ids, u, v)
  }

  /** The copies of a dependency's two ends. */
  ghost predicate CopiedEdge(order: seq<TaskId>, rows: map<TaskId, Option<TaskId>>, edges: set<Edge>, ids: seq<TaskId>,
                             u: TaskId, v: TaskId)
    requires |order| == |ids|
  {
    exists i, j :: 0 <= i < |ids| && 0 <= j < |ids| && ids[i] == u && ids[j] == v
                   && order[i] in rows && order[j] in rows && (order[i], order[j]) in edges
  }

  /**
   The commit of a duplication makes the copies of what was read and carries its dependencies over, or writes
   nothing when the task they would go below is gone.
  */
  lemma CommitCopyCopies(s: State, pid: Pid, ids: seq<TaskId>)
    requires Inv(s) && Step(s, CommitCopy(pid, ids)).Some? && Distinct(s.txs[pid].order)
    ensures var tx, d := s.txs[pid], Step(s, CommitCopy(pid, ids)).value;
            && |tx.order| == |ids|
            && (if tx.order[0] in tx.rows && tx.rows[tx.order[0]].Some? && tx.rows[tx.order[0]].value !in s.store.tasks
                then d.store == s.store else Copied(s.store, d.store, tx.order, tx.rows, tx.edges, ids))
            && pid !in d.txs && d.lock == s.lock && OthersKept(s, d, pid)
  {
    hide Acyclic, TxOk, CopyParent, CloneRows, Copied, ClonesListed, ClonesHang, Renamed;
    var tx, d := s.txs[pid], Step(s, CommitCopy(pid, ids)).value;
    ClonesMean(tx.order, tx.rows, ids, |ids|);
    var c := CloneRows(tx.order, tx.rows, ids, |ids|);
    if !(tx.order[0] in tx.rows && tx.rows[tx.order[0]].Some? && tx.rows[tx.order[0]].value !in s.store.tasks) {
      CopiesInStore(s, d.store, c, tx.order, tx.rows, tx.edges, ids);
    }
  }

  lemma CopiesInStore(s: State, b: Store, c: Clones, order: seq<TaskId>, rows: map<TaskId, Option<TaskId>>,
                      edges: set<Edge>, ids: seq<TaskId>)
    requires Intact(s.store) && s.store.tasks <= s.ever && Fresh(s, ids) && |order| == |ids|
    requires ClonesListed(c, order, rows, ids, |ids|) && ClonesHang(c, order, rows, ids, |ids|)
    requires b == Store(s.store.tasks + c.created, s.store.parent + c.parent, s.store.deps + Renamed(edges, c.idMap))
    ensures Copied(s.store, b, order, rows, edges, ids)
  {
    hide CopyParent;
    forall u: TaskId, v: TaskId
      ensures (u, v) in Renamed(edges, c.idMap) <==> CopiedEdge(order, rows, edges, ids, u, v) {
      RenamedIsCopied(c, order, rows, edges, ids, u, v);
    }
    forall i | 0 <= i < |ids| && order[i] in rows ensures CopyParent(order, rows, ids, i, ParentOf(b, ids[i])) {
      assert ids[i] !in s.store.parent;
      assert ParentOf(b, ids[i]) == if ids[i] in c.parent then Some(c.parent[ids[i]]) else None;
    }
  }

  lemma RenamedIsCopied(c: Clones, order: seq<TaskId>, rows: map<TaskId, Option<TaskId>>, edges: set<Edge>,
                        ids: seq<TaskId>, u: TaskId, v: TaskId)
    requires |order| == |ids| && ClonesListed(c, order, rows, ids, |ids|)
    ensures (u, v) in Renamed(edges, c.idMap) <==> CopiedEdge(order, rows, edges, ids, u, v)
  {
    if (u, v) in Renamed(edges, c.idMap) {
      var x, y :| (x, y) in edges && x in c.idMap && y in c.idMap && c.idMap[x] == u && c.idMap[y] == v;
      var i :| 0 <= i < |ids| && order[i] in rows && order[i] == x;
      var j :| 0 <= j < |ids| && order[j] in rows && order[j] == y;
      assert ids[i] == u && ids[j] == v;
    }
    if CopiedEdge(order, rows, edges, ids, u, v) {
      var i, j :| 0 <= i < |ids| && 0 <= j < |ids| && ids[i] == u && ids[j] == v
                  && order[i] in rows && order[j] in rows && (order[i], order[j]) in edges;
      assert Renames(edges, c.idMap, u, v);
    }
  }

  /** What a duplication reads: the originals' parents when it starts, and the dependencies among them later. */
  lemma CopyReads(s: State, pid: Pid, order: seq<TaskId>)
    ensures Step(s, StartCopy(pid, order)).Some? ==>
              && order[0] in s.store.tasks
              && var tx := Step(s, StartCopy(pid, order)).value.txs[pid];
                 tx.CopyRead? && tx.order == order
                 && (forall o :: o in tx.rows <==> o in order && o in s.store.tasks)
                 && forall o :: o in tx.rows ==> tx.rows[o] == ParentOf(s.store, o)
    ensures Step(s, ReadCopyEdges(pid)).Some? && Distinct(s.txs[pid].order) && |s.txs[pid].order| > 1 ==>
              var was, tx := s.txs[pid], Step(s, ReadCopyEdges(pid)).value.txs[pid];
              tx.CopyReady? && tx.order == was.order && tx.rows == was.rows
              && forall u: TaskId, v: TaskId ::
                   (u, v) in tx.edges
                   <==> (u, v) in s.store.deps && u in was.order && v in was.order
  {
    if Step(s, ReadCopyEdges(pid)).Some? && Distinct(s.txs[pid].order) && |s.txs[pid].order| > 1 {
      var order := s.txs[pid].order;
      assert {order[0], order[1]} <= Members(order) && |{order[0], order[1]}| == 2;
      SmallerSet({order[0], order[1]}, Members(order));
      forall u: TaskId, v: TaskId
        ensures (u, v) in Step(s, ReadCopyEdges(pid)).value.txs[pid].edges
                <==> (u, v) in s.store.deps && u in order && v in order
      {
        assert (u, v).0 == u && (u, v).1 == v;
      }
    }
  }

  // ----- Generated trees -----

  /** Generating a template adds its tasks, each below its parent's task, and its dependencies between them. */
  lemma InsertTreeInserts(s: State, ids: seq<TaskId>, parents: seq<Option<nat>>, edges: set<(nat, nat)>)
    requires Inv(s) && Step(s, InsertTree(ids, parents, edges)).Some?
    ensures var d := Step(s, InsertTree(ids, parents, edges)).value;
            && |parents| == |ids| && OldRowsKept(s.store, d.store)
            && (forall x :: x in d.store.tasks <==> x in s.store.tasks || x in ids)
            && (forall i :: 0 <= i < |ids| ==>
                  ids[i] !in s.store.tasks
                  && ParentOf(d.store, ids[i])
                     == if parents[i].Some? && parents[i].value < |ids| then Some(ids[parents[i].value]) else None)
            && (forall u: TaskId, v: TaskId ::
                 (u, v) in d.store.deps
                 <==> (u, v) in s.store.deps || TreeEdge(ids, edges, u, v))
            && d.txs == s.txs && d.lock == s.lock
  {
    hide Acyclic, TxOk;
    var d := Step(s, InsertTree(ids, parents, edges)).value;
    TreeParentsMean(ids, parents, |ids|);
    forall u: TaskId, v: TaskId
      ensures (u, v) in d.store.deps <==> (u, v) in s.store.deps || TreeEdge(ids, edges, u, v) {
      TreeEdges(ids, edges, u, v);
    }
  }

  ghost predicate TreeEdge(ids: seq<TaskId>, edges: set<(nat, nat)>, u: TaskId, v: TaskId) {
    exists x: nat, y: nat :: x < |ids| && y < |ids| && x != y && (x, y) in edges && ids[x] == u && ids[y] == v
  }

  lemma TreeEdges(ids: seq<TaskId>, edges: set<(nat, nat)>, u: TaskId, v: TaskId)
    ensures (u, v) in Renamed(Carried(edges, |ids|), map i: nat | i < |ids| :: ids[i]) <==> TreeEdge(ids, edges, u, v)
  {
    var m := map i: nat | i < |ids| :: ids[i];
    if TreeEdge(ids, edges, u, v) {
      var x: nat, y: nat :| x < |ids| && y < |ids| && x != y && (x, y) in edges && ids[x] == u && ids[y] == v;
      assert Renames(Carried(edges, |ids|), m, u, v);
    }
  }

  lemma {:induction false} TreeParentsMean(ids: seq<TaskId>, parents: seq<Option<nat>>, k: nat)
    requires |parents| == |ids| && k <= |ids| && Distinct(ids)
    requires forall i :: 0 <= i < |ids| && parents[i].Some? ==> parents[i].value < i
    ensures var m := TreeParents(ids, parents, k);
            && (forall x :: x in m ==> exists i :: 0 <= i < k && ids[i] == x)
            && forall i :: 0 <= i < k ==>
                 if parents[i].Some? then ids[i] in m && m[ids[i]] == ids[parents[i].value] else ids[i] !in m
    decreases k
  {
    if k > 0 {
      TreeParentsMean(ids, parents, k - 1);
      var m := TreeParents(ids, parents, k - 1);
      assert ids[k - 1] !in m;
    }
  }
}
