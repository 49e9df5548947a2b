/**
 The change history of a task's Start and Due dates. A drag saves many times over; such a save merges
 into the same person's latest entry for that task and field when it is under a minute old. The lemmas
 say what the merged history still tells: for one person it is an unbroken chain, for several it need
 not be, and just when it is not.
 */
module DateHistory {
  import opened Wrappers
  import opened Entities

  const DATE_COALESCE_WINDOW_MS := 60_000

  datatype Field = StartAt | DueAt

  datatype Key = Key(taskId: TaskId, field: Field)

  /** One history row; rows are kept in id order. */
  datatype Entry = Entry(key: Key, userId: UserId, previous: Option<Time>, next: Option<Time>, changedAt: Time)

  /** The entries of one task's field. */
  function LogOf(table: seq<Entry>, key: Key): (log: seq<Entry>)
    ensures forall e :: e in log ==> e in table && e.key == key
  {
    if table == [] then []
    else
      var init, last := table[..|table| - 1], table[|table| - 1];
      if last.key == key then LogOf(init, key) + [last] else LogOf(init, key)
  }

  predicate Mergeable(e: Entry, userId: UserId, now: Time) {
    e.userId == userId && e.changedAt > now - DATE_COALESCE_WINDOW_MS
  }

  /** The person's entry inside the window with the latest time, the later row among equals. */
  function Recent(log: seq<Entry>, userId: UserId, now: Time): (r: Option<nat>)
    ensures r.None? <==> forall j :: 0 <= j < |log| ==> !Mergeable(log[j], userId, now)
    ensures r.Some? ==> r.value < |log| && Mergeable(log[r.value], userId, now)
    ensures r.Some? ==> forall j :: 0 <= j < |log| && Mergeable(log[j], userId, now) ==>
              log[j].changedAt < log[r.value].changedAt || (log[j].changedAt == log[r.value].changedAt && j <= r.value)
  {
    if log == [] then None
    else
      var init, last := log[..|log| - 1], log[|log| - 1];
      var r := Recent(init, userId, now);
      assert forall j :: 0 <= j < |init| ==> init[j] == log[j];
      if Mergeable(last, userId, now) && (r.None? || init[r.value].changedAt <= last.changedAt) then Some(|init|) else r
  }

  function Recorded(log: seq<Entry>, e: Entry): seq<Entry> {
    var r := Recent(log, e.userId, e.changedAt);
    if r.None? then log + [e] else log[r.value := log[r.value].(next := e.next, changedAt := e.changedAt)]
  }

  // ----- The table -----

  lemma {:induction false} LogOfAppend(a: seq<Entry>, b: seq<Entry>, key: Key)
    ensures LogOf(a + b, key) == LogOf(a, key) + LogOf(b, key)
    decreases |b|
  {
    if b == [] {
      assert a + b == a;
    } else {
      var init, last := b[..|b| - 1], b[|b| - 1];
      assert (a + b)[..|a + b| - 1] == a + init && (a + b)[|a + b| - 1] == last;
      LogOfAppend(a, init, key);
    }
  }

  lemma LogOfPush(table: seq<Entry>, e: Entry)
    ensures forall k :: LogOf(table + [e], k) == if e.key == k then LogOf(table, k) + [e] else LogOf(table, k)
  {
    var longer := table + [e];
    assert longer[..|longer| - 1] == table && longer[|longer| - 1] == e;
  }

  lemma NoLog(key: Key, userId: UserId, now: Time)
    ensures LogOf([], key) == [] && Recent([], userId, now).None?
  {}

  lemma RecentPush(log: seq<Entry>, e: Entry, userId: UserId, now: Time)
    ensures var r := Recent(log, userId, now);
            Recent(log + [e], userId, now) ==
            if Mergeable(e, userId, now) && (r.None? || log[r.value].changedAt <= e.changedAt) then Some(|log|) else r
  {
    var longer := log + [e];
    assert longer[..|longer| - 1] == log && longer[|longer| - 1] == e;
  }

  /** Rewriting a row rewrites it in its own log and leaves every other log alone. */
  lemma LogOfUpdate(table: seq<Entry>, i: nat, e: Entry)
    requires i < |table| && e.key == table[i].key
    ensures forall k :: k != e.key ==> LogOf(table[i := e], k) == LogOf(table, k)
    ensures var at := |LogOf(table[..i], e.key)|;
            && at < |LogOf(table, e.key)| && LogOf(table, e.key)[at] == table[i]
            && LogOf(table[i := e], e.key) == LogOf(table, e.key)[at := e]
  {
    hide LogOf;
    var head, tail := table[..i], table[i + 1..];
    assert table == head + [table[i]] + tail && table[i := e] == head + [e] + tail;
    LogOfPush(head, table[i]);
    LogOfPush(head, e);
    forall k ensures k != e.key ==> LogOf(table[i := e], k) == LogOf(table, k) {
      LogOfAppend(head + [table[i]], tail, k);
      LogOfAppend(head + [e], tail, k);
    }
    LogOfAppend(head + [table[i]], tail, e.key);
    LogOfAppend(head + [e], tail, e.key);
  }

  class HistoryTable {
    var table: seq<Entry>
    var dates: map<Key, Option<Time>>

    constructor (dates: map<Key, Option<Time>>)
      ensures table == [] && this.dates == dates
    {
      table, this.dates := [], dates;
    }

    /** The query for the row to merge into. */
    method FindRecent(key: Key, userId: UserId, now: Time) returns (found: Option<nat>)
      ensures found.Some? ==> found.value < |table| && table[found.value].key == key
      ensures Recent(LogOf(table, key), userId, now)
              == if found.Some? then Some(|LogOf(table[..found.value], key)|) else None
    {
      hide LogOf, Recent;
      found := None;
      var i := 0;
      NoLog(key, userId, now);
      while i < |table|
        invariant 0 <= i <= |table|
        invariant found.Some? ==> found.value < i && table[found.value].key == key
        invariant Recent(LogOf(table[..i], key), userId, now)
                  == if found.Some? then Some(|LogOf(table[..found.value], key)|) else None
        invariant found.Some? ==> |LogOf(table[..found.value], key)| < |LogOf(table[..i], key)|
                                  && LogOf(table[..i], key)[|LogOf(table[..found.value], key)|] == table[found.value]
      {
        var e := table[i];
        assert table[..i + 1] == table[..i] + [e];
        LogOfPush(table[..i], e);
        if e.key == key {
          RecentPush(LogOf(table[..i], key), e, userId, now);
          if e.userId == userId && e.changedAt > now - DATE_COALESCE_WINDOW_MS
             && (found.None? || table[found.value].changedAt <= e.changedAt) {
            found := Some(i);
          }
        }
        i := i + 1;
      }
      assert table[..i] == table;
    }

    method RecordCoalescedDateChange(e: Entry)
      modifies this`table
      ensures LogOf(table, e.key) == Recorded(LogOf(old(table), e.key), e)
      ensures forall k :: k != e.key ==> LogOf(table, k) == LogOf(old(table), k)
    {
      hide LogOf;
      var found := FindRecent(e.key, e.userId, e.changedAt);
      if found.Some? {
        var recent := table[found.value];
        var merged := recent.(next := e.next, changedAt := e.changedAt);
        LogOfUpdate(table, found.value, merged);
        table := table[found.value := merged];
      } else {
        LogOfPush(table, e);
        table := table + [e];
      }
    }

    /** The part of a task save that concerns one date: nothing is recorded when it does not change. */
    method SaveDate(key: Key, edit: Edit)
      requires key in dates
      modifies this
      ensures dates == old(dates)[key := edit.value]
      ensures History(dates[key], LogOf(table, key))
              == Saved(key, History(old(dates)[key], LogOf(old(table), key)), edit)
      ensures forall k :: k != key ==> LogOf(table, k) == LogOf(old(table), k)
    {
      hide LogOf;
      var before := dates[key];
      dates := dates[key := edit.value];
      if before != edit.value {
        var e := Entry(key, edit.userId, before, edit.value, edit.now);
        if edit.coalesce {
          RecordCoalescedDateChange(e);
        } else {
          LogOfPush(table, e);
          table := table + [e];
        }
      }
    }
  }

  // ----- Histories of one date -----

  datatype Edit = Edit(userId: UserId, value: Option<Time>, now: Time, coalesce: bool)

  datatype History = History(current: Option<Time>, log: seq<Entry>)

  function Saved(key: Key, h: History, edit: Edit): History {
    if h.current == edit.value then h
    else
      var e := Entry(key, edit.userId, h.current, edit.value, edit.now);
      History(edit.value, if edit.coalesce then Recorded(h.log, e) else h.log + [e])
  }

  function Replay(key: Key, original: Option<Time>, edits: seq<Edit>): History {
    if edits == [] then History(original, [])
    else Saved(key, Replay(key, original, edits[..|edits| - 1]), edits[|edits| - 1])
  }

  /** Reading down the entries retraces the date from what it was to what it is. */
  ghost predicate Chain(original: Option<Time>, h: History) {
    if h.log == [] then h.current == original
    else
      && h.log[0].previous == original && h.log[|h.log| - 1].next == h.current
      && forall i :: 0 < i < |h.log| ==> h.log[i - 1].next == h.log[i].previous
  }

  ghost predicate ClockAdvances(edits: seq<Edit>) {
    forall i, j :: 0 <= i < j < |edits| ==> edits[i].now <= edits[j].now
  }

  ghost predicate ClockStrictlyAdvances(edits: seq<Edit>) {
    forall i, j :: 0 <= i < j < |edits| ==> edits[i].now < edits[j].now
  }

  ghost predicate By(edits: seq<Edit>, userId: UserId) {
    forall i :: 0 <= i < |edits| ==> edits[i].userId == userId
  }

  /** A merge into any entry but the last breaks the chain; nothing else does. */
  predicate MergesBehind(h: History, edit: Edit) {
    h.current != edit.value && edit.coalesce &&
    var r := Recent(h.log, edit.userId, edit.now); r.Some? && r.value + 1 < |h.log|
  }

  lemma ChainKeptIff(key: Key, original: Option<Time>, h: History, edit: Edit)
    requires Chain(original, h)
    ensures Chain(original, Saved(key, h, edit)) <==> !MergesBehind(h, edit)
  {
    var s := Saved(key, h, edit);
    if !MergesBehind(h, edit) && h.current != edit.value && h.log != [] {
      forall i | 0 < i < |s.log| ensures s.log[i - 1].next == s.log[i].previous {
        if i < |h.log| { assert h.log[i - 1].next == h.log[i].previous; }
      }
    }
    if MergesBehind(h, edit) { assert s.log[|s.log| - 1] == h.log[|h.log| - 1]; }
  }

  /** Whoever edits: the history is a chain after every edit exactly when no edit merges behind the last entry. */
  lemma {:induction false} AlwaysAChainIff(key: Key, original: Option<Time>, edits: seq<Edit>)
    ensures (forall k :: 0 <= k <= |edits| ==> Chain(original, Replay(key, original, edits[..k])))
            <==> forall k :: 0 <= k < |edits| ==> !MergesBehind(Replay(key, original, edits[..k]), edits[k])
  {
    hide Chain, MergesBehind, Saved;
    forall k | 0 <= k < |edits|
      ensures Replay(key, original, edits[..k + 1]) == Saved(key, Replay(key, original, edits[..k]), edits[k])
    {
      assert edits[..k + 1][..k] == edits[..k];
    }
    if forall k :: 0 <= k < |edits| ==> !MergesBehind(Replay(key, original, edits[..k]), edits[k]) {
      forall k | 0 <= k <= |edits| ensures Chain(original, Replay(key, original, edits[..k])) {
        ChainUpTo(key, original, edits, k);
      }
    }
    if forall k :: 0 <= k <= |edits| ==> Chain(original, Replay(key, original, edits[..k])) {
      forall k | 0 <= k < |edits| ensures !MergesBehind(Replay(key, original, edits[..k]), edits[k]) {
        assert Chain(original, Replay(key, original, edits[..k + 1]));
        ChainKeptIff(key, original, Replay(key, original, edits[..k]), edits[k]);
      }
    }
  }

  lemma {:induction false} ChainUpTo(key: Key, original: Option<Time>, edits: seq<Edit>, k: nat)
    requires k <= |edits|
    requires forall j :: 0 <= j < |edits| ==> !MergesBehind(Replay(key, original, edits[..j]), edits[j])
    ensures Chain(original, Replay(key, original, edits[..k]))
    decreases k
  {
    hide Chain, MergesBehind, Saved;
    if k == 0 {
      EmptyChain(original);
    } else {
      ChainUpTo(key, original, edits, k - 1);
      ChainKeptIff(key, original, Replay(key, original, edits[..k - 1]), edits[k - 1]);
      assert edits[..k][..k - 1] == edits[..k - 1];
    }
  }

  /** One person's history: all theirs, the last entry the newest, none later than the last edit. */
  ghost predicate OneHand(h: History, userId: UserId, upTo: Time) {
    && (forall i :: 0 <= i < |h.log| ==>
        h.log[i].userId == userId && h.log[i].changedAt <= h.log[|h.log| - 1].changedAt)
    && (h.log != [] ==> h.log[|h.log| - 1].changedAt <= upTo)
  }

  lemma MergesIntoLast(h: History, userId: UserId, now: Time)
    requires OneHand(h, userId, now)
    ensures Recent(h.log, userId, now) ==
            if h.log != [] && now - h.log[|h.log| - 1].changedAt < 60_000 then Some(|h.log| - 1)
            else None
  {
    hide Recent;
    if h.log != [] && Mergeable(h.log[|h.log| - 1], userId, now) {
      var r := Recent(h.log, userId, now);
      assert r.Some?;
      assert h.log[r.value].changedAt <= h.log[|h.log| - 1].changedAt;
    }
  }

  lemma {:induction false} OneHandAlways(key: Key, original: Option<Time>, edits: seq<Edit>, userId: UserId, upTo: Time)
    requires By(edits, userId) && ClockAdvances(edits) && (edits != [] ==> edits[|edits| - 1].now <= upTo)
    ensures OneHand(Replay(key, original, edits), userId, upTo)
  {
    if edits != [] {
      var init, last := edits[..|edits| - 1], edits[|edits| - 1];
      OneHandAlways(key, original, init, userId, last.now);
      MergesIntoLast(Replay(key, original, init), userId, last.now);
    }
  }

  /**
   One person's edits, merged or not, under a clock that never runs back: the first entry starts from
   the original date, each entry starts where the one before ended, and the last ends at the current date.
   */
  lemma {:induction false} OnePersonsHistoryIsAChain(key: Key, original: Option<Time>, edits: seq<Edit>, userId: UserId)
    requires By(edits, userId) && ClockAdvances(edits)
    ensures Chain(original, Replay(key, original, edits))
  {
    hide Recent, Recorded, Chain, OneHand;
    if edits == [] {
      assert Chain(original, History(original, [])) by { EmptyChain(original); }
    } else {
      var init, last := edits[..|edits| - 1], edits[|edits| - 1];
      var h := Replay(key, original, init);
      OnePersonsHistoryIsAChain(key, original, init, userId);
      OneHandAlways(key, original, init, userId, last.now);
      MergesIntoLast(h, userId, last.now);
      ChainKeptIff(key, original, h, last);
    }
  }

  lemma EmptyChain(original: Option<Time>)
    ensures Chain(original, History(original, []))
  {}

  /** The date after these edits. */
  function Current(original: Option<Time>, edits: seq<Edit>): Option<Time> {
    if edits == [] then original else edits[|edits| - 1].value
  }

  /** When the date last really changed. */
  function LastChange(original: Option<Time>, edits: seq<Edit>): Option<Time> {
    if edits == [] then None
    else
      var init, last := edits[..|edits| - 1], edits[|edits| - 1];
      if last.value == Current(original, init) then LastChange(original, init) else Some(last.now)
  }

  /** One for the first change, and one more for each change a minute or more after the change before it. */
  function Bursts(original: Option<Time>, edits: seq<Edit>): nat {
    if edits == [] then 0
    else
      var init, last := edits[..|edits| - 1], edits[|edits| - 1];
      var before := LastChange(original, init);
      if last.value == Current(original, init) then Bursts(original, init)
      else if before.None? || last.now - before.value >= 60_000 then Bursts(original, init) + 1
      else Bursts(original, init)
  }

  lemma {:induction false} EntriesAreBursts(key: Key, original: Option<Time>, edits: seq<Edit>, userId: UserId)
    requires By(edits, userId) && ClockAdvances(edits) && forall i :: 0 <= i < |edits| ==> edits[i].coalesce
    ensures var h := Replay(key, original, edits);
            && |h.log| == Bursts(original, edits) && h.current == Current(original, edits)
            && LastChange(original, edits) == if h.log == [] then None else Some(h.log[|h.log| - 1].changedAt)
  {
    hide Recent, OneHand, Recorded, Saved;
    if edits != [] {
      var init, last := edits[..|edits| - 1], edits[|edits| - 1];
      var h := Replay(key, original, init);
      EntriesAreBursts(key, original, init, userId);
      OneHandAlways(key, original, init, userId, last.now);
      MergesIntoLast(h, userId, last.now);
      OneMoreEdit(key, h, last);
    }
  }

  lemma OneMoreEdit(key: Key, h: History, edit: Edit)
    requires edit.coalesce
    requires var r := Recent(h.log, edit.userId, edit.now); r.None? || r == Some(|h.log| - 1)
    ensures var s := Saved(key, h, edit);
            if h.current == edit.value then s == h
            else
              && s.current == edit.value && s.log != [] && s.log[|s.log| - 1].changedAt == edit.now
              && |s.log| == if Recent(h.log, edit.userId, edit.now).None? then |h.log| + 1 else |h.log|
  {
    hide Recent;
  }

  // ----- Several people -----

  /** The entry changed last, the later row among equals. */
  ghost predicate Newest(log: seq<Entry>, i: nat) {
    i < |log| && forall j :: 0 <= j < |log| && j != i ==> log[j].changedAt < log[i].changedAt
  }

  /** Whoever edits: the first row starts from the original date, and the row changed last ends at the current one. */
  lemma {:induction false} EndsAreRight(key: Key, original: Option<Time>, edits: seq<Edit>) returns (newest: nat)
    requires ClockStrictlyAdvances(edits)
    ensures var h := Replay(key, original, edits);
            && (h.log == [] ==> h.current == original)
            && (h.log != [] ==>
                  && h.log[0].previous == original && Newest(h.log, newest) && h.log[newest].next == h.current
                  && h.log[newest].changedAt <= edits[|edits| - 1].now)
  {
    hide Newest, Saved;
    newest := 0;
    if edits != [] {
      var init, last := edits[..|edits| - 1], edits[|edits| - 1];
      var h := Replay(key, original, init);
      newest := EndsAreRight(key, original, init);
      if h.log != [] { assert init[|init| - 1] == edits[|edits| - 2]; }
      newest := EndsStayRight(key, original, h, newest, last);
    }
  }

  lemma EndsStayRight(key: Key, original: Option<Time>, h: History, newest: nat, edit: Edit) returns (now: nat)
    requires h.log == [] ==> h.current == original
    requires h.log != [] ==> h.log[0].previous == original && Newest(h.log, newest) && h.log[newest].next == h.current
                             && h.log[newest].changedAt < edit.now
    ensures var s := Saved(key, h, edit);
            && (s.log == [] ==> s.current == original)
            && (s.log != [] ==> s.log[0].previous == original && Newest(s.log, now) && s.log[now].next == s.current
                                && s.log[now].changedAt <= edit.now)
  {
    hide Recent;
    now := newest;
    if h.current != edit.value {
      var r := Recent(h.log, edit.userId, edit.now);
      now := if edit.coalesce && r.Some? then r.value else |h.log|;
    }
  }

  /**
   Two people dragging by turns: the first person's second drag merges over the other's, and the entries no
   longer join up.
  */
  lemma TwoPeopleBreakTheChain(key: Key)
    ensures exists edits :: ClockStrictlyAdvances(edits) && !Chain(None, Replay(key, None, edits))
  {
    var a, b, c := Edit(1, Some(10), 0, true), Edit(2, Some(20), 1_000, true), Edit(1, Some(30), 2_000, true);
    var edits := [a, b, c];
    assert edits[..2] == [a, b];
    var h2 := Replay(key, None, [a, b]);
    AfterTwo(key);
    assert Mergeable(h2.log[0], 1, 2_000);
    assert Recent(h2.log, 1, 2_000) == Some(0);
    assert MergesBehind(h2, c);
    assert Chain(None, h2);
    ChainKeptIff(key, None, h2, c);
    assert Replay(key, None, edits) == Saved(key, h2, c);
  }

  lemma AfterTwo(key: Key)
    ensures Replay(key, None, [Edit(1, Some(10), 0, true), Edit(2, Some(20), 1_000, true)]) ==
            History(Some(20), [Entry(key, 1, None, Some(10), 0), Entry(key, 2, Some(10), Some(20), 1_000)])
  {
    var a, b := Edit(1, Some(10), 0, true), Edit(2, Some(20), 1_000, true);
    assert [a, b][..1] == [a] && [a][..0] == [];
    assert Replay(key, None, [a]) == Saved(key, Replay(key, None, []), a);
    var h1 := Replay(key, None, [a]);
    assert h1 == History(Some(10), [Entry(key, 1, None, Some(10), 0)]);
    assert Recent(h1.log, 2, 1_000).None?;
  }
}
