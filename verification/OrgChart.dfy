/**
 The org-chart walks of the access-control service. A supervisor column may be malformed
 (nothing stops an edit from closing a loop), so nothing here assumes the chart is acyclic.
 */
module OrgChart {
  import opened Wrappers
  import opened Entities
  import opened Graphs

  /** The supervisorId column, by user. */
  type Chart = map<UserId, Option<UserId>>

  /** One edge from each person to their direct supervisor. */
  ghost function Reports(chart: Chart): (e: set<(UserId, UserId)>)
    ensures forall a, b :: (a, b) in e <==> a in chart && chart[a] == Some(b)
  {
    set a | a in chart && chart[a].Some? :: (a, chart[a].value)
  }

  /** `boss` is someone else, strictly above `u`. */
  ghost predicate IsAbove(chart: Chart, boss: UserId, u: UserId) {
    boss != u && StrictlyReaches(Reports(chart), u, boss)
  }

  /** A trail of distinct people, each the direct supervisor of the one before. */
  ghost predicate Trail(chart: Chart, t: seq<UserId>) {
    && |t| > 0
    && Distinct(t)
    && forall i :: 0 < i < |t| ==> (t[i - 1], t[i]) in Reports(chart)
  }

  ghost function Elements<T(!new)>(s: seq<T>): (r: set<T>)
    ensures forall x :: x in r <==> x in s
  {
    set x | x in s
  }

  lemma TrailExtend(chart: Chart, t: seq<UserId>, b: UserId)
    requires Trail(chart, t) && (t[|t| - 1], b) in Reports(chart) && b !in t
    ensures Trail(chart, t + [b])
    ensures Elements(t + [b]) - {b} == Elements(t)
  {
    var u := t + [b];
    assert forall i :: 0 <= i < |t| ==> u[i] == t[i];
    assert forall x :: x in u <==> x in t || x == b;
  }

  lemma {:induction false} TrailWalk(chart: Chart, t: seq<UserId>, i: nat)
    requires Trail(chart, t) && i < |t|
    ensures Walk(Reports(chart), t[0], t[i], i)
  {
    if i > 0 {
      TrailWalk(chart, t, i - 1);
      EdgeReaches(Reports(chart), t[i - 1], t[i]);
      WalkConcat(Reports(chart), t[0], t[i - 1], t[i], i - 1, 1);
    }
  }

  /** A trail that cannot be extended holds everyone the walk could ever meet. */
  lemma MaximalTrail(chart: Chart, t: seq<UserId>)
    requires Trail(chart, t)
    requires forall b :: (t[|t| - 1], b) in Reports(chart) ==> b in t
    ensures forall b :: b in t[1..] <==> IsAbove(chart, b, t[0])
  {
    var e, s := Reports(chart), set x | x in t;
    assert Closed(e, s) by {
      forall a, b | (a, b) in e && a in s ensures b in s {
        var i :| 0 <= i < |t| && t[i] == a;
        if i + 1 < |t| { assert (t[i + 1 - 1], t[i + 1]) in e; }
      }
    }
    forall b ensures b in t[1..] <==> IsAbove(chart, b, t[0]) {
      if b in t[1..] {
        var i :| 0 <= i < |t[1..]| && t[1..][i] == b;
        TrailWalk(chart, t, i + 1);
      }
      if IsAbove(chart, b, t[0]) {
        var n: nat :| Walk(e, t[0], b, n);
        ClosedWalk(e, s, t[0], b, n);
      }
    }
  }

  method GetSupervisorChainIds(chart: Chart, userId: Option<UserId>) returns (chain: seq<UserId>)
    // exactly the other people above this one, each once, nearest first
    ensures userId.None? ==> chain == []
    ensures userId.Some? ==> forall b :: b in chain <==> IsAbove(chart, b, userId.value)
    ensures userId.Some? ==> Distinct([userId.value] + chain)
    ensures userId.Some? ==> forall i :: 0 <= i < |chain| ==> Walk(Reports(chart), userId.value, chain[i], i + 1)
  {
    chain := [];
    if userId.None? { return; }
    ghost var trail := [userId.value];
    var visited: set<UserId> := {};
    var currentId := userId;
    while currentId.Some?
      invariant currentId.Some?
      invariant Trail(chart, trail) && trail == [userId.value] + chain
      invariant currentId.value == trail[|trail| - 1]
      invariant visited == Elements(trail) - {currentId.value}
      decreases chart.Keys - visited
    {
      if currentId.value in visited { break; }
      visited := visited + {currentId.value};
      var supId := if currentId.value in chart then chart[currentId.value] else None;
      if supId.None? || supId.value in visited { break; }
      TrailExtend(chart, trail, supId.value);
      chain := chain + [supId.value];
      currentId := supId;
      trail := trail + [supId.value];
    }
    MaximalTrail(chart, trail);
    assert trail[1..] == chain;
    forall i | 0 <= i < |chain| ensures Walk(Reports(chart), userId.value, chain[i], i + 1) {
      TrailWalk(chart, trail, i + 1);
    }
  }

  method IsInSupervisorChain(chart: Chart, actorId: UserId, subordinateId: Option<UserId>) returns (b: bool)
    ensures b <==> subordinateId.Some? && IsAbove(chart, actorId, subordinateId.value)
  {
    if subordinateId.None? || subordinateId == Some(actorId) { return false; }
    var chain := GetSupervisorChainIds(chart, subordinateId);
    b := actorId in chain;
  }

  /** The query for everyone whose supervisor is in a list: each row once, in no promised order. */
  method FindReports(chart: Chart, frontier: seq<UserId>) returns (rows: seq<UserId>)
    ensures Distinct(rows)
    ensures forall u :: u in rows <==> exists b :: b in frontier && (u, b) in Reports(chart)
  {
    var left := set u | u in chart && chart[u].Some? && chart[u].value in frontier;
    ghost var all := left;
    rows := [];
    while left != {}
      invariant Distinct(rows)
      invariant forall u :: u in all <==> u in rows || u in left
      invariant forall u :: u in rows ==> u !in left
    {
      var u :| u in left;
      left := left - {u};
      rows := rows + [u];
    }
  }

  /** A set of people below someone that every report of theirs belongs to holds everyone below. */
  lemma VisitedAreBelow(chart: Chart, userId: UserId, visited: set<UserId>)
    requires userId in visited && forall x :: x in visited ==> Reaches(Reports(chart), x, userId)
    requires forall x, y :: (x, y) in Reports(chart) && y in visited ==> x in visited
    ensures forall u :: IsAbove(chart, userId, u) <==> u in visited && u != userId
  {
    var e := Reports(chart);
    forall u ensures IsAbove(chart, userId, u) <==> u in visited && u != userId {
      if u in visited && u != userId {
        var n: nat :| Walk(e, u, userId, n);
        assert n > 0;
      }
      if IsAbove(chart, userId, u) {
        var n: nat :| Walk(e, u, userId, n);
        BackClosedWalk(e, visited, u, userId, n);
      }
    }
  }

  /** A report of someone reached is reached. */
  lemma ReportReaches(chart: Chart, frontier: seq<UserId>, r: UserId, userId: UserId)
    requires exists b :: b in frontier && (r, b) in Reports(chart)
    requires forall x :: x in frontier ==> Reaches(Reports(chart), x, userId)
    ensures r in chart && Reaches(Reports(chart), r, userId)
  {
    var b :| b in frontier && (r, b) in Reports(chart);
    EdgeReaches(Reports(chart), r, b);
    ReachesTrans(Reports(chart), r, b, userId);
  }

  method GetDownlineIds(chart: Chart, userId: UserId) returns (out: seq<UserId>)
    // exactly the other people below this one, each once
    ensures forall u :: u in out <==> IsAbove(chart, userId, u)
    ensures Distinct(out)
  {
    ghost var e := Reports(chart);
    out := [];
    var visited := {userId};
    var frontier := [userId];
    SelfReaches(e, userId);
    hide Reaches, Walk, Reports, IsAbove;
    while |frontier| > 0
      invariant visited == {userId} + set x | x in out
      invariant userId !in out && Distinct(out)
      invariant forall x :: x in frontier ==> x in visited
      invariant forall x :: x in visited ==> Reaches(e, x, userId)
      invariant forall x, y :: (x, y) in e && y in visited ==> x in visited || y in frontier
      decreases chart.Keys - visited, |frontier|
    {
      var reports := FindReports(chart, frontier);
      var next := [];
      ghost var before, processed := visited, frontier;
      var i := 0;
      while i < |reports|
        invariant 0 <= i <= |reports|
        invariant visited == {userId} + set x | x in out
        invariant userId !in out && Distinct(out)
        invariant visited == before + set x | x in next
        invariant forall x :: x in reports[..i] ==> x in visited
        invariant forall x :: x in visited ==> Reaches(e, x, userId)
        invariant forall x :: x in next ==> x in chart && x !in before
        invariant before <= visited
      {
        var r := reports[i];
        assert reports[..i + 1] == reports[..i] + [r];
        assert r in reports;
        if r !in visited {
          ReportReaches(chart, frontier, r, userId);
          visited := visited + {r};
          out := out + [r];
          next := next + [r];
        }
        i := i + 1;
      }
      assert reports[..|reports|] == reports;
      forall x, y | (x, y) in e && y in visited ensures x in visited || y in next {
        if y in processed { assert x in reports; }
      }
      frontier := next;
      if |next| > 0 { assert next[0] in chart.Keys - before && next[0] !in chart.Keys - visited; }
    }
    VisitedAreBelow(chart, userId, visited);
  }

  /**
   Looking up from below and looking down from above agree, loops in the chart or not:
   the two services that ask "is the actor above this person?" in opposite directions decide alike.
   */
  method ChainAndDownlineAgree(chart: Chart, actor: UserId, u: UserId) returns (up: bool, down: bool)
    requires u != actor
    ensures up == down && (down <==> IsAbove(chart, actor, u))
  {
    var chain := GetSupervisorChainIds(chart, Some(u));
    var downline := GetDownlineIds(chart, actor);
    up, down := actor in chain, u in downline;
  }
}
