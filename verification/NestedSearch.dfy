/**
 The nested task list: each matching task under its parent when the parent matches too, sibling layers
 in the incoming sort order, the whole cut into pages. A task is known here by its id and parent; the
 other columns ride along unchanged.
 */
module NestedSearch {
  import opened Wrappers
  import opened Entities
  import opened Graphs
  import opened Forest

  const NEST_MAX_ROWS := 5000

  /** A task's place in the nested list hangs off its parent only when that is listed too. */
  function Shown(dtos: seq<Row<TaskId>>): (rows: seq<Row<TaskId>>)
    ensures |rows| == |dtos| && forall i :: 0 <= i < |dtos| ==> rows[i] == ShownRow(Ids(dtos), dtos[i])
  {
    seq(|dtos|, i requires 0 <= i < |dtos| => ShownRow(Ids(dtos), dtos[i]))
  }

  function ShownRow(listed: set<TaskId>, r: Row<TaskId>): (s: Row<TaskId>)
    ensures s.id == r.id
  {
    Row(r.id, if r.parent.Some? && r.parent.value in listed then r.parent else None)
  }

  lemma ShownHas(dtos: seq<Row<TaskId>>, r: Row<TaskId>)
    requires r in dtos
    ensures ShownRow(Ids(dtos), r) in Shown(dtos)
  {
    var i :| 0 <= i < |dtos| && dtos[i] == r;
    assert Shown(dtos)[i] == ShownRow(Ids(dtos), r);
  }

  lemma ShownFrom(dtos: seq<Row<TaskId>>, s: Row<TaskId>) returns (r: Row<TaskId>)
    requires s in Shown(dtos)
    ensures r in dtos && s == ShownRow(Ids(dtos), r)
  {
    var i :| 0 <= i < |dtos| && Shown(dtos)[i] == s;
    r := dtos[i];
  }

  lemma ShownIds(dtos: seq<Row<TaskId>>)
    ensures Ids(Shown(dtos)) == Ids(dtos)
  {
    hide *;
    forall k ensures k in Ids(Shown(dtos)) <==> k in Ids(dtos) {
      if k in Ids(Shown(dtos)) {
        var s :| s in Shown(dtos) && s.id == k;
        var r := ShownFrom(dtos, s);
      }
      if k in Ids(dtos) {
        var r :| r in dtos && r.id == k;
        ShownHas(dtos, r);
      }
    }
  }

  lemma ShownResolves(dtos: seq<Row<TaskId>>)
    requires UniqueIds(dtos)
    ensures Resolved(Shown(dtos)) && UniqueIds(Shown(dtos))
  {
    ShownIds(dtos);
    forall s | s in Shown(dtos) && s.parent.Some? ensures s.parent.value in Ids(Shown(dtos)) {
      var r := ShownFrom(dtos, s);
    }
  }

  method BuildNestedOrder(dtos: seq<Row<TaskId>>) returns (out: seq<Placed<TaskId>>)
    requires UniqueIds(dtos)
    ensures out == TreeOrder(Shown(dtos))
  {
    ShownResolves(dtos);
    out := ListTree(Shown(dtos));
  }

  /** The links kept are those to listed parents. */
  lemma KeptLinks(dtos: seq<Row<TaskId>>, a: TaskId, b: TaskId)
    ensures (a, b) in ParentLinks(Shown(dtos)) <==> (a, b) in ParentLinks(dtos) && b in Ids(dtos)
  {
    if (a, b) in ParentLinks(Shown(dtos)) { var r := ShownFrom(dtos, Row(a, Some(b))); }
    if (a, b) in ParentLinks(dtos) { ShownHas(dtos, Row(a, Some(b))); }
  }

  lemma LinkedIsListed(dtos: seq<Row<TaskId>>, a: TaskId, b: TaskId)
    requires (a, b) in ParentLinks(dtos)
    ensures a in Ids(dtos)
  {
    assert Row(a, Some(b)) in dtos;
  }

  lemma {:induction false} WalkAmongListed(dtos: seq<Row<TaskId>>, a: TaskId, b: TaskId, n: nat)
    requires b in Ids(dtos) && Walk(ParentLinks(dtos), a, b, n)
    ensures Walk(ParentLinks(Shown(dtos)), a, b, n)
    decreases n
  {
    hide Shown;
    if n > 0 {
      var c :| (a, c) in ParentLinks(dtos) && Walk(ParentLinks(dtos), c, b, n - 1);
      WalkAmongListed(dtos, c, b, n - 1);
      if n > 1 {
        var d :| (c, d) in ParentLinks(dtos);
        LinkedIsListed(dtos, c, d);
      }
      KeptLinks(dtos, a, c);
      assert (a, c) in ParentLinks(Shown(dtos)) && Walk(ParentLinks(Shown(dtos)), c, b, n - 1);
    }
  }

  /** Cutting links to unlisted parents neither makes nor breaks a loop. */
  lemma LoopsAreAmongListed(dtos: seq<Row<TaskId>>)
    ensures Acyclic(ParentLinks(dtos)) <==> Acyclic(ParentLinks(Shown(dtos)))
  {
    hide Walk, Shown;
    var e, f := ParentLinks(dtos), ParentLinks(Shown(dtos));
    forall a: nat, b: nat ensures (a, b) in f ==> (a, b) in e { KeptLinks(dtos, a, b); }
    if Acyclic(e) { FewerEdgesAcyclic(f, e); }
    if Acyclic(f) {
      forall a: nat ensures !StrictlyReaches(e, a, a) {
        if StrictlyReaches(e, a, a) {
          var c := FirstStep(e, a, a);
          LinkedIsListed(dtos, a, c);
          var n: nat :| n > 0 && Walk(e, a, a, n);
          WalkAmongListed(dtos, a, a, n);
          StrictWalk(f, a, a, n);
        }
      }
    }
  }

  ghost predicate Listed(out: seq<Placed<TaskId>>, id: TaskId) {
    exists x :: x in out && x.row.id == id
  }

  /**
   Every matching task is listed, and so the total is the number of matches, exactly when no parent links form a
   loop.
  */
  lemma ListsEveryMatchIffNoLoop(dtos: seq<Row<TaskId>>)
    requires UniqueIds(dtos)
    ensures |TreeOrder(Shown(dtos))| == |dtos| <==> Acyclic(ParentLinks(dtos))
    ensures (forall r :: r in dtos ==> Listed(TreeOrder(Shown(dtos)), r.id)) <==> Acyclic(ParentLinks(dtos))
  {
    hide TreeOrder, Acyclic, ParentLinks, Rooted;
    var rows := Shown(dtos);
    LoopsAreAmongListed(dtos);
    ShownResolves(dtos);
    RootedIffAcyclic(rows);
    ListedAllIffRooted(rows);
    TreeOrderHolds(rows);
    forall r | r in dtos ensures Rooted(rows, r.id) <==> Listed(TreeOrder(rows), r.id) {
      var s := ShownRow(Ids(dtos), r);
      ShownHas(dtos, r);
      if Listed(TreeOrder(rows), r.id) {
        var x :| x in TreeOrder(rows) && x.row.id == r.id;
        SameRow(rows, x.row, s);
      }
    }
    forall s | s in rows ensures exists r :: r in dtos && r.id == s.id {
      var r := ShownFrom(dtos, s);
    }
  }

  /** The tasks of a list shown under p, in the list's order; p is None for those at the top. */
  function Under(dtos: seq<Row<TaskId>>, p: Option<TaskId>): seq<Row<TaskId>> {
    Children(Shown(dtos), p)
  }

  /**
   The list is a preorder of the matches: no task twice; at the top exactly those without a listed
   parent, every other in the contiguous block of its parent, one deeper; each layer in sort order.
   */
  lemma NestedOrderIsPreorder(dtos: seq<Row<TaskId>>, out: seq<Placed<TaskId>>)
    requires UniqueIds(dtos) && out == TreeOrder(Shown(dtos))
    ensures DistinctRows(out)
    ensures forall i: nat :: i < |out| ==> exists r :: r in dtos && out[i].row == ShownRow(Ids(dtos), r)
    ensures forall i: nat :: i < |out| ==> (out[i].depth == 0 <==> out[i].row.parent.None?)
    ensures forall i: nat :: i < |out| && out[i].row.parent.Some? ==> exists j: nat :: InsideBlockOf(out, i, j)
    ensures WithParent(out, None) == Under(dtos, None)
    ensures Acyclic(ParentLinks(dtos)) ==> forall r :: r in dtos ==>
            WithParent(out, Some(r.id)) == Under(dtos, Some(r.id))
  {
    hide TreeOrder, Acyclic, ParentLinks, Children, WithParent, InsideBlockOf;
    ShownResolves(dtos);
    TreeOrderHolds(Shown(dtos));
    forall i: nat | i < |out| ensures exists r :: r in dtos && out[i].row == ShownRow(Ids(dtos), r) {
      assert out[i] in out;
      var r := ShownFrom(dtos, out[i].row);
    }
    forall i: nat | i < |out|
      ensures out[i].depth == 0 <==> out[i].row.parent.None?
      ensures out[i].row.parent.Some? ==> exists j: nat :: InsideBlockOf(out, i, j)
    {
      if out[i].depth > 0 {
        var j: nat :| InsideBlockOf(out, i, j);
        BlockParent(out, i, j);
      }
    }
    ListsEveryMatchIffNoLoop(dtos);
    if Acyclic(ParentLinks(dtos)) {
      forall r | r in dtos ensures WithParent(out, Some(r.id)) == Under(dtos, Some(r.id)) {
        assert Listed(out, r.id);
      }
    }
  }

  lemma BlockParent(out: seq<Placed<TaskId>>, i: nat, j: nat)
    requires i < |out| && InsideBlockOf(out, i, j)
    ensures out[i].row.parent.Some?
  {}

  /** Of two tasks shown under the same parent, or both at the top, the one sorted first is listed first. */
  lemma SortOrderIsKept(dtos: seq<Row<TaskId>>, out: seq<Placed<TaskId>>, i: nat, j: nat)
    requires UniqueIds(dtos) && Acyclic(ParentLinks(dtos)) && out == TreeOrder(Shown(dtos))
    requires i < j < |dtos| && ShownRow(Ids(dtos), dtos[i]).parent == ShownRow(Ids(dtos), dtos[j]).parent
    ensures exists x, y :: 0 <= x < y < |out| && out[x].row.id == dtos[i].id && out[y].row.id == dtos[j].id
  {
    hide TreeOrder, Acyclic, ParentLinks, Children, WithParent, InsideBlockOf, ShownRow, Shown, Before;
    var rows := Shown(dtos);
    ShownAt(dtos, i);
    ShownAt(dtos, j);
    var p := rows[i].parent;
    NestedOrderIsPreorder(dtos, out);
    ParentIsAmong(dtos, i);
    assert WithParent(out, p) == Children(rows, p);
    ChildrenInOrder(rows, i, j);
    var x, y := ListedInOrder(out, p, rows[i], rows[j]);
  }

  lemma ShownAt(dtos: seq<Row<TaskId>>, i: nat)
    requires i < |dtos|
    ensures i < |Shown(dtos)| && Shown(dtos)[i] == ShownRow(Ids(dtos), dtos[i]) && Shown(dtos)[i].id == dtos[i].id
  {}

  lemma ParentIsAmong(dtos: seq<Row<TaskId>>, i: nat)
    requires i < |dtos|
    ensures var p := ShownRow(Ids(dtos), dtos[i]).parent; p.Some? ==> exists r :: r in dtos && r.id == p.value
  {}

  lemma ListedInOrder(out: seq<Placed<TaskId>>, p: Option<TaskId>, r: Row<TaskId>, s: Row<TaskId>)
    returns (x: nat, y: nat)
    requires Before(WithParent(out, p), r, s)
    ensures x < y < |out| && out[x].row == r && out[y].row == s
  {
    var a, b :| 0 <= a < b < |WithParent(out, p)| && WithParent(out, p)[a] == r && WithParent(out, p)[b] == s;
    x, y := PickedInOrder(out, p, a, b);
  }

  // ----- Pages -----

  /** Array slice: out-of-range bounds are pulled in. */
  function Slice<T>(s: seq<T>, start: nat, end: nat): seq<T>
    requires start <= end
  {
    s[if start < |s| then start else |s|..if end < |s| then end else |s|]
  }

  function PageStart(page: nat, pageSize: nat): nat
    requires page >= 1
  {
    (page - 1) * pageSize
  }

  function PageOf<T>(s: seq<T>, page: nat, pageSize: nat): seq<T>
    requires page >= 1
  {
    Slice(s, PageStart(page, pageSize), PageStart(page, pageSize) + pageSize)
  }

  method NestedPage(matches: seq<Row<TaskId>>, page: nat, pageSize: nat) returns (rows: seq<Placed<TaskId>>, total: nat)
    requires UniqueIds(matches) && page >= 1
    ensures var all := TreeOrder(Shown(matches[..if |matches| < 5000 then |matches| else 5000]));
            total == |all| && rows == PageOf(all, page, pageSize)
  {
    hide PageStart, Slice, TreeOrder, Shown;
    var all := matches[..if |matches| < NEST_MAX_ROWS then |matches| else NEST_MAX_ROWS];
    var nested := BuildNestedOrder(all);
    var start := PageStart(page, pageSize);
    return Slice(nested, start, start + pageSize), |nested|;
  }

  function FirstPages<T>(s: seq<T>, pages: nat, pageSize: nat): seq<T> {
    if pages == 0 then [] else FirstPages(s, pages - 1, pageSize) + PageOf(s, pages, pageSize)
  }

  /**
   The first pages put together are the start of the list, nothing skipped or repeated; enough of them are all
   of it.
  */
  lemma {:induction false} PagesConcatenate<T>(s: seq<T>, pages: nat, pageSize: nat)
    ensures FirstPages(s, pages, pageSize) == Slice(s, 0, pages * pageSize)
    ensures pages * pageSize >= |s| ==> FirstPages(s, pages, pageSize) == s
  {
    hide Slice;
    if pages == 0 {
      SliceNone(s);
    } else {
      PagesConcatenate(s, pages - 1, pageSize);
      var start := PageStart(pages, pageSize);
      assert pages * pageSize == start + pageSize;
      SliceJoin(s, start, start + pageSize);
    }
  }

  lemma SliceNone<T>(s: seq<T>)
    ensures Slice(s, 0, 0) == []
  {}

  lemma SliceJoin<T>(s: seq<T>, a: nat, b: nat)
    requires a <= b
    ensures Slice(s, 0, a) + Slice(s, a, b) == Slice(s, 0, b)
    ensures b >= |s| ==> Slice(s, 0, b) == s
  {}
}
