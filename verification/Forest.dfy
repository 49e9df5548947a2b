/**
 Listing rows with a nullable parent in tree order. The template validator, the instantiation order
 and the nested task list all walk children lists the same way; this module holds that walk, the
 preorder it produces, and what a preorder promises. Rows that no root reaches are never visited, so
 the walk ends even when the parent links contain loops.
 */
module Forest {
  import opened Wrappers
  import opened Graphs

  datatype Row<K> = Row(id: K, parent: Option<K>)

  datatype Placed<K> = Placed(row: Row<K>, depth: nat)

  ghost predicate UniqueIds<K(!new)>(rows: seq<Row<K>>) {
    forall i, j :: 0 <= i < j < |rows| ==> rows[i].id != rows[j].id
  }

  function Ids<K(!new)>(rows: seq<Row<K>>): (s: set<K>)
    ensures forall k :: k in s <==> exists r :: r in rows && r.id == k
    ensures forall r :: r in rows ==> r.id in s
  {
    set r | r in rows :: r.id
  }

  /** The rows directly under p, in the order given. */
  function Children<K(==, !new)>(rows: seq<Row<K>>, p: Option<K>): (kids: seq<Row<K>>)
    ensures forall r :: r in kids <==> r in rows && r.parent == p
  {
    if rows == [] then []
    else
      var init, last := rows[..|rows| - 1], rows[|rows| - 1];
      assert rows == init + [last];
      if last.parent == p then Children(init, p) + [last] else Children(init, p)
  }

  ghost predicate Before<T(!new)>(s: seq<T>, x: T, y: T) {
    exists a, b :: 0 <= a < b < |s| && s[a] == x && s[b] == y
  }

  /** Children keep the order of the rows. */
  lemma {:induction false} ChildrenInOrder<K(!new)>(rows: seq<Row<K>>, i: nat, j: nat)
    requires i < j < |rows| && rows[i].parent == rows[j].parent
    ensures Before(Children(rows, rows[i].parent), rows[i], rows[j])
    decreases |rows|
  {
    var p, init, last := rows[i].parent, rows[..|rows| - 1], rows[|rows| - 1];
    var kids, sofar := Children(rows, p), Children(init, p);
    if j < |init| {
      ChildrenInOrder(init, i, j);
      var a, b :| 0 <= a < b < |sofar| && sofar[a] == rows[i] && sofar[b] == rows[j];
      assert kids[a] == rows[i] && kids[b] == rows[j];
    } else {
      assert init[i] in init;
      var a :| 0 <= a < |sofar| && sofar[a] == rows[i];
      assert kids[a] == rows[i] && kids[|sofar|] == rows[j];
    }
  }

  /** Each row followed by everything under it, siblings in order; left bounds the rows still allowed. */
  function Preorder<K(==, !new)>(rows: seq<Row<K>>, kids: seq<Row<K>>, left: set<K>, depth: nat): seq<Placed<K>>
    decreases left, kids
  {
    if kids == [] then []
    else if kids[0].id !in left then Preorder(rows, kids[1..], left, depth)
    else
      [Placed(kids[0], depth)]
      + Preorder(rows, Children(rows, Some(kids[0].id)), left - {kids[0].id}, depth + 1)
      + Preorder(rows, kids[1..], left, depth)
  }

  // ----- Chains from a root -----

  /** A way down from above the roots: each step goes to a child of the one before. */
  datatype Chain<K> = Top | Down(up: Chain<K>, id: K)

  function Tip<K>(c: Chain<K>): Option<K> {
    match c case Top => None case Down(_, id) => Some(id)
  }

  function Nodes<K>(c: Chain<K>): set<K> {
    match c case Top => {} case Down(up, id) => Nodes(up) + {id}
  }

  function Length<K>(c: Chain<K>): nat {
    match c case Top => 0 case Down(up, _) => Length(up) + 1
  }

  ghost predicate IsChain<K(!new)>(rows: seq<Row<K>>, c: Chain<K>) {
    match c
    case Top => true
    case Down(up, id) => IsChain(rows, up) && id !in Nodes(up) && Row(id, Tip(up)) in rows
  }

  /** c is p or goes on below it. */
  ghost predicate Extends<K(!new)>(c: Chain<K>, p: Chain<K>) {
    c == p || (c.Down? && Extends(c.up, p))
  }

  ghost predicate ChainTo<K(!new)>(rows: seq<Row<K>>, c: Chain<K>, id: K) {
    IsChain(rows, c) && c.Down? && c.id == id
  }

  /** Some root reaches this id. */
  ghost predicate Rooted<K(!new)>(rows: seq<Row<K>>, id: K) {
    exists c :: ChainTo(rows, c, id)
  }

  lemma SameRow<K(!new)>(rows: seq<Row<K>>, r: Row<K>, s: Row<K>)
    requires UniqueIds(rows) && r in rows && s in rows && r.id == s.id
    ensures r == s
  {}

  lemma {:induction false} ChainUnique<K(!new)>(rows: seq<Row<K>>, c: Chain<K>, d: Chain<K>, id: K)
    requires UniqueIds(rows) && ChainTo(rows, c, id) && ChainTo(rows, d, id)
    ensures c == d
    decreases c
  {
    SameRow(rows, Row(id, Tip(c.up)), Row(id, Tip(d.up)));
    if c.up.Down? { ChainUnique(rows, c.up, d.up, c.up.id); }
  }

  lemma {:induction false} ExtendsIsChain<K(!new)>(rows: seq<Row<K>>, c: Chain<K>, p: Chain<K>)
    requires IsChain(rows, c) && Extends(c, p)
    ensures IsChain(rows, p) && Nodes(p) <= Nodes(c) && Length(p) <= Length(c)
    ensures c != p ==> c.Down? && Nodes(p) <= Nodes(c.up)
    decreases c
  {
    if c != p { ExtendsIsChain(rows, c.up, p); }
  }

  lemma {:induction false} ExtendsTrans<K(!new)>(c: Chain<K>, p: Chain<K>, q: Chain<K>)
    requires Extends(c, p) && Extends(p, q)
    ensures Extends(c, q)
    decreases c
  {
    if c != p { ExtendsTrans(c.up, p, q); }
  }

  /** The step a longer chain takes from one of its prefixes. */
  lemma {:induction false} NextStep<K(!new)>(rows: seq<Row<K>>, c: Chain<K>, p: Chain<K>) returns (id: K)
    requires IsChain(rows, c) && Extends(c, p) && c != p
    ensures Extends(c, Down(p, id)) && Row(id, Tip(p)) in rows
    decreases c
  {
    if c.up == p { id := c.id; } else { id := NextStep(rows, c.up, p); }
  }

  /** A chain takes only one step from each of its prefixes. */
  lemma {:induction false} OneStep<K(!new)>(rows: seq<Row<K>>, c: Chain<K>, p: Chain<K>, i: K, j: K)
    requires IsChain(rows, c) && Extends(c, Down(p, i)) && Extends(c, Down(p, j))
    ensures i == j
    decreases c
  {
    if c == Down(p, i) && c != Down(p, j) {
      ExtendsIsChain(rows, c.up, Down(p, j));
    } else if c != Down(p, i) && c == Down(p, j) {
      ExtendsIsChain(rows, c.up, Down(p, i));
    } else if c != Down(p, i) {
      OneStep(rows, c.up, p, i, j);
    }
  }

  /** A child of a chain's end is none of the chain's own elements. */
  lemma {:induction false} ChildIsNew<K(!new)>(rows: seq<Row<K>>, c: Chain<K>, d: Chain<K>, r: Row<K>)
    requires UniqueIds(rows) && IsChain(rows, c) && Extends(c, d) && r in rows && r.parent == Tip(c)
    ensures r.id !in Nodes(d)
    decreases d
  {
    if d.Down? {
      ExtendsIsChain(rows, c, d);
      assert Extends(d, d.up);
      ExtendsTrans(c, d, d.up);
      ChildIsNew(rows, c, d.up, r);
      ExtendsIsChain(rows, c, d.up);
      assert Row(d.id, Tip(d.up)) in rows;
    }
  }

  lemma ExtendChain<K(!new)>(rows: seq<Row<K>>, c: Chain<K>, r: Row<K>)
    requires UniqueIds(rows) && IsChain(rows, c) && r in rows && r.parent == Tip(c)
    ensures r.id !in Nodes(c) && IsChain(rows, Down(c, r.id))
  {
    ChildIsNew(rows, c, c, r);
  }

  // ----- What the walk lists -----

  ghost predicate KidsOf<K(!new)>(rows: seq<Row<K>>, kids: seq<Row<K>>, path: Chain<K>) {
    && (forall r :: r in kids ==> r in rows && r.parent == Tip(path))
    && forall i, j :: 0 <= i < j < |kids| ==> kids[i] != kids[j]
  }

  /** The listing below a path: of some of its end's children, or of all of them. */
  ghost function Listing<K(!new)>(rows: seq<Row<K>>, kids: seq<Row<K>>, path: Chain<K>): seq<Placed<K>> {
    Preorder(rows, kids, Ids(rows) - Nodes(path), Length(path))
  }

  ghost function Subtree<K(!new)>(rows: seq<Row<K>>, path: Chain<K>): seq<Placed<K>> {
    Listing(rows, Children(rows, Tip(path)), path)
  }

  lemma {:induction false} ChildrenAreKids<K(!new)>(rows: seq<Row<K>>, p: Option<K>)
    requires UniqueIds(rows)
    ensures forall i, j :: 0 <= i < j < |Children(rows, p)| ==> Children(rows, p)[i] != Children(rows, p)[j]
    decreases |rows|
  {
    if rows != [] {
      ChildrenAreKids(rows[..|rows| - 1], p);
      assert rows[|rows| - 1] !in rows[..|rows| - 1];
    }
  }

  /** The listing unfolded once. */
  lemma Unfold<K(!new)>(rows: seq<Row<K>>, kids: seq<Row<K>>, path: Chain<K>)
    requires UniqueIds(rows) && IsChain(rows, path) && KidsOf(rows, kids, path) && kids != []
    ensures var k := kids[0];
            && k.id in Ids(rows) && k.id !in Nodes(path) && IsChain(rows, Down(path, k.id))
            && KidsOf(rows, Children(rows, Some(k.id)), Down(path, k.id)) && KidsOf(rows, kids[1..], path)
            && Listing(rows, kids, path)
               == [Placed(k, Length(path))] + Subtree(rows, Down(path, k.id)) + Listing(rows, kids[1..], path)
  {
    var k := kids[0];
    ExtendChain(rows, path, k);
    ChildrenAreKids(rows, Some(k.id));
    assert Ids(rows) - Nodes(Down(path, k.id)) == Ids(rows) - Nodes(path) - {k.id};
  }

  /** Where a listed row sits: at the end of a chain through one of these children. */
  ghost predicate Below<K(!new)>(rows: seq<Row<K>>, kids: seq<Row<K>>, path: Chain<K>, c: Chain<K>, x: Placed<K>) {
    && x.row in rows && ChainTo(rows, c, x.row.id) && x.row.parent == Tip(c.up) && x.depth == Length(c.up)
    && exists k :: k in kids && Extends(c, Down(path, k.id))
  }

  lemma {:induction false} ListsOnlyBelow<K(!new)>(rows: seq<Row<K>>, kids: seq<Row<K>>, path: Chain<K>, x: Placed<K>)
    returns (c: Chain<K>)
    requires UniqueIds(rows) && IsChain(rows, path) && KidsOf(rows, kids, path) && x in Listing(rows, kids, path)
    ensures Below(rows, kids, path, c, x)
    decreases Ids(rows) - Nodes(path), kids
  {
    hide Listing, KidsOf;
    if kids == [] { NothingListed(rows, path); }
    var k := kids[0];
    Unfold(rows, kids, path);
    if x == Placed(k, Length(path)) {
      c := Down(path, k.id);
      KidRow(rows, kids, path, k);
    } else if x in Subtree(rows, Down(path, k.id)) {
      assert k.id in Ids(rows) - Nodes(path);
      c := ListsOnlyBelow(rows, Children(rows, Some(k.id)), Down(path, k.id), x);
      var k' :| k' in Children(rows, Some(k.id)) && Extends(c, Down(Down(path, k.id), k'.id));
      assert Extends(Down(Down(path, k.id), k'.id), Down(path, k.id));
      ExtendsTrans(c, Down(Down(path, k.id), k'.id), Down(path, k.id));
    } else {
      c := ListsOnlyBelow(rows, kids[1..], path, x);
      var k' :| k' in kids[1..] && Extends(c, Down(path, k'.id));
      assert k' in kids;
    }
  }

  lemma NothingListed<K(!new)>(rows: seq<Row<K>>, path: Chain<K>)
    ensures Listing(rows, [], path) == []
  {}

  lemma KidRow<K(!new)>(rows: seq<Row<K>>, kids: seq<Row<K>>, path: Chain<K>, k: Row<K>)
    requires KidsOf(rows, kids, path) && k in kids
    ensures k in rows && k.parent == Tip(path)
  {}

  lemma {:induction false} ListsAllBelow<K(!new)>(rows: seq<Row<K>>, kids: seq<Row<K>>, path: Chain<K>, c: Chain<K>,
                                                  x: Placed<K>)
    requires UniqueIds(rows) && IsChain(rows, path) && KidsOf(rows, kids, path) && Below(rows, kids, path, c, x)
    ensures x in Listing(rows, kids, path)
    decreases Ids(rows) - Nodes(path), kids
  {
    hide Listing, KidsOf;
    var k' :| k' in kids && Extends(c, Down(path, k'.id));
    var k := kids[0];
    Unfold(rows, kids, path);
    KidRow(rows, kids, path, k);
    KidRow(rows, kids, path, k');
    if k' == k {
      if c == Down(path, k.id) {
        SameRow(rows, k, x.row);
      } else {
        var id := NextStep(rows, c, Down(path, k.id));
        assert k.id in Ids(rows) - Nodes(path);
        assert Row(id, Some(k.id)) in Children(rows, Some(k.id));
        ListsAllBelow(rows, Children(rows, Some(k.id)), Down(path, k.id), c, x);
      }
    } else {
      assert k' in kids[1..];
      ListsAllBelow(rows, kids[1..], path, c, x);
    }
  }

  ghost predicate DistinctRows<K(!new)>(l: seq<Placed<K>>) {
    forall i, j :: 0 <= i < j < |l| ==> l[i].row.id != l[j].row.id
  }

  /** What is listed below the first child is not listed below the others. */
  lemma BranchesApart<K(!new)>(rows: seq<Row<K>>, kids: seq<Row<K>>, path: Chain<K>, x: Placed<K>, y: Placed<K>)
    requires UniqueIds(rows) && IsChain(rows, path) && KidsOf(rows, kids, path) && kids != []
    requires x == Placed(kids[0], Length(path)) || x in Subtree(rows, Down(path, kids[0].id))
    requires y in Listing(rows, kids[1..], path)
    ensures x.row.id != y.row.id
  {
    hide Listing, KidsOf;
    var k := kids[0];
    KidsDiffer(rows, kids, path);
    Unfold(rows, kids, path);
    var c := BelowFirst(rows, kids, path, x);
    var d := ListsOnlyBelow(rows, kids[1..], path, y);
    var l :| l in kids[1..] && Extends(d, Down(path, l.id));
    if x.row.id == y.row.id {
      ChainUnique(rows, c, d, x.row.id);
      OneStep(rows, c, path, k.id, l.id);
      KidRow(rows, kids, path, k);
      KidRow(rows, kids, path, l);
      SameRow(rows, k, l);
    }
  }

  lemma KidsDiffer<K(!new)>(rows: seq<Row<K>>, kids: seq<Row<K>>, path: Chain<K>)
    requires KidsOf(rows, kids, path) && kids != []
    ensures kids[0] !in kids[1..]
  {}

  lemma BelowFirst<K(!new)>(rows: seq<Row<K>>, kids: seq<Row<K>>, path: Chain<K>, x: Placed<K>) returns (c: Chain<K>)
    requires UniqueIds(rows) && IsChain(rows, path) && KidsOf(rows, kids, path) && kids != []
    requires x == Placed(kids[0], Length(path)) || x in Subtree(rows, Down(path, kids[0].id))
    ensures ChainTo(rows, c, x.row.id) && Extends(c, Down(path, kids[0].id)) && x.row in rows
            && x.row.parent == Tip(c.up)
    ensures x in Subtree(rows, Down(path, kids[0].id)) ==> Extends(c.up, Down(path, kids[0].id))
  {
    hide Listing;
    var k := kids[0];
    Unfold(rows, kids, path);
    if x in Subtree(rows, Down(path, k.id)) {
      c := ListsOnlyBelow(rows, Children(rows, Some(k.id)), Down(path, k.id), x);
      var k' :| k' in Children(rows, Some(k.id)) && Extends(c, Down(Down(path, k.id), k'.id));
      UpOne(rows, c, Down(path, k.id), k'.id);
    } else {
      c := Down(path, k.id);
    }
  }

  lemma {:induction false} UpOne<K(!new)>(rows: seq<Row<K>>, c: Chain<K>, p: Chain<K>, id: K)
    requires Extends(c, Down(p, id))
    ensures c.Down? && Extends(c.up, p) && Extends(c, p)
    decreases c
  {
    if c != Down(p, id) { UpOne(rows, c.up, p, id); }
  }

  lemma {:induction false} ListsEachOnce<K(!new)>(rows: seq<Row<K>>, kids: seq<Row<K>>, path: Chain<K>)
    requires UniqueIds(rows) && IsChain(rows, path) && KidsOf(rows, kids, path)
    ensures DistinctRows(Listing(rows, kids, path))
    decreases Ids(rows) - Nodes(path), kids
  {
    hide Listing, KidsOf;
    if kids == [] {
      NothingListed(rows, path);
    } else {
      var k := kids[0];
      Unfold(rows, kids, path);
      assert k.id in Ids(rows) - Nodes(path);
      var head, sub, rest := [Placed(k, Length(path))], Subtree(rows, Down(path, k.id)), Listing(rows, kids[1..], path);
      ListsEachOnce(rows, Children(rows, Some(k.id)), Down(path, k.id));
      ListsEachOnce(rows, kids[1..], path);
      forall x, y | x in head && y in sub ensures x.row.id != y.row.id {
        var c := BelowFirst(rows, kids, path, y);
        ExtendsIsChain(rows, c.up, Down(path, k.id));
      }
      DistinctAppend(head, sub);
      forall x, y | x in head + sub && y in rest ensures x.row.id != y.row.id {
        BranchesApart(rows, kids, path, x, y);
      }
      DistinctAppend(head + sub, rest);
    }
  }

  lemma DistinctAppend<K(!new)>(a: seq<Placed<K>>, b: seq<Placed<K>>)
    requires DistinctRows(a) && DistinctRows(b)
    requires forall x, y :: x in a && y in b ==> x.row.id != y.row.id
    ensures DistinctRows(a + b)
  {
    var l := a + b;
    forall i, j | 0 <= i < j < |l| ensures l[i].row.id != l[j].row.id {
      if i < |a| && j >= |a| { assert l[i] in a && l[j] in b; }
    }
  }

  // ----- What a preorder promises -----

  /** Entry j is the parent of entry i, and everything between them lies at least as deep as i. */
  ghost predicate InsideBlockOf<K(!new)>(l: seq<Placed<K>>, i: nat, j: nat)
    requires i < |l|
  {
    && j < i && l[j].depth + 1 == l[i].depth && Some(l[j].row.id) == l[i].row.parent
    && forall k :: j < k <= i ==> l[k].depth >= l[i].depth
  }

  /** Each entry lies in its parent's contiguous block, one deeper; entries at the top depth hang off p. */
  ghost predicate Nested<K(!new)>(l: seq<Placed<K>>, base: nat, p: Option<K>) {
    forall i: nat :: i < |l| ==>
      && l[i].depth >= base
      && (l[i].depth == base ==> l[i].row.parent == p)
      && (l[i].depth > base ==> exists j: nat :: InsideBlockOf(l, i, j))
  }

  lemma ShiftBlock<K(!new)>(l: seq<Placed<K>>, part: seq<Placed<K>>, off: nat, i: nat, j: nat)
    requires off + |part| <= |l| && (forall n :: off <= n < off + |part| ==> l[n] == part[n - off])
    requires i < |part| && InsideBlockOf(part, i, j)
    ensures InsideBlockOf(l, off + i, off + j)
  {
    assert l[off + i] == part[i] && l[off + j] == part[j];
    forall k | off + j < k <= off + i ensures l[k].depth >= l[off + i].depth {
      assert l[k] == part[k - off];
    }
  }

  lemma FirstBlock<K(!new)>(l: seq<Placed<K>>, k: Placed<K>, sub: seq<Placed<K>>, i: nat)
    requires |sub| < |l| && l[0] == k && (forall n :: 1 <= n < 1 + |sub| ==> l[n] == sub[n - 1])
    requires Nested(sub, k.depth + 1, Some(k.row.id))
    requires 1 <= i < 1 + |sub| && l[i].depth == k.depth + 1
    ensures InsideBlockOf(l, i, 0)
  {
    assert l[i] == sub[i - 1];
  }

  lemma NestedGlue<K(!new)>(k: Placed<K>, sub: seq<Placed<K>>, rest: seq<Placed<K>>)
    requires Nested(sub, k.depth + 1, Some(k.row.id)) && Nested(rest, k.depth, k.row.parent)
    ensures Nested([k] + sub + rest, k.depth, k.row.parent)
  {
    hide InsideBlockOf;
    var l, m := [k] + sub + rest, 1 + |sub|;
    forall i: nat | i < |l| && l[i].depth > k.depth ensures exists j: nat :: InsideBlockOf(l, i, j) {
      if i < m {
        assert l[i] == sub[i - 1];
        if l[i].depth == k.depth + 1 {
          FirstBlock(l, k, sub, i);
        } else {
          var j: nat :| InsideBlockOf(sub, i - 1, j);
          ShiftBlock(l, sub, 1, i - 1, j);
        }
      } else {
        assert l[i] == rest[i - m];
        var j: nat :| InsideBlockOf(rest, i - m, j);
        ShiftBlock(l, rest, m, i - m, j);
      }
    }
  }

  lemma {:induction false} ListingNested<K(!new)>(rows: seq<Row<K>>, kids: seq<Row<K>>, path: Chain<K>)
    requires UniqueIds(rows) && IsChain(rows, path) && KidsOf(rows, kids, path)
    ensures Nested(Listing(rows, kids, path), Length(path), Tip(path))
    decreases Ids(rows) - Nodes(path), kids
  {
    hide Listing, KidsOf, Nested;
    if kids == [] {
      NothingListed(rows, path);
      assert Nested<K>([], Length(path), Tip(path)) by { EmptyNested<K>(Length(path), Tip(path)); }
    } else {
      var k := kids[0];
      Unfold(rows, kids, path);
      KidRow(rows, kids, path, k);
      assert k.id in Ids(rows) - Nodes(path);
      ListingNested(rows, Children(rows, Some(k.id)), Down(path, k.id));
      ListingNested(rows, kids[1..], path);
      NestedGlue(Placed(k, Length(path)), Subtree(rows, Down(path, k.id)), Listing(rows, kids[1..], path));
    }
  }

  lemma EmptyNested<K(!new)>(base: nat, p: Option<K>)
    ensures Nested<K>([], base, p)
  {}

  /** The listed rows with a given parent, in listing order. */
  function WithParent<K(==, !new)>(l: seq<Placed<K>>, p: Option<K>): seq<Row<K>> {
    if l == [] then [] else (if l[0].row.parent == p then [l[0].row] else []) + WithParent(l[1..], p)
  }

  /** Rows with one parent stand in the listing in the order they are picked out of it. */
  lemma {:induction false} PickedInOrder<K(!new)>(l: seq<Placed<K>>, p: Option<K>, a: nat, b: nat)
    returns (i: nat, j: nat)
    requires a < b < |WithParent(l, p)|
    ensures i < j < |l| && l[i].row == WithParent(l, p)[a] && l[j].row == WithParent(l, p)[b]
    decreases |l|
  {
    var rest := WithParent(l[1..], p);
    if l[0].row.parent != p {
      i, j := PickedInOrder(l[1..], p, a, b);
      i, j := i + 1, j + 1;
    } else if a > 0 {
      i, j := PickedInOrder(l[1..], p, a - 1, b - 1);
      i, j := i + 1, j + 1;
    } else {
      j := Picked(l[1..], p, b - 1);
      i, j := 0, j + 1;
    }
  }

  lemma {:induction false} Picked<K(!new)>(l: seq<Placed<K>>, p: Option<K>, b: nat) returns (j: nat)
    requires b < |WithParent(l, p)|
    ensures j < |l| && l[j].row == WithParent(l, p)[b]
    decreases |l|
  {
    if l[0].row.parent == p && b == 0 {
      j := 0;
    } else {
      j := Picked(l[1..], p, if l[0].row.parent == p then b - 1 else b);
      j := j + 1;
    }
  }

  lemma WithParentOfNone<K(!new)>(p: Option<K>)
    ensures WithParent<K>([], p) == []
  {}

  lemma WithParentCons<K(!new)>(x: Placed<K>, l: seq<Placed<K>>, p: Option<K>)
    ensures WithParent([x] + l, p) == (if x.row.parent == p then [x.row] else []) + WithParent(l, p)
  {
    assert ([x] + l)[1..] == l;
  }

  lemma {:induction false} WithParentAppend<K(!new)>(a: seq<Placed<K>>, b: seq<Placed<K>>, p: Option<K>)
    ensures WithParent(a + b, p) == WithParent(a, p) + WithParent(b, p)
    decreases |a|
  {
    hide WithParent;
    if a == [] {
      assert a + b == b;
      WithParentOfNone<K>(p);
    } else {
      assert a + b == [a[0]] + (a[1..] + b) && a == [a[0]] + a[1..];
      WithParentCons(a[0], a[1..] + b, p);
      WithParentCons(a[0], a[1..], p);
      WithParentAppend(a[1..], b, p);
    }
  }

  lemma {:induction false} WithoutParent<K(!new)>(l: seq<Placed<K>>, p: Option<K>)
    requires forall x :: x in l ==> x.row.parent != p
    ensures WithParent(l, p) == []
    decreases |l|
  {
    if l != [] {
      assert l[0] in l;
      WithoutParent(l[1..], p);
    }
  }

  lemma WithParentThree<K(!new)>(a: seq<Placed<K>>, b: seq<Placed<K>>, c: seq<Placed<K>>, p: Option<K>)
    ensures WithParent(a + b + c, p) == WithParent(a, p) + WithParent(b, p) + WithParent(c, p)
  {
    WithParentAppend(a + b, c, p);
    WithParentAppend(a, b, p);
  }

  /** The children of the path's end are exactly the ones listed, in their order. */
  lemma TopSiblings<K(!new)>(rows: seq<Row<K>>, kids: seq<Row<K>>, path: Chain<K>)
    requires UniqueIds(rows) && IsChain(rows, path) && KidsOf(rows, kids, path) && kids != []
    requires WithParent(Listing(rows, kids[1..], path), Tip(path)) == kids[1..]
    ensures WithParent(Listing(rows, kids, path), Tip(path)) == kids
  {
    hide Listing, KidsOf;
    var k := kids[0];
    Unfold(rows, kids, path);
    KidRow(rows, kids, path, k);
    var head, sub, rest := [Placed(k, Length(path))], Subtree(rows, Down(path, k.id)), Listing(rows, kids[1..], path);
    forall y | y in sub ensures y.row.parent != Tip(path) {
      var c := BelowFirst(rows, kids, path, y);
      DeeperTip(rows, c.up, path, k.id);
    }
    WithoutParent(sub, Tip(path));
    WithParentThree(head, sub, rest, Tip(path));
    assert WithParent(head, Tip(path)) == [k] + WithParent(head[1..], Tip(path));
    assert kids == [k] + kids[1..];
  }

  lemma SiblingsBelowFirst<K(!new)>(rows: seq<Row<K>>, kids: seq<Row<K>>, path: Chain<K>, x: Placed<K>)
    requires UniqueIds(rows) && IsChain(rows, path) && KidsOf(rows, kids, path) && kids != []
    requires x == Placed(kids[0], Length(path)) || x in Subtree(rows, Down(path, kids[0].id))
    ensures WithParent(Listing(rows, kids, path), Some(x.row.id))
            == WithParent(Subtree(rows, Down(path, kids[0].id)), Some(x.row.id))
  {
    hide Listing, KidsOf;
    var k, p := kids[0], Some(x.row.id);
    Unfold(rows, kids, path);
    KidRow(rows, kids, path, k);
    var head, sub, rest := [Placed(k, Length(path))], Subtree(rows, Down(path, k.id)), Listing(rows, kids[1..], path);
    forall y | y in rest ensures y.row.parent != p { ParentsApart(rows, kids, path, x, y); }
    WithoutParent(rest, p);
    var c := BelowFirst(rows, kids, path, x);
    TipNotBelow(rows, c, path, k.id);
    WithoutParent(head, p);
    WithParentThree(head, sub, rest, p);
  }

  lemma SiblingsBelowRest<K(!new)>(rows: seq<Row<K>>, kids: seq<Row<K>>, path: Chain<K>, x: Placed<K>)
    requires UniqueIds(rows) && IsChain(rows, path) && KidsOf(rows, kids, path) && kids != []
    requires x in Listing(rows, kids[1..], path)
    ensures WithParent(Listing(rows, kids, path), Some(x.row.id))
            == WithParent(Listing(rows, kids[1..], path), Some(x.row.id))
  {
    hide Listing, KidsOf;
    var k, p := kids[0], Some(x.row.id);
    Unfold(rows, kids, path);
    var head, sub, rest := [Placed(k, Length(path))], Subtree(rows, Down(path, k.id)), Listing(rows, kids[1..], path);
    forall y | y in head ensures y.row.parent != p { ChildrenApart(rows, kids, path, x, y); }
    forall y | y in sub ensures y.row.parent != p { ChildrenApart(rows, kids, path, x, y); }
    WithoutParent(head, p);
    WithoutParent(sub, p);
    WithParentThree(head, sub, rest, p);
  }

  lemma {:induction false} SiblingsInOrder<K(!new)>(rows: seq<Row<K>>, kids: seq<Row<K>>, path: Chain<K>)
    requires UniqueIds(rows) && IsChain(rows, path) && KidsOf(rows, kids, path)
    ensures WithParent(Listing(rows, kids, path), Tip(path)) == kids
    ensures forall x :: x in Listing(rows, kids, path) ==>
              WithParent(Listing(rows, kids, path), Some(x.row.id)) == Children(rows, Some(x.row.id))
    decreases Ids(rows) - Nodes(path), kids
  {
    hide Listing, KidsOf, WithParent, Children;
    if kids == [] {
      NothingListed(rows, path);
      assert WithParent<K>([], Tip(path)) == [] by { WithoutParent<K>([], Tip(path)); }
    } else {
      var k := kids[0];
      Unfold(rows, kids, path);
      assert k.id in Ids(rows) - Nodes(path);
      var below := Down(path, k.id);
      SiblingsInOrder(rows, Children(rows, Some(k.id)), below);
      SiblingsInOrder(rows, kids[1..], path);
      TopSiblings(rows, kids, path);
      forall x | x in Listing(rows, kids, path)
        ensures WithParent(Listing(rows, kids, path), Some(x.row.id)) == Children(rows, Some(x.row.id))
      {
        if x in Listing(rows, kids[1..], path) {
          SiblingsBelowRest(rows, kids, path, x);
        } else {
          SiblingsBelowFirst(rows, kids, path, x);
        }
      }
    }
  }

  /** Below a step from path, no chain ends where path does. */
  lemma DeeperTip<K(!new)>(rows: seq<Row<K>>, c: Chain<K>, path: Chain<K>, id: K)
    requires IsChain(rows, c) && Extends(c, Down(path, id))
    ensures Tip(c) != Tip(path)
  {
    UpOne(rows, c, path, id);
    ExtendsIsChain(rows, c.up, path);
  }

  lemma TipNotBelow<K(!new)>(rows: seq<Row<K>>, c: Chain<K>, path: Chain<K>, id: K)
    requires IsChain(rows, c) && Extends(c, Down(path, id))
    ensures c.Down? && Tip(path) != Some(c.id)
  {
    DeeperTip(rows, c, path, id);
    UpOne(rows, c, path, id);
  }

  /** A row below a later child never hangs off one at or below the first. */
  lemma ParentsApart<K(!new)>(rows: seq<Row<K>>, kids: seq<Row<K>>, path: Chain<K>, x: Placed<K>, y: Placed<K>)
    requires UniqueIds(rows) && IsChain(rows, path) && KidsOf(rows, kids, path) && kids != []
    requires x == Placed(kids[0], Length(path)) || x in Subtree(rows, Down(path, kids[0].id))
    requires y in Listing(rows, kids[1..], path)
    ensures y.row.parent != Some(x.row.id)
  {
    hide Listing, KidsOf;
    var k := kids[0];
    KidsDiffer(rows, kids, path);
    Unfold(rows, kids, path);
    var c := BelowFirst(rows, kids, path, x);
    var d := ListsOnlyBelow(rows, kids[1..], path, y);
    var l :| l in kids[1..] && Extends(d, Down(path, l.id));
    if y.row.parent == Some(x.row.id) {
      ChainUnique(rows, c, d.up, x.row.id);
      KidRow(rows, kids, path, k);
      KidRow(rows, kids, path, l);
      if d == Down(path, l.id) {
        DeeperTip(rows, c, path, k.id);
      } else {
        OneStep(rows, c, path, k.id, l.id);
        SameRow(rows, k, l);
      }
    }
  }

  lemma ChildrenApart<K(!new)>(rows: seq<Row<K>>, kids: seq<Row<K>>, path: Chain<K>, x: Placed<K>, y: Placed<K>)
    requires UniqueIds(rows) && IsChain(rows, path) && KidsOf(rows, kids, path) && kids != []
    requires y == Placed(kids[0], Length(path)) || y in Subtree(rows, Down(path, kids[0].id))
    requires x in Listing(rows, kids[1..], path)
    ensures y.row.parent != Some(x.row.id)
  {
    hide Listing, KidsOf;
    var k := kids[0];
    KidsDiffer(rows, kids, path);
    Unfold(rows, kids, path);
    var c := BelowFirst(rows, kids, path, y);
    var d := ListsOnlyBelow(rows, kids[1..], path, x);
    var l :| l in kids[1..] && Extends(d, Down(path, l.id));
    if y.row.parent == Some(x.row.id) {
      ChainUnique(rows, d, c.up, x.row.id);
      KidRow(rows, kids, path, k);
      KidRow(rows, kids, path, l);
      if c == Down(path, k.id) {
        DeeperTip(rows, d, path, l.id);
      } else {
        OneStep(rows, d, path, k.id, l.id);
        SameRow(rows, k, l);
      }
    }
  }

  // ----- Everything is listed exactly when the parent links have no loop -----

  ghost function ParentLinks<K(!new)>(rows: seq<Row<K>>): (e: set<(K, K)>)
    ensures forall a, b :: (a, b) in e <==> Row(a, Some(b)) in rows
  {
    set r | r in rows && r.parent.Some? :: (r.id, r.parent.value)
  }

  /** Every parent named is itself listed. */
  ghost predicate Resolved<K(!new)>(rows: seq<Row<K>>) {
    forall r :: r in rows && r.parent.Some? ==> r.parent.value in Ids(rows)
  }

  lemma {:induction false} ChainUpward<K(!new)>(rows: seq<Row<K>>, r: Row<K>, seen: set<K>) returns (c: Chain<K>)
    requires UniqueIds(rows) && Resolved(rows) && Acyclic(ParentLinks(rows)) && r in rows
    requires forall s :: s in seen ==> StrictlyReaches(ParentLinks(rows), s, r.id)
    ensures ChainTo(rows, c, r.id)
    decreases Ids(rows) - seen
  {
    var e := ParentLinks(rows);
    if r.parent.None? {
      c := Down(Top, r.id);
    } else {
      var p :| p in rows && p.id == r.parent.value;
      EdgeReaches(e, r.id, p.id);
      forall s | s in seen + {r.id} ensures StrictlyReaches(e, s, p.id) {
        if s in seen {
          assert Reaches(e, s, r.id) by { var n: nat :| n > 0 && Walk(e, s, r.id, n); }
          ReachesTrans(e, s, r.id, p.id);
        }
      }
      assert r.id !in seen;
      var up := ChainUpward(rows, p, seen + {r.id});
      ExtendChain(rows, up, r);
      c := Down(up, r.id);
    }
  }

  lemma {:induction false} ChainsShorten<K(!new)>(rows: seq<Row<K>>, c: Chain<K>, d: Chain<K>, a: K, b: K, n: nat)
    requires UniqueIds(rows) && ChainTo(rows, c, a) && ChainTo(rows, d, b) && Walk(ParentLinks(rows), a, b, n)
    ensures Length(c) == Length(d) + n
    decreases n
  {
    if n == 0 {
      ChainUnique(rows, c, d, a);
    } else {
      var p :| (a, p) in ParentLinks(rows) && Walk(ParentLinks(rows), p, b, n - 1);
      SameRow(rows, Row(a, Tip(c.up)), Row(a, Some(p)));
      ChainsShorten(rows, c.up, d, p, b, n - 1);
    }
  }

  /** Roots reach every row exactly when no parent link leads back to where it started. */
  lemma RootedIffAcyclic<K(!new)>(rows: seq<Row<K>>)
    requires UniqueIds(rows) && Resolved(rows)
    ensures (forall r :: r in rows ==> Rooted(rows, r.id)) <==> Acyclic(ParentLinks(rows))
  {
    var e := ParentLinks(rows);
    if Acyclic(e) {
      forall r | r in rows ensures Rooted(rows, r.id) { var c := ChainUpward(rows, r, {}); }
    }
    if forall r :: r in rows ==> Rooted(rows, r.id) {
      forall a ensures !StrictlyReaches(e, a, a) {
        if StrictlyReaches(e, a, a) {
          var n: nat :| n > 0 && Walk(e, a, a, n);
          var p :| (a, p) in e;
          assert Row(a, Some(p)) in rows;
          var c :| ChainTo(rows, c, a);
          ChainsShorten(rows, c, c, a, a, n);
        }
      }
    }
  }

  /** The whole listing: all rows under the roots. */
  ghost function TreeOrder<K(!new)>(rows: seq<Row<K>>): seq<Placed<K>> {
    Subtree(rows, Top)
  }

  /** The listing holds each rooted row once, at its depth, and nothing else. */
  lemma TreeOrderHolds<K(!new)>(rows: seq<Row<K>>)
    requires UniqueIds(rows)
    ensures DistinctRows(TreeOrder(rows))
    ensures forall x :: x in TreeOrder(rows) ==> x.row in rows
    ensures forall r :: r in rows ==> (Rooted(rows, r.id) <==> exists x :: x in TreeOrder(rows) && x.row == r)
    ensures Nested(TreeOrder(rows), 0, None)
    ensures WithParent(TreeOrder(rows), None) == Children(rows, None)
    ensures forall x :: x in TreeOrder(rows) ==>
            WithParent(TreeOrder(rows), Some(x.row.id)) == Children(rows, Some(x.row.id))
  {
    hide Listing, Nested, WithParent;
    var kids := Children(rows, None);
    ChildrenAreKids(rows, None);
    ListsEachOnce(rows, kids, Top);
    ListingNested(rows, kids, Top);
    SiblingsInOrder(rows, kids, Top);
    forall x | x in TreeOrder(rows) ensures x.row in rows && Rooted(rows, x.row.id) {
      var c := ListsOnlyBelow(rows, kids, Top, x);
    }
    forall r | r in rows && Rooted(rows, r.id) ensures exists x :: x in TreeOrder(rows) && x.row == r {
      var c :| ChainTo(rows, c, r.id);
      SameRow(rows, Row(c.id, Tip(c.up)), r);
      ExtendsTop(c);
      var id := NextStep(rows, c, Top);
      assert Row(id, None) in kids;
      ListsAllBelow(rows, kids, Top, c, Placed(r, Length(c.up)));
    }
  }

  ghost function RowSet<K(!new)>(l: seq<Placed<K>>): (s: set<Row<K>>)
    ensures forall r :: r in s <==> exists x :: x in l && x.row == r
  {
    set x | x in l :: x.row
  }

  lemma {:induction false} DistinctRowsSize<K(!new)>(l: seq<Placed<K>>)
    requires DistinctRows(l)
    ensures |RowSet(l)| == |l|
    decreases |l|
  {
    if l == [] {
      assert RowSet(l) == {};
    } else {
      var init, last := l[..|l| - 1], l[|l| - 1];
      assert l == init + [last];
      DistinctRowsSize(init);
      assert RowSet(l) == RowSet(init) + {last.row};
      assert last.row !in RowSet(init);
    }
  }

  lemma {:induction false} UniqueIdsSize<K(!new)>(rows: seq<Row<K>>)
    requires UniqueIds(rows)
    ensures |set r | r in rows| == |rows|
    decreases |rows|
  {
    if rows == [] {
      assert (set r | r in rows) == {};
    } else {
      var init, last := rows[..|rows| - 1], rows[|rows| - 1];
      assert rows == init + [last];
      UniqueIdsSize(init);
      assert (set r | r in rows) == (set r | r in init) + {last};
      assert last !in init;
    }
  }

  lemma SameSizeSame<T>(a: set<T>, b: set<T>)
    requires a <= b && |a| == |b|
    ensures a == b
  {
    assert |b| == |b - a| + |a|;
  }

  /** The length test: the listing is as long as the input exactly when the roots reach every row. */
  lemma ListedAllIffRooted<K(!new)>(rows: seq<Row<K>>)
    requires UniqueIds(rows)
    ensures |TreeOrder(rows)| == |rows| <==> forall r :: r in rows ==> Rooted(rows, r.id)
    ensures (forall r :: r in rows ==> Rooted(rows, r.id)) ==> RowSet(TreeOrder(rows)) == set r | r in rows
  {
    hide TreeOrder, Children, Nested, WithParent, Rooted;
    TreeOrderHolds(rows);
    var listed, all := RowSet(TreeOrder(rows)), set r | r in rows;
    DistinctRowsSize(TreeOrder(rows));
    UniqueIdsSize(rows);
    assert listed <= all;
    if |TreeOrder(rows)| == |rows| {
      SameSizeSame(listed, all);
      forall r | r in rows ensures Rooted(rows, r.id) { assert r in listed; }
    }
    if forall r :: r in rows ==> Rooted(rows, r.id) {
      forall r | r in rows ensures r in listed { assert Rooted(rows, r.id); }
      assert listed == all;
    }
  }

  lemma {:induction false} ExtendsTop<K(!new)>(c: Chain<K>)
    ensures Extends(c, Top)
    decreases c
  {
    if c.Down? { ExtendsTop(c.up); }
  }

  lemma DownShrinks<K(!new)>(rows: seq<Row<K>>, path: Chain<K>, id: K)
    requires id in Ids(rows) && id !in Nodes(path)
    ensures Ids(rows) - Nodes(Down(path, id)) < Ids(rows) - Nodes(path)
  {
    assert id in Ids(rows) - Nodes(path);
  }

  lemma AllChildren<K(!new)>(rows: seq<Row<K>>, path: Chain<K>)
    requires UniqueIds(rows)
    ensures KidsOf(rows, Children(rows, Tip(path)), path)
  {
    ChildrenAreKids(rows, Tip(path));
  }

  // ----- The walk -----

  /** The map from parent to children that each walk starts from. */
  method BuildChildren<K(==, !new)>(rows: seq<Row<K>>) returns (byParent: map<Option<K>, seq<Row<K>>>)
    ensures forall p :: Lookup(byParent, p) == Children(rows, p)
  {
    byParent := map[];
    var i := 0;
    while i < |rows|
      invariant 0 <= i <= |rows|
      invariant forall p :: Lookup(byParent, p) == Children(rows[..i], p)
    {
      var r := rows[i];
      assert rows[..i + 1][..|rows[..i + 1]| - 1] == rows[..i] && rows[..i + 1][|rows[..i + 1]| - 1] == r;
      byParent := byParent[r.parent := Lookup(byParent, r.parent) + [r]];
      i := i + 1;
    }
    assert rows[..i] == rows;
  }

  function Lookup<K(==)>(byParent: map<Option<K>, seq<Row<K>>>, p: Option<K>): seq<Row<K>> {
    if p in byParent then byParent[p] else []
  }

  class Walker<K(==, !new)> {
    const rows: seq<Row<K>>
    const byParent: map<Option<K>, seq<Row<K>>>
    var out: seq<Placed<K>>

    ghost predicate Valid() {
      UniqueIds(rows) && forall p :: Lookup(byParent, p) == Children(rows, p)
    }

    constructor (rows: seq<Row<K>>)
      requires UniqueIds(rows)
      ensures Valid() && this.rows == rows && out == []
    {
      var m := BuildChildren(rows);
      this.rows, byParent, out := rows, m, [];
    }

    /** Append every child of parent, each followed by its own. Ends even when the links contain loops. */
    method Walk(parent: Option<K>, depth: nat, ghost path: Chain<K>)
      requires Valid() && IsChain(rows, path) && Tip(path) == parent && Length(path) == depth
      modifies this
      ensures out == old(out) + Subtree(rows, path)
      decreases Ids(rows) - Nodes(path)
    {
      hide Listing, KidsOf, Children, UniqueIds, Lookup, Ids, Nodes;
      var kids := Lookup(byParent, parent);
      AllChildren(rows, path);
      var i := 0;
      while i < |kids|
        invariant 0 <= i <= |kids|
        invariant KidsOf(rows, kids[i..], path)
        invariant out + Listing(rows, kids[i..], path) == old(out) + Listing(rows, kids, path)
      {
        var k := kids[i];
        assert kids[i..][0] == k && kids[i..][1..] == kids[i + 1..];
        Unfold(rows, kids[i..], path);
        DownShrinks(rows, path, k.id);
        out := out + [Placed(k, depth)];
        Walk(Some(k.id), depth + 1, Down(path, k.id));
        i := i + 1;
      }
      assert kids[i..] == [];
      NothingListed(rows, path);
    }
  }

  method ListTree<K(==, !new)>(rows: seq<Row<K>>) returns (out: seq<Placed<K>>)
    requires UniqueIds(rows)
    ensures out == TreeOrder(rows)
  {
    var walker := new Walker(rows);
    walker.Walk(None, 0, Top);
    out := walker.out;
  }
}
