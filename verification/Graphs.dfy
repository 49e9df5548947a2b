/**
 Finite directed graphs as sets of edges, and what the rest of the project needs to know about
 walking them: composing and splitting walks, closed sets, and when adding edges keeps a graph
 free of cycles. Supervisor links, task parents, dependencies and template trees are all such graphs.
 */
module Graphs {

  /** There is a walk of exactly n edges from a to b. */
  ghost predicate Walk<T(!new)>(e: set<(T, T)>, a: T, b: T, n: nat)
    decreases n
  {
    if n == 0 then a == b else exists c :: (a, c) in e && Walk(e, c, b, n - 1)
  }

  /** b is reached from a by zero or more edges. */
  ghost predicate Reaches<T(!new)>(e: set<(T, T)>, a: T, b: T) {
    exists n: nat :: Walk(e, a, b, n)
  }

  /** b is reached from a by one or more edges. */
  ghost predicate StrictlyReaches<T(!new)>(e: set<(T, T)>, a: T, b: T) {
    exists n: nat :: n > 0 && Walk(e, a, b, n)
  }

  ghost predicate Acyclic<T(!new)>(e: set<(T, T)>) {
    forall a :: !StrictlyReaches(e, a, a)
  }

  /** No node has two outgoing edges: the graph of any parent column. */
  ghost predicate Functional<T(!new)>(e: set<(T, T)>) {
    forall a, b, c :: (a, b) in e && (a, c) in e ==> b == c
  }

  /** No edge leaves s. */
  ghost predicate Closed<T(!new)>(e: set<(T, T)>, s: set<T>) {
    forall a, b :: (a, b) in e && a in s ==> b in s
  }

  /** The graph of a nullable column: one edge per row whose column is set. */
  ghost function Links<T(!new)>(m: map<T, T>): (e: set<(T, T)>)
    ensures forall a, b :: (a, b) in e <==> a in m && m[a] == b
  {
    set a | a in m :: (a, m[a])
  }

  lemma SameEdges<T(!new)>(e: set<(T, T)>, f: set<(T, T)>)
    requires forall a, b :: (a, b) in e <==> (a, b) in f
    ensures e == f
  {
    forall x ensures x in e <==> x in f { assert x == (x.0, x.1); }
  }

  lemma EdgeReaches<T(!new)>(e: set<(T, T)>, a: T, b: T)
    requires (a, b) in e
    ensures Walk(e, a, b, 1) && Reaches(e, a, b) && StrictlyReaches(e, a, b)
  {
    assert Walk(e, b, b, 0);
    assert Walk(e, a, b, 1);
  }

  lemma SelfReaches<T(!new)>(e: set<(T, T)>, a: T)
    ensures Reaches(e, a, a)
  {
    assert Walk(e, a, a, 0);
  }

  lemma {:induction false} WalkConcat<T(!new)>(e: set<(T, T)>, a: T, b: T, c: T, m: nat, n: nat)
    requires Walk(e, a, b, m) && Walk(e, b, c, n)
    ensures Walk(e, a, c, m + n)
    decreases m
  {
    if m > 0 {
      var d :| (a, d) in e && Walk(e, d, b, m - 1);
      WalkConcat(e, d, b, c, m - 1, n);
      assert (a, d) in e && Walk(e, d, c, m + n - 1);
    }
  }

  lemma ReachesTrans<T(!new)>(e: set<(T, T)>, a: T, b: T, c: T)
    requires Reaches(e, a, b) && Reaches(e, b, c)
    ensures Reaches(e, a, c)
    ensures StrictlyReaches(e, a, b) || StrictlyReaches(e, b, c) ==> StrictlyReaches(e, a, c)
  {
    var m: nat :| Walk(e, a, b, m) && (StrictlyReaches(e, a, b) ==> m > 0);
    var n: nat :| Walk(e, b, c, n) && (StrictlyReaches(e, b, c) ==> n > 0);
    WalkConcat(e, a, b, c, m, n);
  }

  lemma StrictUnlessSame<T(!new)>(e: set<(T, T)>, a: T, b: T)
    requires Reaches(e, a, b) && a != b
    ensures StrictlyReaches(e, a, b)
  {
    var n: nat :| Walk(e, a, b, n);
    assert n > 0;
  }

  lemma StrictWalk<T(!new)>(e: set<(T, T)>, a: T, b: T, n: nat)
    requires n > 0 && Walk(e, a, b, n)
    ensures StrictlyReaches(e, a, b)
  {}

  /** Every walk of one or more edges starts with an edge. */
  lemma FirstStep<T(!new)>(e: set<(T, T)>, a: T, b: T) returns (c: T)
    requires StrictlyReaches(e, a, b)
    ensures (a, c) in e && Reaches(e, c, b)
  {
    var n: nat :| n > 0 && Walk(e, a, b, n);
    c :| (a, c) in e && Walk(e, c, b, n - 1);
  }

  /** Every walk of one or more edges ends with an edge. */
  lemma {:induction false} LastStep<T(!new)>(e: set<(T, T)>, a: T, b: T, n: nat) returns (c: T)
    requires n > 0 && Walk(e, a, b, n)
    ensures Walk(e, a, c, n - 1) && (c, b) in e
    decreases n
  {
    var d :| (a, d) in e && Walk(e, d, b, n - 1);
    if n == 1 {
      c := a;
    } else {
      c := LastStep(e, d, b, n - 1);
      assert (a, d) in e && Walk(e, d, c, n - 2);
    }
  }

  lemma {:induction false} WalkMono<T(!new)>(e: set<(T, T)>, f: set<(T, T)>, a: T, b: T, n: nat)
    requires e <= f && Walk(e, a, b, n)
    ensures Walk(f, a, b, n)
    decreases n
  {
    if n > 0 {
      var c :| (a, c) in e && Walk(e, c, b, n - 1);
      WalkMono(e, f, c, b, n - 1);
      assert (a, c) in f && Walk(f, c, b, n - 1);
    }
  }

  /** Removing edges never creates a cycle. */
  lemma FewerEdgesAcyclic<T(!new)>(e: set<(T, T)>, f: set<(T, T)>)
    requires e <= f && Acyclic(f)
    ensures Acyclic(e)
  {
    forall a ensures !StrictlyReaches(e, a, a) {
      if StrictlyReaches(e, a, a) {
        var n: nat :| n > 0 && Walk(e, a, a, n);
        WalkMono(e, f, a, a, n);
        assert StrictlyReaches(f, a, a);
      }
    }
  }

  /** A walk that starts in a closed set stays there. */
  lemma {:induction false} ClosedWalk<T(!new)>(e: set<(T, T)>, s: set<T>, a: T, b: T, n: nat)
    requires Closed(e, s) && a in s && Walk(e, a, b, n)
    ensures b in s
    decreases n
  {
    if n > 0 {
      var c :| (a, c) in e && Walk(e, c, b, n - 1);
      ClosedWalk(e, s, c, b, n - 1);
    }
  }

  /** A set entered by every edge that points into it holds everyone who reaches it. */
  lemma {:induction false} BackClosedWalk<T(!new)>(e: set<(T, T)>, s: set<T>, a: T, b: T, n: nat)
    requires forall x, y :: (x, y) in e && y in s ==> x in s
    requires b in s && Walk(e, a, b, n)
    ensures a in s
    decreases n
  {
    if n > 0 {
      var c :| (a, c) in e && Walk(e, c, b, n - 1);
      BackClosedWalk(e, s, c, b, n - 1);
    }
  }

  lemma ClosedNotReached<T(!new)>(e: set<(T, T)>, s: set<T>, a: T, b: T)
    requires Closed(e, s) && a in s && b !in s
    ensures !Reaches(e, a, b)
  {
    if Reaches(e, a, b) {
      var n: nat :| Walk(e, a, b, n);
      ClosedWalk(e, s, a, b, n);
    }
  }

  /** Where every node has at most one way on, of two nodes reached from one start, one reaches the other. */
  lemma {:induction false} Comparable<T(!new)>(e: set<(T, T)>, a: T, b: T, c: T, m: nat, n: nat)
    requires Functional(e) && m <= n && Walk(e, a, b, m) && Walk(e, a, c, n)
    ensures Walk(e, b, c, n - m)
    decreases m
  {
    if m > 0 {
      var d :| (a, d) in e && Walk(e, d, b, m - 1);
      Comparable(e, d, b, c, m - 1, n - 1);
    }
  }

  lemma ReachedAreComparable<T(!new)>(e: set<(T, T)>, a: T, b: T, c: T)
    requires Functional(e) && Reaches(e, a, b) && Reaches(e, a, c)
    ensures Reaches(e, b, c) || Reaches(e, c, b)
  {
    var m: nat :| Walk(e, a, b, m);
    var n: nat :| Walk(e, a, c, n);
    if m <= n { Comparable(e, a, b, c, m, n); } else { Comparable(e, a, c, b, n, m); }
  }

  /** A walk that may use one extra edge either does not need it or passes through it. */
  lemma {:induction false} WalkWithExtraEdge<T(!new)>(e: set<(T, T)>, u: T, v: T, a: T, b: T, n: nat)
    requires Walk(e + {(u, v)}, a, b, n)
    ensures (Reaches(e, a, b) && (n > 0 ==> StrictlyReaches(e, a, b)))
            || (Reaches(e, a, u) && Reaches(e, v, b))
    decreases n
  {
    if n == 0 {
      SelfReaches(e, a);
    } else {
      var c :| (a, c) in e + {(u, v)} && Walk(e + {(u, v)}, c, b, n - 1);
      WalkWithExtraEdge(e, u, v, c, b, n - 1);
      if (a, c) in e {
        EdgeReaches(e, a, c);
        if Reaches(e, c, b) { ReachesTrans(e, a, c, b); } else { ReachesTrans(e, a, c, u); }
      } else {
        SelfReaches(e, a);
      }
    }
  }

  /** The check both cycle guards rely on: an edge u -> v closes a cycle only if v reached u before. */
  lemma AddEdgeAcyclic<T(!new)>(e: set<(T, T)>, u: T, v: T)
    requires Acyclic(e) && !Reaches(e, v, u)
    ensures Acyclic(e + {(u, v)})
  {
    var f := e + {(u, v)};
    forall a ensures !StrictlyReaches(f, a, a) {
      if StrictlyReaches(f, a, a) {
        var n: nat :| n > 0 && Walk(f, a, a, n);
        WalkWithExtraEdge(e, u, v, a, a, n);
        assert !StrictlyReaches(e, a, a);
        ReachesTrans(e, v, a, u);
      }
    }
  }

  /** ... and it does close one in that case. */
  lemma AddEdgeCycle<T(!new)>(e: set<(T, T)>, u: T, v: T)
    requires Reaches(e, v, u)
    ensures !Acyclic(e + {(u, v)})
  {
    var f := e + {(u, v)};
    var n: nat :| Walk(e, v, u, n);
    WalkMono(e, f, v, u, n);
    EdgeReaches(f, u, v);
    ReachesTrans(f, u, v, u);
  }

  /** Edges that start at new nodes, and are acyclic among themselves, close no cycle. */
  lemma FreshEdgesAcyclic<T(!new)>(e: set<(T, T)>, f: set<(T, T)>, known: set<T>)
    requires Acyclic(e) && Acyclic(f)
    requires forall a, b :: (a, b) in e ==> a in known && b in known
    requires forall a, b :: (a, b) in f ==> a !in known
    ensures Acyclic(e + f)
  {
    var g := e + f;
    assert Closed(g, known);
    forall a ensures !StrictlyReaches(g, a, a) {
      if StrictlyReaches(g, a, a) {
        var n: nat :| n > 0 && Walk(g, a, a, n);
        if a in known {
          WalkInsideOld(e, f, known, a, a, n);
          assert StrictlyReaches(e, a, a);
        } else {
          WalkOutsideOld(e, f, known, a, a, n);
          assert StrictlyReaches(f, a, a);
        }
      }
    }
  }

  lemma {:induction false} WalkInsideOld<T(!new)>(e: set<(T, T)>, f: set<(T, T)>, known: set<T>, a: T, b: T, n: nat)
    requires forall x, y :: (x, y) in e ==> x in known && y in known
    requires forall x, y :: (x, y) in f ==> x !in known
    requires a in known && Walk(e + f, a, b, n)
    ensures Walk(e, a, b, n)
    decreases n
  {
    if n > 0 {
      var c :| (a, c) in e + f && Walk(e + f, c, b, n - 1);
      WalkInsideOld(e, f, known, c, b, n - 1);
      assert (a, c) in e && Walk(e, c, b, n - 1);
    }
  }

  lemma {:induction false} WalkOutsideOld<T(!new)>(e: set<(T, T)>, f: set<(T, T)>, known: set<T>, a: T, b: T, n: nat)
    requires forall x, y :: (x, y) in e ==> x in known && y in known
    requires forall x, y :: (x, y) in f ==> x !in known
    requires b !in known && Walk(e + f, a, b, n)
    ensures Walk(f, a, b, n)
    decreases n
  {
    if n > 0 {
      var c :| (a, c) in e + f && Walk(e + f, c, b, n - 1);
      WalkOutsideOld(e, f, known, c, b, n - 1);
      assert (a, c) in f && Walk(f, c, b, n - 1);
    }
  }

  /** No loop can be met on the way from a. */
  ghost predicate LoopFreeFrom<T(!new)>(e: set<(T, T)>, a: T) {
    forall v :: Reaches(e, a, v) ==> !StrictlyReaches(e, v, v)
  }

  /** Walking inside a finite set that is never stuck must lead out of it, when no loop is met. */
  lemma {:induction false} LeadsOut<T(!new)>(e: set<(T, T)>, s: set<T>, a: T) returns (b: T)
    requires LoopFreeFrom(e, a) && a in s
    requires forall x :: x in s ==> exists y :: (x, y) in e
    ensures b !in s && StrictlyReaches(e, a, b)
    decreases s
  {
    SelfReaches(e, a);
    var c :| (a, c) in e;
    EdgeReaches(e, a, c);
    if c !in s {
      b := c;
    } else {
      assert a != c;
      forall v | Reaches(e, c, v) ensures !StrictlyReaches(e, v, v) { ReachesTrans(e, a, c, v); }
      b := LeadsOut(e, s - {a}, c);
      ReachesTrans(e, a, c, b);
      assert b != a;
    }
  }

  ghost predicate Injective<A(!new), B>(m: map<A, B>) {
    forall a, b :: a in m && b in m && m[a] == m[b] ==> a == b
  }

  ghost predicate Renames<A(!new), B>(edges: set<(A, A)>, m: map<A, B>, x: B, y: B) {
    exists a, b :: (a, b) in edges && a in m && b in m && m[a] == x && m[b] == y
  }

  /** The edges between renamed nodes, under their new names. */
  function Renamed<A(!new), B(!new, ==)>(edges: set<(A, A)>, m: map<A, B>): (r: set<(B, B)>)
    ensures forall x, y :: (x, y) in r <==> Renames(edges, m, x, y)
  {
    var r := set e | e in edges && e.0 in m && e.1 in m :: (m[e.0], m[e.1]);
    forall x, y ensures (x, y) in r <==> Renames(edges, m, x, y) {
      if Renames(edges, m, x, y) {
        var a, b :| (a, b) in edges && a in m && b in m && m[a] == x && m[b] == y;
        assert (a, b).0 in m && (a, b).1 in m && (m[(a, b).0], m[(a, b).1]) in r;
      }
      if (x, y) in r {
        var e :| e in edges && e.0 in m && e.1 in m && (m[e.0], m[e.1]) == (x, y);
        assert (e.0, e.1) in edges;
      }
    }
    r
  }

  /** Edges between two different nodes. */
  function Unlooped<T(!new, ==)>(edges: set<(T, T)>): (r: set<(T, T)>)
    ensures forall a, b :: (a, b) in r <==> (a, b) in edges && a != b
  {
    set e | e in edges && e.0 != e.1
  }

  lemma {:induction false} RenamedWalk<A(!new), B(!new)>(edges: set<(A, A)>, m: map<A, B>, a: A, y: B, n: nat)
    returns (b: A)
    requires Injective(m) && a in m && Walk(Renamed(edges, m), m[a], y, n)
    ensures b in m && m[b] == y && Walk(edges, a, b, n)
    decreases n
  {
    if n == 0 {
      b := a;
    } else {
      var z :| (m[a], z) in Renamed(edges, m) && Walk(Renamed(edges, m), z, y, n - 1);
      assert Renames(edges, m, m[a], z);
      var a', c :| (a', c) in edges && a' in m && c in m && m[a'] == m[a] && m[c] == z;
      b := RenamedWalk(edges, m, c, y, n - 1);
      assert (a, c) in edges && Walk(edges, c, b, n - 1);
    }
  }

  /** Renaming along an injective map creates no loop. */
  lemma RenamedAcyclic<A(!new), B(!new)>(edges: set<(A, A)>, m: map<A, B>)
    requires Acyclic(edges) && Injective(m)
    ensures Acyclic(Renamed(edges, m))
  {
    var r := Renamed(edges, m);
    forall x ensures !StrictlyReaches(r, x, x) {
      if StrictlyReaches(r, x, x) {
        var n: nat :| n > 0 && Walk(r, x, x, n);
        var y :| (x, y) in r && Walk(r, y, x, n - 1);
        assert Renames(edges, m, x, y);
        var a :| a in m && m[a] == x;
        var b := RenamedWalk(edges, m, a, x, n);
        assert StrictlyReaches(edges, a, a);
      }
    }
  }

  lemma {:induction false} WalkRenamed<A(!new), B(!new)>(edges: set<(A, A)>, m: map<A, B>, a: A, b: A, n: nat)
    requires a in m && (forall x, y :: (x, y) in edges ==> x in m && y in m) && Walk(edges, a, b, n)
    ensures b in m && Walk(Renamed(edges, m), m[a], m[b], n)
    decreases n
  {
    if n > 0 {
      var c :| (a, c) in edges && Walk(edges, c, b, n - 1);
      WalkRenamed(edges, m, c, b, n - 1);
      assert Renames(edges, m, m[a], m[c]);
      assert (m[a], m[c]) in Renamed(edges, m) && Walk(Renamed(edges, m), m[c], m[b], n - 1);
    }
  }

  /** Renaming along an injective map that names every end of an edge neither makes nor hides a loop. */
  lemma RenamedAcyclicIff<A(!new), B(!new)>(edges: set<(A, A)>, m: map<A, B>)
    requires Injective(m) && forall x, y :: (x, y) in edges ==> x in m && y in m
    ensures Acyclic(Renamed(edges, m)) <==> Acyclic(edges)
  {
    if Acyclic(edges) { RenamedAcyclic(edges, m); }
    if Acyclic(Renamed(edges, m)) {
      forall a ensures !StrictlyReaches(edges, a, a) {
        if StrictlyReaches(edges, a, a) {
          var c := FirstStep(edges, a, a);
          var n: nat :| n > 0 && Walk(edges, a, a, n);
          WalkRenamed(edges, m, a, a, n);
          assert StrictlyReaches(Renamed(edges, m), m[a], m[a]);
        }
      }
    }
  }
}
