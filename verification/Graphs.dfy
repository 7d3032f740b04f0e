/** Walks, reachability and cycles in finite directed graphs given by their edges. */
module Graphs {
  datatype Edge<T> = Edge(from: T, to: T)

  /** Each node of `w` is joined to the next by an edge. */
  predicate Walk<T(==)>(edges: seq<Edge<T>>, w: seq<T>) {
    |w| > 0 && forall i :: 0 < i < |w| ==> Edge(w[i - 1], w[i]) in edges
  }

  /** A walk of at least one edge that ends where it starts. */
  predicate ClosedWalk<T(==)>(edges: seq<Edge<T>>, w: seq<T>) {
    Walk(edges, w) && |w| > 1 && w[0] == w[|w| - 1]
  }

  ghost predicate Cyclic<T(!new)>(edges: seq<Edge<T>>) {
    exists w :: ClosedWalk(edges, w)
  }

  ghost predicate Reaches<T(!new)>(edges: seq<Edge<T>>, a: T, b: T) {
    exists w :: Walk(edges, w) && w[0] == a && w[|w| - 1] == b
  }

  lemma PathBetween<T(!new)>(edges: seq<Edge<T>>, a: T, b: T) returns (w: seq<T>)
    requires Reaches(edges, a, b)
    ensures Walk(edges, w) && w[0] == a && w[|w| - 1] == b
  {
    w :| Walk(edges, w) && w[0] == a && w[|w| - 1] == b;
  }

  lemma SingleWalk<T>(edges: seq<Edge<T>>, x: T)
    ensures Walk(edges, [x])
  {}

  lemma WalkSlice<T>(edges: seq<Edge<T>>, w: seq<T>, i: nat, j: nat)
    requires Walk(edges, w) && i < j <= |w|
    ensures Walk(edges, w[i..j])
  {
    forall k | 0 < k < j - i ensures Edge(w[i..j][k - 1], w[i..j][k]) in edges {
      assert Edge(w[i + k - 1], w[i + k]) in edges;
    }
  }

  lemma WalkExtends<T>(edges: seq<Edge<T>>, w: seq<T>, x: T)
    requires Walk(edges, w) && Edge(w[|w| - 1], x) in edges
    ensures Walk(edges, w + [x])
  {}

  /** Two walks that meet make one. */
  lemma WalkJoins<T>(edges: seq<Edge<T>>, v: seq<T>, w: seq<T>)
    requires Walk(edges, v) && Walk(edges, w) && v[|v| - 1] == w[0]
    ensures Walk(edges, v + w[1..])
  {
    var joined := v + w[1..];
    forall k | 0 < k < |joined| ensures Edge(joined[k - 1], joined[k]) in edges {
      if k >= |v| {
        var j := k - |v| + 1;
        assert joined[k] == w[j] && joined[k - 1] == w[j - 1];
        assert Edge(w[j - 1], w[j]) in edges;
      } else {
        assert joined[k] == v[k] && joined[k - 1] == v[k - 1];
      }
    }
  }

  /** A list longer than the set it draws from repeats an element. */
  lemma {:induction false} Pigeonhole<T>(w: seq<T>, s: set<T>) returns (i: nat, j: nat)
    requires (forall x <- w :: x in s) && |w| > |s|
    ensures i < j < |w| && w[i] == w[j]
    decreases |w|
  {
    if w[0] in w[1..] {
      var k :| 0 <= k < |w[1..]| && w[1..][k] == w[0];
      return 0, k + 1;
    }
    forall x <- w[1..] ensures x in s - {w[0]} {
      assert x in w;
    }
    assert w[0] in w;
    i, j := Pigeonhole(w[1..], s - {w[0]});
    i, j := i + 1, j + 1;
  }

  /** Some edge into `y` comes from within `s`. */
  predicate Preceded<T(==)>(edges: seq<Edge<T>>, s: set<T>, y: T) {
    exists e <- edges :: e.to == y && e.from in s
  }

  lemma Predecessor<T>(edges: seq<Edge<T>>, s: set<T>, y: T) returns (x: T)
    requires Preceded(edges, s, y)
    ensures x in s && Edge(x, y) in edges
  {
    var e :| e in edges && e.to == y && e.from in s;
    x := e.from;
    assert e == Edge(x, y);
  }

  /** A walk of `k` edges inside `s` that ends at `x`, where every node of `s` has a predecessor in `s`. */
  lemma {:induction false} WalkBack<T>(edges: seq<Edge<T>>, s: set<T>, x: T, k: nat) returns (w: seq<T>)
    requires x in s && forall y <- s :: Preceded(edges, s, y)
    ensures Walk(edges, w) && |w| == k + 1 && w[k] == x && forall y <- w :: y in s
    decreases k
  {
    hide Preceded, Walk;
    if k == 0 {
      w := [x];
      assert Walk(edges, w) by { SingleWalk(edges, x); }
      return;
    }
    var before := Predecessor(edges, s, x);
    w := WalkBack(edges, s, before, k - 1);
    WalkExtends(edges, w, x);
    w := w + [x];
  }

  /** A non-empty finite set in which every node has a predecessor holds a cycle. */
  lemma Trapped<T(!new)>(edges: seq<Edge<T>>, s: set<T>)
    requires s != {} && forall y <- s :: Preceded(edges, s, y)
    ensures Cyclic(edges)
  {
    hide Preceded, Walk;
    var x :| x in s;
    var w := WalkBack(edges, s, x, |s|);
    var i, j := Pigeonhole(w, s);
    WalkSlice(edges, w, i, j + 1);
    assert ClosedWalk(edges, w[i..j + 1]);
  }

  /** Edges that all go forward in some list of nodes close no walk. */
  lemma ForwardIsAcyclic<T(!new)>(edges: seq<Edge<T>>, order: seq<T>)
    requires forall i, j :: 0 <= i < j < |order| ==> order[i] != order[j]
    requires forall e <- edges :: e.to in order
    requires forall e <- edges, k | 0 <= k < |order| && order[k] == e.to :: e.from in order[..k]
    ensures !Cyclic(edges)
  {
    if w :| ClosedWalk(edges, w) {
      assert Edge(w[|w| - 2], w[|w| - 1]) in edges;
      var k :| 0 <= k < |order| && order[k] == w[|w| - 1];
      Backwards(edges, order, w, |w| - 1, k);
    }
  }

  /** Going back along a walk from position `n`, every earlier node sits before `order[k]`. */
  lemma {:induction false} Backwards<T>(edges: seq<Edge<T>>, order: seq<T>, w: seq<T>, n: nat, k: nat)
    requires Walk(edges, w) && 0 < n < |w| && k < |order| && order[k] == w[n]
    requires forall e <- edges, k | 0 <= k < |order| && order[k] == e.to :: e.from in order[..k]
    ensures w[0] in order[..k]
    decreases n
  {
    assert Edge(w[n - 1], w[n]) in edges;
    assert w[n - 1] in order[..k];
    if n > 1 {
      var j :| 0 <= j < k && order[j] == w[n - 1];
      Backwards(edges, order, w, n - 1, j);
    }
  }
}
