/**
 * Lexicographic order of the enumerated flow paths, with ties: it holds exactly when no two parallel flow edges
 * lead to a node where the flow forks and joins again.
 */
module FlowForks {
  import opened Basics
  import opened Orders
  import opened Cpg
  import opened ValueFlow
  import opened FlowOrder

  /** No path comes after one with larger nodes. */
  ghost predicate InOrder(paths: seq<Path>) {
    forall i, j | 0 <= i < j < |paths| :: !NodesLess(paths[j].nodes, paths[i].nodes)
  }

  /** Two flow paths from one node to another, over different nodes, neither of which meets `avoided`. */
  ghost predicate Forks(adjacency: Adjacency, v: string, t: string, avoided: string, p: Path, q: Path) {
    && AnyFlowPath(adjacency, v, t, p) && AnyFlowPath(adjacency, v, t, q)
    && avoided !in p.nodes && avoided !in q.nodes && p.nodes != q.nodes
  }

  /** Two parallel flow edges out of `node` lead to a fork. */
  ghost predicate Doubled(adjacency: Adjacency, node: string, i: nat, j: nat, t: string, p: Path, q: Path) {
    Parallel(adjacency, node, i, j) && Forks(adjacency, Entries(adjacency, node)[i].target, t, node, p, q)
  }

  ghost predicate NoDoubledFork(adjacency: Adjacency) {
    forall node, i: nat, j: nat, t, p, q :: !Doubled(adjacency, node, i, j, t, p, q)
  }

  // ----- Comparing nodes -----

  lemma LessIsOneWay(a: seq<string>, b: seq<string>)
    requires NodesLess(a, b)
    ensures !NodesLess(b, a)
  {
    var k: nat :| k < |a| && k < |b| && a[..k] == b[..k] && LexLess(a[k], b[k]);
    forall m: nat | m < |b| && m < |a| && b[..m] == a[..m] ensures !LexLess(b[m], a[m]) {
      AgreeUpTo(a, b, m, k);
      if a[m] != b[m] {
        AgreeUpTo(a, b, k, m);
        if LexLeq(b[k], a[k]) {
          LexAntisymmetric(a[k], b[k]);
        }
      }
    }
  }

  /** A difference is not among the places where two sequences agree. */
  lemma AgreeUpTo(a: seq<string>, b: seq<string>, m: nat, k: nat)
    requires m <= |a| && m <= |b| && a[..m] == b[..m] && k < |a| && k < |b| && a[k] != b[k]
    ensures m <= k
  {
    forall i | 0 <= i < m ensures a[i] == b[i] {
      assert a[..m][i] == b[..m][i];
    }
  }

  /** Sequences of which neither begins with the other differ somewhere first. */
  lemma {:induction false} FirstDifference(a: seq<string>, b: seq<string>) returns (k: nat)
    requires !(a <= b) && !(b <= a)
    ensures k < |a| && k < |b| && a[..k] == b[..k] && a[k] != b[k]
    decreases |a|
  {
    if a[0] != b[0] {
      return 0;
    }
    assert a == [a[0]] + a[1..] && b == [b[0]] + b[1..];
    var m := FirstDifference(a[1..], b[1..]);
    k := m + 1;
    assert a[..k] == [a[0]] + a[1..][..m] && b[..k] == [b[0]] + b[1..][..m];
  }

  /** Of two flow paths between the same nodes neither goes on from the end of the other. */
  lemma NoneGoesOn(adjacency: Adjacency, v: string, t: string, p: Path, q: Path)
    requires AnyFlowPath(adjacency, v, t, p) && AnyFlowPath(adjacency, v, t, q)
    ensures p.nodes <= q.nodes ==> p.nodes == q.nodes
  {
    hide Joined;
    JoinedSizes(adjacency, p);
    JoinedSizes(adjacency, q);
    assert p.nodes <= q.nodes ==> q.nodes[|p.nodes| - 1] == p.nodes[|p.nodes| - 1];
  }

  lemma OneIsLess(adjacency: Adjacency, v: string, t: string, p: Path, q: Path)
    requires AnyFlowPath(adjacency, v, t, p) && AnyFlowPath(adjacency, v, t, q) && p.nodes != q.nodes
    ensures NodesLess(p.nodes, q.nodes) || NodesLess(q.nodes, p.nodes)
  {
    hide AnyFlowPath, LexLeq;
    NoneGoesOn(adjacency, v, t, p, q);
    NoneGoesOn(adjacency, v, t, q, p);
    var k := FirstDifference(p.nodes, q.nodes);
    LexTotal(p.nodes[k], q.nodes[k]);
  }

  lemma LessAfter(front: seq<string>, a: seq<string>, b: seq<string>)
    requires NodesLess(a, b)
    ensures NodesLess(front + a, front + b)
  {
    var k: nat :| k < |a| && k < |b| && a[..k] == b[..k] && LexLess(a[k], b[k]);
    var m := |front| + k;
    assert (front + a)[..m] == front + a[..k] && (front + b)[..m] == front + b[..k];
    assert (front + a)[m] == a[k] && (front + b)[m] == b[k];
  }

  // ----- Paths through one entry -----

  /** The part of a path from its `n`-th node on. */
  function Rest(path: Path, n: nat): Path
    requires n <= |path.nodes| && n <= |path.edges|
  {
    Path(path.nodes[n..], path.edges[n..])
  }

  /** What follows the path at hand is a flow path from the entry's target that does not come back. */
  lemma RestFlows(adjacency: Adjacency, dst: string, maxDepth: nat, at: Path, entry: Entry, path: Path)
    requires Simple(adjacency, at) && Completes(adjacency, dst, maxDepth, Extended(at, entry), path)
    ensures 0 < |at.nodes| <= |path.edges| && |at.nodes| < |path.nodes|
    ensures AnyFlowPath(adjacency, entry.target, dst, Rest(path, |at.nodes|))
    ensures at.nodes[|at.nodes| - 1] !in Rest(path, |at.nodes|).nodes
    ensures path.nodes == at.nodes + Rest(path, |at.nodes|).nodes
  {
    var n, next := |at.nodes|, Extended(at, entry);
    assert path.nodes[n] == next.nodes[n] && path.nodes[n - 1] == next.nodes[n - 1];
    assert path.nodes[..n] == next.nodes[..n] == at.nodes;
    var rest := Rest(path, n);
    forall i | 0 <= i < |rest.edges|
      ensures Entry(rest.nodes[i + 1], rest.edges[i]) in Entries(adjacency, rest.nodes[i])
    {
      assert Entry(path.nodes[n + i + 1], path.edges[n + i]) in Entries(adjacency, path.nodes[n + i]);
    }
  }

  lemma SortedApart(adjacency: Adjacency, node: string, i: nat, j: nat)
    requires ListsSorted(adjacency) && i < j < |Entries(adjacency, node)|
    requires Entries(adjacency, node)[i].target != Entries(adjacency, node)[j].target
    ensures LexLess(Entries(adjacency, node)[i].target, Entries(adjacency, node)[j].target)
  {
    assert ByTarget(Entries(adjacency, node)[i], Entries(adjacency, node)[j]);
  }

  /** Of two paths that go on through different targets, the one through the smaller target is smaller. */
  lemma SmallerTarget(adjacency: Adjacency, dst: string, front: seq<string>, a: string, b: string, p: Path, q: Path)
    requires AnyFlowPath(adjacency, a, dst, p) && AnyFlowPath(adjacency, b, dst, q) && LexLess(a, b)
    ensures NodesLess(front + p.nodes, front + q.nodes)
  {
    assert p.nodes[..0] == q.nodes[..0];
    LessAfter(front, p.nodes, q.nodes);
  }

  /** A path through one entry does not come after a path through a later entry with smaller nodes. */
  lemma LaterNotLess(adjacency: Adjacency, dst: string, maxDepth: nat, at: Path, i: nat, j: nat, p: Path, q: Path)
    requires Simple(adjacency, at) && |at.nodes| > 0 && ListsSorted(adjacency) && NoDoubledFork(adjacency)
    requires i < j < |Entries(adjacency, at.nodes[|at.nodes| - 1])|
    requires var entries := Entries(adjacency, at.nodes[|at.nodes| - 1]);
             && entries[i].target !in at.nodes && entries[j].target !in at.nodes
             && Completes(adjacency, dst, maxDepth, Extended(at, entries[i]), p)
             && Completes(adjacency, dst, maxDepth, Extended(at, entries[j]), q)
    ensures !NodesLess(q.nodes, p.nodes)
  {
    hide Completes, Simple, NodesLess, AnyFlowPath, Entries, ListsSorted;
    var n, node := |at.nodes|, at.nodes[|at.nodes| - 1];
    var e, f := Entries(adjacency, node)[i], Entries(adjacency, node)[j];
    RestFlows(adjacency, dst, maxDepth, at, e, p);
    RestFlows(adjacency, dst, maxDepth, at, f, q);
    if e.target == f.target {
      assert !Doubled(adjacency, node, i, j, dst, Rest(p, n), Rest(q, n));
      NotBelowItself(p.nodes);
    } else {
      SortedApart(adjacency, node, i, j);
      SmallerTarget(adjacency, dst, at.nodes, e.target, f.target, Rest(p, n), Rest(q, n));
      LessIsOneWay(p.nodes, q.nodes);
    }
  }

  // ----- Without a doubled fork the order holds -----

  lemma InOrderJoin(a: seq<Path>, b: seq<Path>)
    requires InOrder(a) && InOrder(b) && forall p, q | p in a && q in b :: !NodesLess(q.nodes, p.nodes)
    ensures InOrder(a + b)
  {
    hide NodesLess;
    var all := a + b;
    forall i, j | 0 <= i < j < |all| ensures !NodesLess(all[j].nodes, all[i].nodes) {
      if i < |a| && j >= |a| {
        assert all[i] in a && all[j] in b;
      }
    }
  }

  /** A path from the entries after the `k`-th goes through one of them. */
  lemma ThroughOne(adjacency: Adjacency, dst: string, maxDepth: nat, at: Path, k: nat, q: Path) returns (j: nat)
    requires Simple(adjacency, at) && |at.nodes| > 0 && |at.edges| < maxDepth
    requires k <= |Entries(adjacency, at.nodes[|at.nodes| - 1])|
    requires q in Branches(adjacency, dst, maxDepth, at, Entries(adjacency, at.nodes[|at.nodes| - 1])[k..])
    ensures k <= j < |Entries(adjacency, at.nodes[|at.nodes| - 1])|
    ensures var e := Entries(adjacency, at.nodes[|at.nodes| - 1])[j];
            e.target !in at.nodes && Completes(adjacency, dst, maxDepth, Extended(at, e), q)
  {
    hide Branches, Simple, Extends, Entries;
    var entries := Entries(adjacency, at.nodes[|at.nodes| - 1]);
    BranchesExact(adjacency, dst, maxDepth, at, entries[k..], q);
    var e :| e in entries[k..] && e.target !in at.nodes && Extends(q, Extended(at, e));
    var i :| 0 <= i < |entries[k..]| && entries[k..][i] == e;
    j := k + i;
  }

  lemma {:induction false} CompletionsInOrder(adjacency: Adjacency, dst: string, maxDepth: nat, at: Path)
    requires Simple(adjacency, at) && |at.edges| <= maxDepth && ListsSorted(adjacency) && NoDoubledFork(adjacency)
    ensures InOrder(Completions(adjacency, dst, maxDepth, at))
    decreases maxDepth - |at.edges|, 1, 0
  {
    hide Branches, Simple, ListsSorted, NoDoubledFork;
    NonEmpty(adjacency, at);
    var node := at.nodes[|at.nodes| - 1];
    if node != dst && |at.edges| < maxDepth {
      assert Entries(adjacency, node)[0..] == Entries(adjacency, node);
      BranchesInOrder(adjacency, dst, maxDepth, at, 0);
    }
  }

  lemma {:induction false} BranchesInOrder(adjacency: Adjacency, dst: string, maxDepth: nat, at: Path, k: nat)
    requires Simple(adjacency, at) && |at.nodes| > 0 && |at.edges| < maxDepth
    requires ListsSorted(adjacency) && NoDoubledFork(adjacency)
    requires k <= |Entries(adjacency, at.nodes[|at.nodes| - 1])|
    ensures InOrder(Branches(adjacency, dst, maxDepth, at, Entries(adjacency, at.nodes[|at.nodes| - 1])[k..]))
    decreases maxDepth - |at.edges|, 0, |Entries(adjacency, at.nodes[|at.nodes| - 1])| - k
  {
    hide Completions, Branches, Simple, Completes, ListsSorted, NoDoubledFork, NodesLess, Entries;
    var entries := Entries(adjacency, at.nodes[|at.nodes| - 1]);
    if k == |entries| {
      assert entries[k..] == [];
      NoBranches(adjacency, dst, maxDepth, at);
    } else {
      var e := entries[k];
      BranchesInOrder(adjacency, dst, maxDepth, at, k + 1);
      NextBranch(adjacency, dst, maxDepth, at, entries, k);
      if e.target !in at.nodes {
        ExtendedSimple(adjacency, at, e);
        CompletionsInOrder(adjacency, dst, maxDepth, Extended(at, e));
        var first, others := Completions(adjacency, dst, maxDepth, Extended(at, e)),
                             Branches(adjacency, dst, maxDepth, at, entries[k + 1..]);
        forall p, q | p in first && q in others ensures !NodesLess(q.nodes, p.nodes) {
          CompletionsExact(adjacency, dst, maxDepth, Extended(at, e), p);
          var j := ThroughOne(adjacency, dst, maxDepth, at, k + 1, q);
          LaterNotLess(adjacency, dst, maxDepth, at, k, j, p, q);
        }
        InOrderJoin(first, others);
      } else {
        assert [] + Branches(adjacency, dst, maxDepth, at, entries[k + 1..]) ==
               Branches(adjacency, dst, maxDepth, at, entries[k + 1..]);
      }
    }
  }

  // ----- A doubled fork breaks it -----

  lemma InOrderTail(a: seq<Path>, b: seq<Path>)
    requires InOrder(a + b)
    ensures InOrder(b) && forall p, q | p in a && q in b :: !NodesLess(q.nodes, p.nodes)
  {
    hide NodesLess;
    forall i, j | 0 <= i < j < |b| ensures !NodesLess(b[j].nodes, b[i].nodes) {
      assert (a + b)[|a| + i] == b[i] && (a + b)[|a| + j] == b[j];
    }
    forall p, q | p in a && q in b ensures !NodesLess(q.nodes, p.nodes) {
      var i :| 0 <= i < |a| && a[i] == p;
      var j :| 0 <= j < |b| && b[j] == q;
      assert (a + b)[i] == p && (a + b)[|a| + j] == q;
    }
  }

  /** If the paths are in order, those through one entry are not larger than those through a later one. */
  lemma {:induction false} EntriesInOrder(adjacency: Adjacency, dst: string, maxDepth: nat, at: Path,
                                          entries: seq<Entry>, i: nat, j: nat, p: Path, q: Path)
    requires Simple(adjacency, at) && |at.nodes| > 0 && |at.edges| < maxDepth
    requires forall e <- entries :: e in Entries(adjacency, at.nodes[|at.nodes| - 1])
    requires InOrder(Branches(adjacency, dst, maxDepth, at, entries)) && i < j < |entries|
    requires entries[i].target !in at.nodes && entries[j].target !in at.nodes
    requires Completes(adjacency, dst, maxDepth, Extended(at, entries[i]), p)
    requires Completes(adjacency, dst, maxDepth, Extended(at, entries[j]), q)
    ensures !NodesLess(q.nodes, p.nodes)
    decreases |entries|
  {
    hide Completions, Simple, InOrder, NodesLess, Entries, Extends;
    var e, rest := entries[0], entries[1..];
    assert e in entries && forall x <- rest :: x in entries;
    var first := if e.target in at.nodes then [] else Completions(adjacency, dst, maxDepth, Extended(at, e));
    InOrderTail(first, Branches(adjacency, dst, maxDepth, at, rest));
    if i > 0 {
      EntriesInOrder(adjacency, dst, maxDepth, at, rest, i - 1, j - 1, p, q);
    } else {
      ExtendedSimple(adjacency, at, e);
      CompletionsExact(adjacency, dst, maxDepth, Extended(at, e), p);
      OnAmongRest(adjacency, dst, maxDepth, at, rest, rest[j - 1], q);
    }
  }

  lemma OnAmongRest(adjacency: Adjacency, dst: string, maxDepth: nat, at: Path, entries: seq<Entry>, e: Entry, q: Path)
    requires Simple(adjacency, at) && |at.nodes| > 0 && |at.edges| < maxDepth
    requires forall x <- entries :: x in Entries(adjacency, at.nodes[|at.nodes| - 1])
    requires e in entries && e.target !in at.nodes && Completes(adjacency, dst, maxDepth, Extended(at, e), q)
    ensures q in Branches(adjacency, dst, maxDepth, at, entries)
  {
    hide Branches, Simple, Entries;
    BranchesExact(adjacency, dst, maxDepth, at, entries, q);
    ExtendsStep(q, at, e);
    assert Through(at, entries, q);
  }

  /** A flow path preceded by one more edge. */
  function Preceded(node: string, edge: string, path: Path): Path {
    Path([node] + path.nodes, [edge] + path.edges)
  }

  lemma PrecededCompletes(adjacency: Adjacency, node: string, entry: Entry, t: string, maxDepth: nat, path: Path)
    requires entry in Entries(adjacency, node) && AnyFlowPath(adjacency, entry.target, t, path)
    requires node !in path.nodes && |path.edges| < maxDepth
    ensures Completes(adjacency, t, maxDepth, Extended(Path([node], []), entry), Preceded(node, entry.edge, path))
  {
    var whole := Preceded(node, entry.edge, path);
    forall i | 0 <= i < |whole.edges|
      ensures Entry(whole.nodes[i + 1], whole.edges[i]) in Entries(adjacency, whole.nodes[i])
    {
      if i > 0 {
        assert Entry(path.nodes[i], path.edges[i - 1]) in Entries(adjacency, path.nodes[i - 1]);
      } else {
        assert Entry(whole.nodes[1], whole.edges[0]) == entry;
      }
    }
    assert NoRepeat(whole.nodes);
    assert whole.nodes[0] == node && whole.nodes[1] == entry.target && whole.edges[0] == entry.edge;
  }

  /** At a doubled fork the larger branch behind the first edge comes before the smaller behind the second. */
  lemma ForkDisorders(adjacency: Adjacency, node: string, i: nat, j: nat, t: string, p: Path, q: Path, maxDepth: nat)
    requires Doubled(adjacency, node, i, j, t, p, q) && |p.edges| < maxDepth && |q.edges| < maxDepth
    ensures node != t && !InOrder(Completions(adjacency, t, maxDepth, Path([node], [])))
  {
    hide Branches, AnyFlowPath, NodesLess, InOrder, Entries, Completes;
    var entries := Entries(adjacency, node);
    OneIsLess(adjacency, entries[i].target, t, p, q);
    var (small, large) := if NodesLess(p.nodes, q.nodes) then (p, q) else (q, p);
    PrecededCompletes(adjacency, node, entries[i], t, maxDepth, large);
    PrecededCompletes(adjacency, node, entries[j], t, maxDepth, small);
    LessAfter([node], small.nodes, large.nodes);
    EndsThere(adjacency, entries[i].target, t, p);
    var at := Path([node], []);
    StartSimple(adjacency, node);
    if InOrder(Branches(adjacency, t, maxDepth, at, entries)) {
      EntriesInOrder(adjacency, t, maxDepth, at, entries, i, j, Preceded(node, entries[i].edge, large),
                     Preceded(node, entries[j].edge, small));
    }
  }

  lemma EndsThere(adjacency: Adjacency, v: string, t: string, p: Path)
    requires AnyFlowPath(adjacency, v, t, p)
    ensures t in p.nodes
  {}

  /** Every enumeration is in lexicographic order exactly when no parallel flow edges lead to a fork. */
  lemma OrderedExactly(adjacency: Adjacency)
    requires ListsSorted(adjacency)
    ensures (forall src, dst, maxDepth: nat | src != dst ::
               InOrder(Completions(adjacency, dst, maxDepth, Path([src], [])))) <==> NoDoubledFork(adjacency)
  {
    hide Completions, ListsSorted, InOrder, NoRepeat, Joined, Doubled;
    if NoDoubledFork(adjacency) {
      forall src, dst, maxDepth: nat | src != dst
        ensures InOrder(Completions(adjacency, dst, maxDepth, Path([src], [])))
      {
        StartSimple(adjacency, src);
        CompletionsInOrder(adjacency, dst, maxDepth, Path([src], []));
      }
    } else {
      var node, i: nat, j: nat, t, p, q :| Doubled(adjacency, node, i, j, t, p, q);
      ForkDisorders(adjacency, node, i, j, t, p, q, |p.edges| + |q.edges| + 1);
    }
  }

  // ----- One such graph -----

  const FORKED := [
    CpgEdge(FlowsTo, "u", "v", "uv1"), CpgEdge(FlowsTo, "u", "v", "uv2"),
    CpgEdge(FlowsTo, "v", "x", "vx"), CpgEdge(FlowsTo, "x", "t", "xt"),
    CpgEdge(FlowsTo, "v", "y", "vy"), CpgEdge(FlowsTo, "y", "t", "yt")]

  const OVER_X := Path(["v", "x", "t"], ["vx", "xt"])
  const OVER_Y := Path(["v", "y", "t"], ["vy", "yt"])

  lemma EdgeIsEntry(adjacency: Adjacency, k: nat)
    requires (forall node :: AdjacencyOf(adjacency, FORKED, node)) && k < |FORKED|
    ensures Entry(FORKED[k].target, FORKED[k].id) in Entries(adjacency, FORKED[k].source)
  {
    hide AdjacencyOf;
    var e := FORKED[k];
    assert e in FORKED && e == CpgEdge(FlowsTo, e.source, e.target, e.id);
    AdjacencyExact(adjacency, FORKED, e.source, Entry(e.target, e.id));
  }

  lemma ForkedHasFork(adjacency: Adjacency)
    requires forall node :: AdjacencyOf(adjacency, FORKED, node)
    ensures Forks(adjacency, "v", "t", "u", OVER_X, OVER_Y)
  {
    hide AdjacencyOf, Entries;
    EdgeIsEntry(adjacency, 2);
    EdgeIsEntry(adjacency, 3);
    EdgeIsEntry(adjacency, 4);
    EdgeIsEntry(adjacency, 5);
    assert OVER_X.nodes[1] != OVER_Y.nodes[1];
  }

  lemma ForkedIsDoubled(adjacency: Adjacency) returns (i: nat, j: nat)
    requires forall node :: AdjacencyOf(adjacency, FORKED, node)
    ensures Doubled(adjacency, "u", i, j, "t", OVER_X, OVER_Y)
  {
    hide AdjacencyOf, Entries, Forks;
    ForkedHasFork(adjacency);
    EdgeIsEntry(adjacency, 0);
    EdgeIsEntry(adjacency, 1);
    var entries := Entries(adjacency, "u");
    i :| 0 <= i < |entries| && entries[i] == Entry("v", "uv1");
    j :| 0 <= j < |entries| && entries[j] == Entry("v", "uv2");
    if j < i {
      i, j := j, i;
    }
  }

  /** From `u` to `t` over two parallel edges and a fork, the paths do not come in order. */
  method EnumerationOutOfOrder() returns (paths: seq<Path>, adjacency: Adjacency)
    ensures forall node :: AdjacencyOf(adjacency, FORKED, node)
    ensures paths == Completions(adjacency, "t", 3, Path(["u"], [])) && !InOrder(paths)
  {
    hide AdjacencyOf, InOrder, Doubled, Completions;
    adjacency := BuildFlowAdjacency(FORKED);
    paths := EnumeratePaths(adjacency, "u", "t", 3);
    ghost var i, j := ForkedIsDoubled(adjacency);
    ForkDisorders(adjacency, "u", i, j, "t", OVER_X, OVER_Y, 3);
  }
}
