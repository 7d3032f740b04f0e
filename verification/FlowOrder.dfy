/**
 * The order in which flow paths are enumerated. It is lexicographic in their nodes exactly when no two parallel
 * flow edges lead to a fork in the flow; no two paths then share their nodes exactly when no flow edges are
 * parallel at all.
 */
module FlowOrder {
  import opened Basics
  import opened Orders
  import opened Cpg
  import opened ValueFlow

  /** At the first node where they differ, the first sequence has the smaller. */
  ghost predicate NodesLess(a: seq<string>, b: seq<string>) {
    exists k: nat :: k < |a| && k < |b| && a[..k] == b[..k] && LexLess(a[k], b[k])
  }

  ghost predicate StrictlyAscend(paths: seq<Path>) {
    forall i, j | 0 <= i < j < |paths| :: NodesLess(paths[i].nodes, paths[j].nodes)
  }

  /** Each node's entries are in order of target. */
  predicate ListsSorted(adjacency: Adjacency) {
    forall node <- adjacency :: SortedBy(adjacency[node], ByTarget)
  }

  /** A flow edge from a node back to itself is never followed, so only others can run in parallel. */
  predicate Parallel(adjacency: Adjacency, node: string, i: nat, j: nat) {
    var entries := Entries(adjacency, node);
    i < j < |entries| && entries[i].target == entries[j].target != node
  }

  ghost predicate NoParallel(adjacency: Adjacency) {
    forall node, i: nat, j: nat :: !Parallel(adjacency, node, i, j)
  }

  /** The entries a path can go on through lead to ever larger nodes. */
  predicate Rising(at: Path, entries: seq<Entry>) {
    forall i, j | 0 <= i < j < |entries| ::
      entries[i].target in at.nodes || entries[j].target in at.nodes || LexLess(entries[i].target, entries[j].target)
  }

  lemma EntriesRise(adjacency: Adjacency, at: Path)
    requires ListsSorted(adjacency) && NoParallel(adjacency) && |at.nodes| > 0
    ensures Rising(at, Entries(adjacency, at.nodes[|at.nodes| - 1]))
  {
    var node := at.nodes[|at.nodes| - 1];
    var entries := Entries(adjacency, node);
    forall i, j | 0 <= i < j < |entries|
      ensures entries[i].target in at.nodes || entries[j].target in at.nodes
              || LexLess(entries[i].target, entries[j].target)
    {
      assert !Parallel(adjacency, node, i, j);
      assert ByTarget(entries[i], entries[j]);
    }
  }

  /** A path through one entry comes before every path through a later one. */
  lemma ThroughLater(at: Path, entry: Entry, later: seq<Entry>, p: Path, q: Path)
    requires Rising(at, [entry] + later) && entry.target !in at.nodes
    requires Extends(p, Extended(at, entry)) && Through(at, later, q)
    ensures NodesLess(p.nodes, q.nodes)
  {
    var e :| e in later && e.target !in at.nodes && Extends(q, Extended(at, e));
    var j :| 0 <= j < |later| && later[j] == e;
    assert ([entry] + later)[0] == entry && ([entry] + later)[j + 1] == e;
    ExtendsStep(p, at, entry);
    ExtendsStep(q, at, e);
    var k := |at.nodes|;
    assert p.nodes[..k] == at.nodes == q.nodes[..k];
  }

  lemma AscendJoin(a: seq<Path>, b: seq<Path>)
    requires StrictlyAscend(a) && StrictlyAscend(b) && forall p, q | p in a && q in b :: NodesLess(p.nodes, q.nodes)
    ensures StrictlyAscend(a + b)
  {
    hide NodesLess;
    var all := a + b;
    forall i, j | 0 <= i < j < |all| ensures NodesLess(all[i].nodes, all[j].nodes) {
      if i < |a| && j >= |a| {
        assert all[i] in a && all[j] in b;
      }
    }
  }

  lemma {:induction false} CompletionsAscend(adjacency: Adjacency, dst: string, maxDepth: nat, at: Path)
    requires Simple(adjacency, at) && |at.edges| <= maxDepth && ListsSorted(adjacency) && NoParallel(adjacency)
    ensures StrictlyAscend(Completions(adjacency, dst, maxDepth, at))
    decreases maxDepth - |at.edges|, 1, 0
  {
    hide Branches, Simple, ListsSorted, NoParallel, Rising;
    NonEmpty(adjacency, at);
    EntriesRise(adjacency, at);
    var node := at.nodes[|at.nodes| - 1];
    if node != dst && |at.edges| < maxDepth {
      BranchesAscend(adjacency, dst, maxDepth, at, Entries(adjacency, node));
    }
  }

  lemma {:induction false} BranchesAscend(adjacency: Adjacency, dst: string, maxDepth: nat, at: Path,
                                          entries: seq<Entry>)
    requires Simple(adjacency, at) && |at.edges| < maxDepth && ListsSorted(adjacency) && NoParallel(adjacency)
    requires (forall e <- entries :: e in Entries(adjacency, at.nodes[|at.nodes| - 1])) && Rising(at, entries)
    ensures StrictlyAscend(Branches(adjacency, dst, maxDepth, at, entries))
    decreases maxDepth - |at.edges|, 0, |entries|
  {
    hide Completions, Simple, Extends, ListsSorted, NoParallel, NodesLess, Through;
    NonEmpty(adjacency, at);
    if entries != [] {
      var e, rest := entries[0], entries[1..];
      assert e in entries && (forall x <- rest :: x in entries) && entries == [e] + rest;
      BranchesAscend(adjacency, dst, maxDepth, at, rest);
      if e.target !in at.nodes {
        ExtendedSimple(adjacency, at, e);
        var first, others := Completions(adjacency, dst, maxDepth, Extended(at, e)),
                             Branches(adjacency, dst, maxDepth, at, rest);
        CompletionsAscend(adjacency, dst, maxDepth, Extended(at, e));
        forall p, q | p in first && q in others ensures NodesLess(p.nodes, q.nodes) {
          CompletionsExact(adjacency, dst, maxDepth, Extended(at, e), p);
          BranchesExact(adjacency, dst, maxDepth, at, rest, q);
          ThroughLater(at, e, rest, p, q);
        }
        AscendJoin(first, others);
      }
    }
  }

  lemma NotBelowItself(a: seq<string>)
    ensures !NodesLess(a, a)
  {}

  lemma AscendTail(a: seq<Path>, b: seq<Path>)
    requires StrictlyAscend(a + b)
    ensures StrictlyAscend(b) && forall p, q | p in a && q in b :: NodesLess(p.nodes, q.nodes)
  {
    hide NodesLess;
    forall i, j | 0 <= i < j < |b| ensures NodesLess(b[i].nodes, b[j].nodes) {
      assert (a + b)[|a| + i] == b[i] && (a + b)[|a| + j] == b[j];
    }
    forall p, q | p in a && q in b ensures NodesLess(p.nodes, q.nodes) {
      var i :| 0 <= i < |a| && a[i] == p;
      var j :| 0 <= j < |b| && b[j] == q;
      assert (a + b)[i] == p && (a + b)[|a| + j] == q;
    }
  }

  /** One entry straight to the target is one path. */
  lemma StraightPath(adjacency: Adjacency, dst: string, maxDepth: nat, at: Path, entries: seq<Entry>, e: Entry)
    requires Simple(adjacency, at) && |at.edges| < maxDepth && dst !in at.nodes
    requires forall x <- entries :: x in Entries(adjacency, at.nodes[|at.nodes| - 1])
    requires e in entries && e.target == dst
    ensures Extended(at, e) in Branches(adjacency, dst, maxDepth, at, entries)
    ensures Completions(adjacency, dst, maxDepth, Extended(at, e)) == [Extended(at, e)]
  {
    hide Branches;
    ExtendedSimple(adjacency, at, e);
    BranchesExact(adjacency, dst, maxDepth, at, entries, Extended(at, e));
    assert Through(at, entries, Extended(at, e));
  }

  /** If the paths ascend, no two entries lead straight to the target. */
  lemma {:induction false} NoTwins(adjacency: Adjacency, dst: string, maxDepth: nat, at: Path, entries: seq<Entry>,
                                   i: nat, j: nat)
    requires Simple(adjacency, at) && |at.edges| < maxDepth && dst !in at.nodes
    requires forall e <- entries :: e in Entries(adjacency, at.nodes[|at.nodes| - 1])
    requires StrictlyAscend(Branches(adjacency, dst, maxDepth, at, entries)) && i < j < |entries|
    ensures entries[i].target != dst || entries[j].target != dst
    decreases |entries|
  {
    hide Completions, Simple, StrictlyAscend, NodesLess;
    NonEmpty(adjacency, at);
    var e, rest := entries[0], entries[1..];
    assert e in entries && forall x <- rest :: x in entries;
    var first := if e.target in at.nodes then [] else Completions(adjacency, dst, maxDepth, Extended(at, e));
    AscendTail(first, Branches(adjacency, dst, maxDepth, at, rest));
    if i > 0 {
      NoTwins(adjacency, dst, maxDepth, at, rest, i - 1, j - 1);
    } else if e.target == dst && rest[j - 1].target == dst {
      StraightPath(adjacency, dst, maxDepth, at, entries, e);
      StraightPath(adjacency, dst, maxDepth, at, rest, rest[j - 1]);
      assert Extended(at, e) in first;
      NotBelowItself(at.nodes + [dst]);
    }
  }

  /** All enumerations are in order without two paths over the same nodes exactly when no flow edges are parallel. */
  lemma DistinctExactly(adjacency: Adjacency)
    requires ListsSorted(adjacency)
    ensures (forall src, dst, maxDepth: nat | src != dst ::
               StrictlyAscend(Completions(adjacency, dst, maxDepth, Path([src], [])))) <==> NoParallel(adjacency)
  {
    hide Completions, ListsSorted, StrictlyAscend, NoRepeat, Joined;
    if NoParallel(adjacency) {
      forall src, dst, maxDepth: nat | src != dst
        ensures StrictlyAscend(Completions(adjacency, dst, maxDepth, Path([src], [])))
      {
        StartSimple(adjacency, src);
        CompletionsAscend(adjacency, dst, maxDepth, Path([src], []));
      }
    } else {
      var node, i: nat, j: nat :| Parallel(adjacency, node, i, j);
      var dst := Entries(adjacency, node)[i].target;
      ParallelDisturbs(adjacency, node, i, j);
      assert node != dst && !StrictlyAscend(Completions(adjacency, dst, 1, Path([node], [])));
    }
  }

  lemma ParallelDisturbs(adjacency: Adjacency, node: string, i: nat, j: nat)
    requires Parallel(adjacency, node, i, j)
    ensures !StrictlyAscend(Completions(adjacency, Entries(adjacency, node)[i].target, 1, Path([node], [])))
  {
    hide StrictlyAscend, Branches;
    var at, entries := Path([node], []), Entries(adjacency, node);
    StartSimple(adjacency, node);
    if StrictlyAscend(Branches(adjacency, entries[i].target, 1, at, entries)) {
      NoTwins(adjacency, entries[i].target, 1, at, entries, i, j);
    }
  }

  /** The lists built from the graph's edges are sorted. */
  lemma BuiltSorted(adjacency: Adjacency, edges: seq<CpgEdge>)
    requires forall node :: AdjacencyOf(adjacency, edges, node)
    ensures ListsSorted(adjacency)
  {
    hide Sort, Out, LexLeq;
    TargetOrder();
    forall node <- adjacency ensures SortedBy(adjacency[node], ByTarget) {
      assert AdjacencyOf(adjacency, edges, node);
      SortSorted(Out(edges, node), ByTarget);
    }
  }

  lemma TargetOrder()
    ensures TotalPreorder(ByTarget)
  {
    forall a: Entry, b: Entry ensures ByTarget(a, b) || ByTarget(b, a) {
      LexTotal(a.target, b.target);
    }
    forall a: Entry, b: Entry, c: Entry | ByTarget(a, b) && ByTarget(b, c) ensures ByTarget(a, c) {
      LexTransitive(a.target, b.target, c.target);
    }
  }
}
