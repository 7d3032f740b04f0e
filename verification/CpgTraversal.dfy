/** The budgeted depth-first traversal between two nodes of the program graph. */
module CpgTraversal {
  import opened Basics
  import opened Orders
  import opened Graphs
  import opened Cpg

  datatype Budget = Budget(maxDepth: nat, maxNodes: nat, maxPaths: nat)

  datatype Reason = MaxDepth | MaxNodes | MaxPaths

  predicate IsRelevant(edge: CpgEdge, callEdges: bool) {
    if callEdges then edge.kind == Calls || edge.kind == MayCall else edge.kind == FlowsTo
  }

  /** The graph a traversal of one kind sees. */
  function Relevant(edges: seq<CpgEdge>, callEdges: bool): seq<Edge<string>> {
    if edges == [] then []
    else
      var last := edges[|edges| - 1];
      Relevant(edges[..|edges| - 1], callEdges)
      + (if IsRelevant(last, callEdges) then [Edge(last.source, last.target)] else [])
  }

  lemma {:induction false} RelevantExact(edges: seq<CpgEdge>, callEdges: bool, e: Edge<string>)
    ensures e in Relevant(edges, callEdges) <==>
            exists edge <- edges :: IsRelevant(edge, callEdges) && e == Edge(edge.source, edge.target)
  {
    if edges != [] {
      var rest, last := edges[..|edges| - 1], edges[|edges| - 1];
      assert edges == rest + [last];
      RelevantExact(rest, callEdges, e);
    }
  }

  /** Some edge of the kind joins the two nodes. */
  predicate Joined(edges: seq<CpgEdge>, kind: EdgeKind, e: Edge<string>) {
    exists edge <- edges :: edge.kind == kind && e == Edge(edge.source, edge.target)
  }

  /** A call traversal sees the resolved and the possible calls, a flow traversal the flows, and neither sees more. */
  lemma RelevantKinds(edges: seq<CpgEdge>, e: Edge<string>)
    ensures e in Relevant(edges, true) <==> Joined(edges, Calls, e) || Joined(edges, MayCall, e)
    ensures e in Relevant(edges, false) <==> Joined(edges, FlowsTo, e)
  {
    RelevantExact(edges, true, e);
    RelevantExact(edges, false, e);
  }

  /** A simple path of relevant edges between the two nodes, within the depth. */
  predicate RealPath(graph: seq<Edge<string>>, src: string, dst: string, maxDepth: nat, path: seq<string>) {
    && Walk(graph, path) && NoRepeat(path) && |path| - 1 <= maxDepth
    && path[0] == src && path[|path| - 1] == dst
  }

  function NodesOf(graph: seq<Edge<string>>, src: string): set<string> {
    {src} + set e | e in graph :: e.to
  }

  function Max(a: nat, b: nat): nat {
    if a < b then b else a
  }

  /** Everything reached is reached by walks that stay where the set is closed. */
  lemma {:induction false} ClosedHolds(graph: seq<Edge<string>>, inside: set<string>, w: seq<string>)
    requires (forall e <- graph :: e.from in inside ==> e.to in inside) && Walk(graph, w) && w[0] in inside
    ensures w[|w| - 1] in inside
    decreases |w|
  {
    if |w| > 1 {
      assert Edge(w[0], w[1]) in graph;
      WalkSlice(graph, w, 1, |w|);
      assert w[1..|w|] == w[1..];
      ClosedHolds(graph, inside, w[1..]);
    }
  }

  // ----- What is left to explore -----

  /** Every edge out of `node` leads to an explored node. */
  predicate Expanded(graph: seq<Edge<string>>, explored: set<string>, node: string) {
    forall e <- graph :: e.from == node ==> e.to in explored
  }

  /** The path that led to the node has used up the depth. */
  predicate Deep(tree: map<string, seq<string>>, maxDepth: nat, node: string) {
    node in tree && |tree[node]| == maxDepth + 1
  }

  /** Every node of `nodes` is the target, at full depth, or expanded. */
  predicate AllExpanded(graph: seq<Edge<string>>, tree: map<string, seq<string>>, dst: string, maxDepth: nat,
                        nodes: set<string>) {
    forall n <- nodes :: n == dst || Deep(tree, maxDepth, n) || Expanded(graph, tree.Keys, n)
  }

  /** The tree has grown: what it held it holds. */
  predicate Grown(tree: map<string, seq<string>>, more: map<string, seq<string>>) {
    forall n <- tree :: n in more && more[n] == tree[n]
  }

  lemma GrownTwice(a: map<string, seq<string>>, b: map<string, seq<string>>, c: map<string, seq<string>>)
    requires Grown(a, b) && Grown(b, c)
    ensures Grown(a, c)
  {}

  lemma ExpandedGrows(graph: seq<Edge<string>>, tree: map<string, seq<string>>, more: map<string, seq<string>>,
                      dst: string, maxDepth: nat, nodes: set<string>, others: set<string>)
    requires Grown(tree, more) && AllExpanded(graph, tree, dst, maxDepth, nodes)
    requires AllExpanded(graph, more, dst, maxDepth, others)
    ensures AllExpanded(graph, more, dst, maxDepth, nodes + others)
  {
    forall n <- nodes | n != dst && !Deep(tree, maxDepth, n) ensures Expanded(graph, more.Keys, n) {
      assert Expanded(graph, tree.Keys, n);
    }
  }

  /** What a deeper exploration adds is expanded, and what was expanded stays so. */
  lemma ExpandedBeyond(graph: seq<Edge<string>>, start: set<string>, tree: map<string, seq<string>>,
                       more: map<string, seq<string>>, dst: string, maxDepth: nat, node: string)
    requires start + {node} <= tree.Keys && Grown(tree, more)
    requires AllExpanded(graph, tree, dst, maxDepth, tree.Keys - start - {node})
    requires AllExpanded(graph, more, dst, maxDepth, more.Keys - tree.Keys)
    ensures AllExpanded(graph, more, dst, maxDepth, more.Keys - start - {node})
  {
    hide AllExpanded;
    ExpandedGrows(graph, tree, more, dst, maxDepth, tree.Keys - start - {node}, more.Keys - tree.Keys);
    assert more.Keys - start - {node} == (tree.Keys - start - {node}) + (more.Keys - tree.Keys);
  }

  /** The relevant edges out of `node` among the first `n` lead to explored nodes. */
  predicate Followed(edges: seq<CpgEdge>, callEdges: bool, explored: set<string>, node: string, n: nat)
    requires n <= |edges|
  {
    forall k | 0 <= k < n && edges[k].source == node && IsRelevant(edges[k], callEdges) :: edges[k].target in explored
  }

  lemma FollowedNext(edges: seq<CpgEdge>, callEdges: bool, explored: set<string>, more: set<string>, node: string,
                     i: nat)
    requires i < |edges| && explored <= more && Followed(edges, callEdges, explored, node, i)
    requires edges[i].source == node && IsRelevant(edges[i], callEdges) ==> edges[i].target in more
    ensures Followed(edges, callEdges, more, node, i + 1)
  {}

  /** With all its edges followed the node itself is expanded. */
  lemma NodeExpanded(edges: seq<CpgEdge>, callEdges: bool, graph: seq<Edge<string>>, start: set<string>,
                     tree: map<string, seq<string>>, dst: string, maxDepth: nat, node: string)
    requires graph == Relevant(edges, callEdges) && Followed(edges, callEdges, tree.Keys, node, |edges|)
    requires AllExpanded(graph, tree, dst, maxDepth, tree.Keys - start - {node})
    ensures AllExpanded(graph, tree, dst, maxDepth, tree.Keys - start)
  {
    hide Relevant;
    forall e <- graph | e.from == node ensures e.to in tree.Keys {
      RelevantExact(edges, callEdges, e);
    }
    assert Expanded(graph, tree.Keys, node);
  }

  /** A node other than the target, at full depth, with an edge out of it. */
  predicate StopsAt(graph: seq<Edge<string>>, tree: map<string, seq<string>>, dst: string, maxDepth: nat, n: string) {
    n != dst && Deep(tree, maxDepth, n) && HasEdge(graph, n)
  }

  predicate HasEdge(graph: seq<Edge<string>>, node: string) {
    exists e <- graph :: e.from == node
  }

  predicate StopsAtDepth(graph: seq<Edge<string>>, tree: map<string, seq<string>>, dst: string, maxDepth: nat) {
    exists n <- tree :: StopsAt(graph, tree, dst, maxDepth, n)
  }

  /** An edge out of an explored node other than the target leads to a node that is not explored. */
  predicate LeftOver(graph: seq<Edge<string>>, explored: set<string>, dst: string) {
    exists e <- graph :: e.from in explored && e.from != dst && e.to !in explored
  }

  /** Such an edge out of a node at full depth. */
  predicate LeftBelow(graph: seq<Edge<string>>, tree: map<string, seq<string>>, dst: string, maxDepth: nat) {
    exists e <- graph :: e.from != dst && Deep(tree, maxDepth, e.from) && e.to !in tree
  }

  /** Exploring a node above full depth leaves the nodes that stop at full depth as they are. */
  lemma AboveDepth(graph: seq<Edge<string>>, tree: map<string, seq<string>>, dst: string, maxDepth: nat, node: string,
                   path: seq<string>)
    requires node !in tree && (node == dst || |path| <= maxDepth)
    ensures StopsAtDepth(graph, tree[node := path], dst, maxDepth) <==> StopsAtDepth(graph, tree, dst, maxDepth)
  {
    var more := tree[node := path];
    if n :| n in tree && StopsAt(graph, tree, dst, maxDepth, n) {
      assert StopsAt(graph, more, dst, maxDepth, n);
    }
    if n :| n in more && StopsAt(graph, more, dst, maxDepth, n) {
      assert n in tree && StopsAt(graph, tree, dst, maxDepth, n);
    }
  }

  lemma AtDepth(graph: seq<Edge<string>>, tree: map<string, seq<string>>, dst: string, maxDepth: nat, node: string,
                path: seq<string>)
    requires node !in tree && node != dst && |path| == maxDepth + 1
    ensures StopsAtDepth(graph, tree[node := path], dst, maxDepth) <==>
            StopsAtDepth(graph, tree, dst, maxDepth) || HasEdge(graph, node)
  {
    hide HasEdge;
    var more := tree[node := path];
    if n :| n in tree && StopsAt(graph, tree, dst, maxDepth, n) {
      assert StopsAt(graph, more, dst, maxDepth, n);
    }
    if n :| n in more && StopsAt(graph, more, dst, maxDepth, n) {
      assert n == node || StopsAt(graph, tree, dst, maxDepth, n);
    }
    if HasEdge(graph, node) {
      assert StopsAt(graph, more, dst, maxDepth, node);
    }
  }

  // ----- Which path comes first -----

  predicate Joins(edges: seq<CpgEdge>, callEdges: bool, i: nat, a: string, b: string)
    requires i < |edges|
  {
    edges[i].source == a && edges[i].target == b && IsRelevant(edges[i], callEdges)
  }

  /** Some edge from `a` to `b` stands before every edge from `a` to `c`. */
  predicate Sooner(edges: seq<CpgEdge>, callEdges: bool, a: string, b: string, c: string) {
    exists i: nat | i < |edges| :: Joins(edges, callEdges, i, a, b) && NoneUpTo(edges, callEdges, i, a, c)
  }

  predicate NoneUpTo(edges: seq<CpgEdge>, callEdges: bool, i: nat, a: string, c: string)
    requires i < |edges|
  {
    forall j | 0 <= j <= i :: edges[j].source == a && IsRelevant(edges[j], callEdges) ==> edges[j].target != c
  }

  /** Where the two paths part, the first one leaves by an edge that stands sooner. */
  predicate Earlier(edges: seq<CpgEdge>, callEdges: bool, p: seq<string>, q: seq<string>) {
    exists k | 0 < k < |p| && k < |q| :: p[..k] == q[..k] && Sooner(edges, callEdges, p[k - 1], p[k], q[k])
  }

  /** No walk from `from` to the target keeps clear of the nodes. */
  ghost predicate Hopeless(graph: seq<Edge<string>>, dst: string, from: string, nodes: seq<string>) {
    forall w | Walk(graph, w) && w[0] == from && w[|w| - 1] == dst :: exists n <- w :: n in nodes
  }

  /** The step from `node` on takes an edge before which no other edge could do. */
  ghost predicate ReadyStep(edges: seq<CpgEdge>, callEdges: bool, graph: seq<Edge<string>>, dst: string,
                            way: seq<string>, node: string, next: string) {
    exists i: nat | i < |edges| ::
      Joins(edges, callEdges, i, node, next) && InVain(edges, callEdges, graph, dst, i, node, way)
  }

  ghost predicate ReadyAt(edges: seq<CpgEdge>, callEdges: bool, graph: seq<Edge<string>>, dst: string,
                          path: seq<string>, k: nat)
    requires 0 < k < |path|
  {
    ReadyStep(edges, callEdges, graph, dst, path[..k], path[k - 1], path[k])
  }

  /** Every edge out of the node before edge `i` leads back to the way or nowhere. */
  ghost predicate InVain(edges: seq<CpgEdge>, callEdges: bool, graph: seq<Edge<string>>, dst: string, i: nat,
                         node: string, way: seq<string>)
    requires i < |edges|
  {
    forall j | 0 <= j < i :: edges[j].source == node && IsRelevant(edges[j], callEdges) ==>
      edges[j].target in way || Hopeless(graph, dst, edges[j].target, way)
  }

  ghost predicate Ready(edges: seq<CpgEdge>, callEdges: bool, graph: seq<Edge<string>>, dst: string,
                        path: seq<string>) {
    forall k | 0 < k < |path| :: ReadyAt(edges, callEdges, graph, dst, path, k)
  }

  /** Every explored node that is not on the way is expanded. */
  predicate Finished(graph: seq<Edge<string>>, explored: set<string>, way: seq<string>) {
    forall n <- explored :: n !in way ==> Expanded(graph, explored, n)
  }

  /** From what is finished without the target, the target is not reached without coming back to the way. */
  lemma {:induction false} FinishedIsHopeless(graph: seq<Edge<string>>, explored: set<string>, way: seq<string>,
                                              dst: string, w: seq<string>)
    requires Finished(graph, explored, way) && dst !in explored && Walk(graph, w)
    requires w[0] in explored && w[|w| - 1] == dst
    ensures exists n <- w :: n in way
    decreases |w|
  {
    if w[0] in way {
      assert w[0] in w;
    } else {
      assert |w| > 1 && Edge(w[0], w[1]) in graph;
      WalkSlice(graph, w, 1, |w|);
      assert w[1..|w|] == w[1..];
      assert Expanded(graph, explored, w[0]);
      FinishedIsHopeless(graph, explored, way, dst, w[1..]);
      var n :| n in w[1..] && n in way;
      assert n in w;
    }
  }

  /** The way on over edge `i`, when everything before it is explored in vain. */
  lemma ReadyNext(edges: seq<CpgEdge>, callEdges: bool, graph: seq<Edge<string>>, dst: string, explored: set<string>,
                  path: seq<string>, i: nat)
    requires path != [] && i < |edges| && Joins(edges, callEdges, i, path[|path| - 1], edges[i].target)
    requires Ready(edges, callEdges, graph, dst, path) && dst !in explored && Finished(graph, explored, path)
    requires Followed(edges, callEdges, explored, path[|path| - 1], i)
    ensures Ready(edges, callEdges, graph, dst, path + [edges[i].target])
  {
    var next := path + [edges[i].target];
    var n := |path|;
    assert next[n - 1] == path[n - 1] && next[..n] == path && next[n] == edges[i].target;
    assert ReadyAt(edges, callEdges, graph, dst, next, n) by {
      forall j | 0 <= j < i && edges[j].source == path[n - 1] && IsRelevant(edges[j], callEdges)
        ensures edges[j].target in path || Hopeless(graph, dst, edges[j].target, path)
      {
        forall w | Walk(graph, w) && w[0] == edges[j].target && w[|w| - 1] == dst
          ensures exists m <- w :: m in path
        {
          FinishedIsHopeless(graph, explored, path, dst, w);
        }
      }
    }
    forall k | 0 < k < n ensures ReadyAt(edges, callEdges, graph, dst, next, k) {
      assert ReadyAt(edges, callEdges, graph, dst, path, k);
      assert next[..k] == path[..k] && next[k - 1] == path[k - 1] && next[k] == path[k];
    }
  }

  /** While the target is looked for in vain, everything explored that is not on the way is expanded. */
  lemma NowFinished(graph: seq<Edge<string>>, src: string, dst: string, budget: Budget,
                    start: map<string, seq<string>>, tree: map<string, seq<string>>, reasons: set<Reason>,
                    items: seq<seq<string>>, before: seq<string>, node: string)
    requires Sound(graph, src, dst, budget, tree, reasons, items) && MaxDepth !in reasons && dst !in tree
    requires Grown(start, tree) && Finished(graph, start.Keys, before)
    requires AllExpanded(graph, tree, dst, budget.maxDepth, tree.Keys - start.Keys - {node})
    ensures Finished(graph, tree.Keys, before + [node])
  {
    hide RealPath, NodesOf, LeftOver;
    forall n <- tree.Keys | n !in before + [node] ensures Expanded(graph, tree.Keys, n) {
      assert n !in before && n != node;
      if n in start {
        assert Expanded(graph, start.Keys, n);
      } else if Deep(tree, budget.maxDepth, n) {
        assert !StopsAt(graph, tree, dst, budget.maxDepth, n);
      }
    }
  }

  /** A path that is ready at each step comes before every other simple path to the target. */
  lemma ReadyIsFirst(edges: seq<CpgEdge>, callEdges: bool, graph: seq<Edge<string>>, src: string, dst: string,
                     maxDepth: nat, p: seq<string>, q: seq<string>)
    requires RealPath(graph, src, dst, maxDepth, p) && Ready(edges, callEdges, graph, dst, p)
    requires Walk(graph, q) && NoRepeat(q) && q[0] == src && q[|q| - 1] == dst && p != q
    ensures Earlier(edges, callEdges, p, q)
  {
    var k := Parting(p, q);
    assert ReadyAt(edges, callEdges, graph, dst, p, k);
    var i: nat :| i < |edges| && Joins(edges, callEdges, i, p[k - 1], p[k])
                  && InVain(edges, callEdges, graph, dst, i, p[k - 1], p[..k]);
    WayOn(graph, dst, q, k);
    assert NoneUpTo(edges, callEdges, i, p[k - 1], q[k]);
    assert Sooner(edges, callEdges, p[k - 1], p[k], q[k]);
  }

  /** The rest of a simple path keeps clear of its start. */
  lemma WayOn(graph: seq<Edge<string>>, dst: string, q: seq<string>, k: nat)
    requires Walk(graph, q) && NoRepeat(q) && q[|q| - 1] == dst && k < |q|
    ensures q[k] !in q[..k] && !Hopeless(graph, dst, q[k], q[..k])
  {
    WalkSlice(graph, q, k, |q|);
    var rest := q[k..|q|];
    assert Walk(graph, rest) && rest[0] == q[k] && rest[|rest| - 1] == dst;
    assert forall n <- rest :: n !in q[..k];
  }

  /** Where two simple paths between the same ends part. */
  lemma Parting(p: seq<string>, q: seq<string>) returns (k: nat)
    requires p != [] && q != [] && NoRepeat(p) && NoRepeat(q) && p != q
    requires p[0] == q[0] && p[|p| - 1] == q[|q| - 1]
    ensures 0 < k < |p| && k < |q| && p[..k] == q[..k] && p[k] != q[k]
  {
    k := 1;
    assert p[..1] == q[..1];
    while k < |p| && k < |q| && p[k] == q[k]
      invariant 0 < k <= |p| && k <= |q| && p[..k] == q[..k]
    {
      k := k + 1;
    }
    assert p[k - 1] == p[..k][k - 1] == q[..k][k - 1] == q[k - 1];
  }

  // ----- The traversal -----

  /**
   * Each explored node has a real path to it; the target's is the one item, unless none is allowed. A depth
   * reason stands exactly for a node that stops at full depth, a node reason for an edge that is left over.
   */
  ghost predicate Sound(graph: seq<Edge<string>>, src: string, dst: string, budget: Budget,
                        tree: map<string, seq<string>>, reasons: set<Reason>, items: seq<seq<string>>) {
    && tree.Keys <= NodesOf(graph, src) && |tree.Keys| <= Max(1, budget.maxNodes)
    && (forall n <- tree :: RealPath(graph, src, n, budget.maxDepth, tree[n]))
    && items == (if dst in tree && budget.maxPaths > 0 then [tree[dst]] else [])
    && (MaxPaths in reasons <==> dst in tree && budget.maxPaths == 0)
    && (MaxNodes in reasons ==> |tree.Keys| >= budget.maxNodes && LeftOver(graph, tree.Keys, dst))
    && (MaxDepth in reasons <==> StopsAtDepth(graph, tree, dst, budget.maxDepth))
  }

  /** The node may be explored by this path. */
  predicate Next(graph: seq<Edge<string>>, src: string, budget: Budget, tree: map<string, seq<string>>,
                 reasons: set<Reason>, node: string, path: seq<string>) {
    && node !in tree && node in NodesOf(graph, src) && |tree.Keys| < Max(1, budget.maxNodes)
    && MaxNodes !in reasons && RealPath(graph, src, node, budget.maxDepth, path)
  }

  lemma TreeSize(tree: map<string, seq<string>>, node: string, path: seq<string>)
    requires node !in tree
    ensures tree[node := path].Keys == tree.Keys + {node} && |tree[node := path].Keys| == |tree.Keys| + 1
    ensures Grown(tree, tree[node := path])
  {
    assert tree[node := path].Keys == tree.Keys + {node};
  }

  lemma Arrived(graph: seq<Edge<string>>, src: string, dst: string, budget: Budget, tree: map<string, seq<string>>,
                reasons: set<Reason>, items: seq<seq<string>>, path: seq<string>)
    requires Sound(graph, src, dst, budget, tree, reasons, items) && Next(graph, src, budget, tree, reasons, dst, path)
    ensures |items| >= budget.maxPaths ==>
              Sound(graph, src, dst, budget, tree[dst := path], reasons + {MaxPaths}, items)
    ensures |items| < budget.maxPaths ==> Sound(graph, src, dst, budget, tree[dst := path], reasons, items + [path])
  {
    hide RealPath, StopsAtDepth, LeftOver, NodesOf;
    TreeSize(tree, dst, path);
    AboveDepth(graph, tree, dst, budget.maxDepth, dst, path);
  }

  lemma Stopped(graph: seq<Edge<string>>, src: string, dst: string, budget: Budget, tree: map<string, seq<string>>,
                reasons: set<Reason>, items: seq<seq<string>>, node: string, path: seq<string>, leads: bool)
    requires Sound(graph, src, dst, budget, tree, reasons, items) && node != dst
    requires Next(graph, src, budget, tree, reasons, node, path) && |path| == budget.maxDepth + 1
    requires leads <==> HasEdge(graph, node)
    ensures Sound(graph, src, dst, budget, tree[node := path], if leads then reasons + {MaxDepth} else reasons, items)
  {
    hide RealPath, StopsAtDepth, LeftOver, NodesOf, HasEdge;
    TreeSize(tree, node, path);
    AtDepth(graph, tree, dst, budget.maxDepth, node, path);
  }

  lemma Entered(graph: seq<Edge<string>>, src: string, dst: string, budget: Budget, tree: map<string, seq<string>>,
                reasons: set<Reason>, items: seq<seq<string>>, node: string, path: seq<string>)
    requires Sound(graph, src, dst, budget, tree, reasons, items) && node != dst
    requires Next(graph, src, budget, tree, reasons, node, path) && |path| <= budget.maxDepth
    ensures Sound(graph, src, dst, budget, tree[node := path], reasons, items)
  {
    hide RealPath, StopsAtDepth, LeftOver, NodesOf;
    TreeSize(tree, node, path);
    AboveDepth(graph, tree, dst, budget.maxDepth, node, path);
  }

  /** The node budget keeps an edge from being followed. */
  lemma CutOff(edges: seq<CpgEdge>, callEdges: bool, graph: seq<Edge<string>>, src: string, dst: string,
               budget: Budget, tree: map<string, seq<string>>, reasons: set<Reason>, items: seq<seq<string>>,
               edge: CpgEdge)
    requires Sound(graph, src, dst, budget, tree, reasons, items) && |tree.Keys| >= budget.maxNodes
    requires graph == Relevant(edges, callEdges) && edge in edges && IsRelevant(edge, callEdges)
    requires edge.source in tree && edge.source != dst && edge.target !in tree
    ensures Sound(graph, src, dst, budget, tree, reasons + {MaxNodes}, items)
  {
    hide Relevant, RealPath, StopsAtDepth, NodesOf;
    RelevantExact(edges, callEdges, Edge(edge.source, edge.target));
  }

  /** What exploring one node by its path makes of the tree. */
  lemma FitsTree(graph: seq<Edge<string>>, src: string, dst: string, budget: Budget, tree: map<string, seq<string>>,
                 reasons: set<Reason>, node: string, path: seq<string>)
    requires Next(graph, src, budget, tree, reasons, node, path)
    ensures node !in tree && node in NodesOf(graph, src) && |path| <= budget.maxDepth + 1
    ensures RealPath(graph, src, node, budget.maxDepth, path)
    ensures tree[node := path].Keys == tree.Keys + {node} && Grown(tree, tree[node := path])
    ensures node == dst || |path| == budget.maxDepth + 1 ==>
              AllExpanded(graph, tree[node := path], dst, budget.maxDepth, tree[node := path].Keys - tree.Keys)
  {
    TreeSize(tree, node, path);
    assert tree[node := path].Keys - tree.Keys == {node};
  }

  lemma NoneFollowed(edges: seq<CpgEdge>, callEdges: bool, graph: seq<Edge<string>>, tree: map<string, seq<string>>,
                     dst: string, maxDepth: nat, node: string, start: set<string>)
    requires tree.Keys == start + {node}
    ensures Followed(edges, callEdges, tree.Keys, node, 0)
    ensures AllExpanded(graph, tree, dst, maxDepth, tree.Keys - start - {node})
  {
    assert tree.Keys - start - {node} == {};
  }

  /** One relevant edge to an unexplored node extends the path there. */
  lemma StepOn(edges: seq<CpgEdge>, callEdges: bool, graph: seq<Edge<string>>, src: string, dst: string,
               budget: Budget, tree: map<string, seq<string>>, reasons: set<Reason>, items: seq<seq<string>>,
               path: seq<string>, edge: CpgEdge)
    requires Sound(graph, src, dst, budget, tree, reasons, items) && |tree.Keys| < budget.maxNodes
    requires graph == Relevant(edges, callEdges) && RealPath(graph, src, edge.source, budget.maxDepth, path)
    requires edge in edges && IsRelevant(edge, callEdges) && edge.target !in tree
    requires (forall n <- path :: n in tree) && |path| <= budget.maxDepth
    ensures Next(graph, src, budget, tree, reasons, edge.target, path + [edge.target]) && MaxNodes !in reasons
  {
    hide Relevant, StopsAtDepth, LeftOver;
    var e := Edge(edge.source, edge.target);
    RelevantExact(edges, callEdges, e);
    WalkExtends(graph, path, edge.target);
    assert e in graph && e.to in NodesOf(graph, src);
  }

  class Traversal {
    const edges: seq<CpgEdge>
    const callEdges: bool
    const src: string
    const dst: string
    const budget: Budget
    var explored: set<string>
    var reasons: set<Reason>
    var items: seq<seq<string>>

    ghost const graph: seq<Edge<string>>
    /** The path that led to each explored node. */
    ghost var tree: map<string, seq<string>>

    ghost predicate Valid()
      reads this
    {
      && graph == Relevant(edges, callEdges) && explored == tree.Keys
      && Sound(graph, src, dst, budget, tree, reasons, items)
    }

    constructor (edges: seq<CpgEdge>, callEdges: bool, src: string, dst: string, budget: Budget)
      ensures Valid() && explored == {} && reasons == {} && items == [] && tree == map[]
      ensures this.edges == edges && this.callEdges == callEdges && this.src == src && this.dst == dst
      ensures this.budget == budget
    {
      this.edges, this.callEdges, this.src, this.dst, this.budget := edges, callEdges, src, dst, budget;
      explored, reasons, items, tree := {}, {}, [], map[];
      graph := Relevant(edges, callEdges);
    }

    /** Neither depth nor nodes have run out. */
    ghost predicate Calm()
      reads this
    {
      MaxNodes !in reasons && MaxDepth !in reasons
    }

    /** While calm, the path to the target, once there is one, is ready at each step. */
    ghost predicate FirstFound()
      reads this
    {
      Calm() && dst in tree ==> Ready(edges, callEdges, graph, dst, tree[dst])
    }

    /** Explores the target: the path that led there is an item, unless none is allowed. */
    method Arrive(path: seq<string>)
      requires Valid() && Next(graph, src, budget, tree, reasons, dst, path)
      modifies this`explored, this`reasons, this`items, this`tree
      ensures Valid() && tree == old(tree)[dst := path]
      ensures old(reasons) <= reasons <= old(reasons) + {MaxPaths}
    {
      hide Next, Sound, Relevant;
      Arrived(graph, src, dst, budget, tree, reasons, items, path);
      explored, tree := explored + {dst}, tree[dst := path];
      if |items| >= budget.maxPaths {
        reasons := reasons + {MaxPaths};
      } else {
        items := items + [path];
      }
    }

    /** Explores a node at full depth: any edge out of it is cut off, wherever it leads. */
    method Stop(node: string, path: seq<string>)
      requires Valid() && Next(graph, src, budget, tree, reasons, node, path)
      requires node != dst && |path| == budget.maxDepth + 1
      modifies this`explored, this`reasons, this`tree
      ensures Valid() && tree == old(tree)[node := path] && old(reasons) <= reasons
    {
      hide Next, Sound, Relevant, LeadsOut, HasEdge;
      LeadsOutExactly(edges, callEdges, graph, node);
      Stopped(graph, src, dst, budget, tree, reasons, items, node, path, HasEdge(graph, node));
      explored, tree := explored + {node}, tree[node := path];
      NoneLeadsOut(edges, callEdges, node);
      for i := 0 to |edges|
        invariant explored == old(explored) + {node} && tree == old(tree)[node := path]
        invariant reasons == if LeadsOut(edges, callEdges, node, i) then old(reasons) + {MaxDepth} else old(reasons)
      {
        NextLeadsOut(edges, callEdges, node, i);
        if edges[i].source == node && IsRelevant(edges[i], callEdges) {
          reasons := reasons + {MaxDepth};
        }
      }
    }

    /**
     * Explores one node and, unless it is the target, everything beyond it that the budget allows. Unless the
     * node budget cuts it short, every node it explores above full depth, other than the target, ends up
     * expanded.
     */
    method Explore(node: string, before: seq<string>)
      requires Valid() && Next(graph, src, budget, tree, reasons, node, before + [node])
      requires (forall n <- before :: n in explored) && FirstFound()
      requires Calm() && dst !in tree ==>
                 Finished(graph, explored, before) && Ready(edges, callEdges, graph, dst, before + [node])
      modifies this`explored, this`reasons, this`items, this`tree
      ensures Valid() && old(explored) + {node} <= explored && Grown(old(tree), tree)
      ensures old(reasons) <= reasons && FirstFound()
      ensures MaxNodes !in reasons ==>
                AllExpanded(graph, tree, dst, budget.maxDepth, tree.Keys - old(tree).Keys)
      decreases NodesOf(graph, src) - explored
    {
      hide Next, Sound, Relevant, NodesOf, Followed, AllExpanded, Grown, Ready, Finished;
      var path := before + [node];
      FitsTree(graph, src, dst, budget, tree, reasons, node, path);
      if node == dst {
        Arrive(path);
        return;
      }
      if |path| > budget.maxDepth {
        Stop(node, path);
        return;
      }
      Entered(graph, src, dst, budget, tree, reasons, items, node, path);
      explored, tree := explored + {node}, tree[node := path];
      NoneFollowed(edges, callEdges, graph, tree, dst, budget.maxDepth, node, old(tree).Keys);
      for i := 0 to |edges|
        invariant Valid() && old(explored) + {node} <= explored && Grown(old(tree), tree)
        invariant old(reasons) <= reasons && FirstFound()
        invariant MaxNodes !in reasons ==>
                    && AllExpanded(graph, tree, dst, budget.maxDepth, tree.Keys - old(tree).Keys - {node})
                    && Followed(edges, callEdges, explored, node, i)
      {
        var edge := edges[i];
        ghost var earlier := tree;
        if edge.source == node && IsRelevant(edge, callEdges) && edge.target !in explored {
          if |explored| >= budget.maxNodes {
            CutOff(edges, callEdges, graph, src, dst, budget, tree, reasons, items, edge);
            reasons := reasons + {MaxNodes};
          } else {
            StepOn(edges, callEdges, graph, src, dst, budget, tree, reasons, items, path, edge);
            if Calm() && dst !in tree {
              NowFinished(graph, src, dst, budget, old(tree), tree, reasons, items, before, node);
              ReadyNext(edges, callEdges, graph, dst, explored, path, i);
            }
            Explore(edge.target, path);
            GrownTwice(old(tree), earlier, tree);
            if MaxNodes !in reasons {
              ExpandedBeyond(graph, old(tree).Keys, earlier, tree, dst, budget.maxDepth, node);
            }
          }
        }
        if MaxNodes !in reasons {
          FollowedNext(edges, callEdges, earlier.Keys, explored, node, i);
        }
      }
      if MaxNodes !in reasons {
        NodeExpanded(edges, callEdges, graph, old(tree).Keys, tree, dst, budget.maxDepth, node);
      }
    }
  }

  /** Some relevant edge among the first `n` leaves the node. */
  predicate LeadsOut(edges: seq<CpgEdge>, callEdges: bool, node: string, n: nat)
    requires n <= |edges|
  {
    exists k | 0 <= k < n :: edges[k].source == node && IsRelevant(edges[k], callEdges)
  }

  lemma NoneLeadsOut(edges: seq<CpgEdge>, callEdges: bool, node: string)
    ensures !LeadsOut(edges, callEdges, node, 0)
  {}

  lemma NextLeadsOut(edges: seq<CpgEdge>, callEdges: bool, node: string, i: nat)
    requires i < |edges|
    ensures LeadsOut(edges, callEdges, node, i + 1) <==>
            LeadsOut(edges, callEdges, node, i) || (edges[i].source == node && IsRelevant(edges[i], callEdges))
  {}

  lemma LeadsOutExactly(edges: seq<CpgEdge>, callEdges: bool, graph: seq<Edge<string>>, node: string)
    requires graph == Relevant(edges, callEdges)
    ensures LeadsOut(edges, callEdges, node, |edges|) <==> HasEdge(graph, node)
  {
    hide Relevant;
    if k :| 0 <= k < |edges| && edges[k].source == node && IsRelevant(edges[k], callEdges) {
      RelevantExact(edges, callEdges, Edge(node, edges[k].target));
    }
    if e :| e in graph && e.from == node {
      RelevantExact(edges, callEdges, e);
    }
  }

  // ----- What comes back -----

  datatype Result = Result(items: seq<seq<string>>, reasons: set<Reason>, exploredNodes: nat, exploredPaths: nat)

  ghost predicate HoldsAllPaths(graph: seq<Edge<string>>, src: string, dst: string, maxDepth: nat,
                                items: seq<seq<string>>) {
    forall path :: RealPath(graph, src, dst, maxDepth, path) ==> path in items
  }

  ghost predicate OnePathAtMost(graph: seq<Edge<string>>, src: string, dst: string, maxDepth: nat) {
    forall p, q | RealPath(graph, src, dst, maxDepth, p) && RealPath(graph, src, dst, maxDepth, q) :: p == q
  }

  predicate SimplePath(graph: seq<Edge<string>>, src: string, dst: string, path: seq<string>) {
    Walk(graph, path) && NoRepeat(path) && path[0] == src && path[|path| - 1] == dst
  }

  /** The path is before every other simple path between its ends, in the order of the edges. */
  ghost predicate ComesFirst(edges: seq<CpgEdge>, callEdges: bool, src: string, dst: string, path: seq<string>) {
    forall q | SimplePath(Relevant(edges, callEdges), src, dst, q) && q != path :: Earlier(edges, callEdges, path, q)
  }

  /**
   * At most one path comes back. A depth reason is given exactly when a node stops at full depth, and a reason
   * to go on is left over exactly when the node budget cut the traversal short or an edge out of such a node
   * leads to a node not explored. Unless depth or nodes run out, the path is the first of all simple paths in the
   * order of the edges. Without a reason a path comes back exactly when the target is reachable, and
   * all paths there are exactly when there are no two. A budget as large as the graph gives no reason.
   */
  method Traverse(edges: seq<CpgEdge>, src: string, dst: string, budget: Budget, callEdges: bool)
    returns (result: Result, ghost tree: map<string, seq<string>>)
    ensures var graph := Relevant(edges, callEdges);
            && src in tree && tree.Keys <= NodesOf(graph, src) && result.exploredNodes == |tree|
            && (forall n <- tree :: RealPath(graph, src, n, budget.maxDepth, tree[n]))
            && result.exploredNodes <= Max(1, budget.maxNodes) && result.exploredNodes <= |NodesOf(graph, src)|
            && result.items == (if dst in tree && budget.maxPaths > 0 then [tree[dst]] else [])
            && result.exploredPaths == |result.items|
    ensures var graph := Relevant(edges, callEdges);
            && (MaxPaths in result.reasons <==> dst in tree && budget.maxPaths == 0)
            && (MaxNodes in result.reasons ==> result.exploredNodes >= budget.maxNodes)
            && (MaxDepth in result.reasons <==> StopsAtDepth(graph, tree, dst, budget.maxDepth))
            && (LeftOver(graph, tree.Keys, dst) <==>
                MaxNodes in result.reasons || LeftBelow(graph, tree, dst, budget.maxDepth))
    ensures var graph := Relevant(edges, callEdges);
            result.reasons == {} ==>
              && (result.items != [] <==> Reaches(graph, src, dst))
              && (HoldsAllPaths(graph, src, dst, budget.maxDepth, result.items) <==>
                  OnePathAtMost(graph, src, dst, budget.maxDepth))
    ensures MaxDepth !in result.reasons && MaxNodes !in result.reasons && dst in tree ==>
              ComesFirst(edges, callEdges, src, dst, tree[dst])
    ensures var size := |NodesOf(Relevant(edges, callEdges), src)|;
            size <= budget.maxDepth && size <= budget.maxNodes && budget.maxPaths > 0 ==> result.reasons == {}
  {
    hide Ready, ComesFirst, Finished;
    hide Walk, NoRepeat, Relevant, RealPath, LeftOver, StopsAtDepth, LeftBelow, HoldsAllPaths, OnePathAtMost, Reaches;
    var search := new Traversal(edges, callEdges, src, dst, budget);
    ghost var graph := search.graph;
    StartsReal(graph, src, budget.maxDepth);
    assert [] + [src] == [src] && src in NodesOf(graph, src);
    StartsReady(edges, callEdges, graph, src, dst);
    search.Explore(src, []);
    tree := search.tree;
    result := Result(search.items, search.reasons, |search.explored|, |search.items|);
    SubsetSize(tree.Keys, NodesOf(graph, src));
    assert |tree| == |tree.Keys|;
    if search.Calm() && dst in tree {
      FirstOfAll(edges, callEdges, src, dst, budget.maxDepth, tree[dst]);
    }
    if MaxNodes !in result.reasons {
      assert tree.Keys - {} == tree.Keys;
      LeftExactly(graph, tree, dst, budget.maxDepth);
    }
    BelowIsLeft(graph, tree, dst, budget.maxDepth);
    RoomForAll(graph, src, dst, budget, tree, result.reasons, result.items);
    if result.reasons == {} {
      NothingLeft(graph, tree, src, dst, budget.maxDepth);
      AllPathsExactly(graph, src, dst, budget.maxDepth, result.items);
    }
  }

  lemma StartsReady(edges: seq<CpgEdge>, callEdges: bool, graph: seq<Edge<string>>, src: string, dst: string)
    ensures Finished(graph, {}, []) && Ready(edges, callEdges, graph, dst, [src])
  {}

  lemma FirstOfAll(edges: seq<CpgEdge>, callEdges: bool, src: string, dst: string, maxDepth: nat, path: seq<string>)
    requires var graph := Relevant(edges, callEdges);
             RealPath(graph, src, dst, maxDepth, path) && Ready(edges, callEdges, graph, dst, path)
    ensures ComesFirst(edges, callEdges, src, dst, path)
  {
    hide Relevant, Ready, Earlier;
    var graph := Relevant(edges, callEdges);
    forall q | SimplePath(graph, src, dst, q) && q != path ensures Earlier(edges, callEdges, path, q) {
      ReadyIsFirst(edges, callEdges, graph, src, dst, maxDepth, path, q);
    }
  }

  /** A simple path has no more nodes than the graph, and a graph explored in full leaves nothing over. */
  lemma RoomForAll(graph: seq<Edge<string>>, src: string, dst: string, budget: Budget, tree: map<string, seq<string>>,
                   reasons: set<Reason>, items: seq<seq<string>>)
    requires Sound(graph, src, dst, budget, tree, reasons, items)
    ensures var size := |NodesOf(graph, src)|;
            size <= budget.maxDepth && size <= budget.maxNodes && budget.maxPaths > 0 ==> reasons == {}
  {
    hide NodesOf, RealPath;
    if MaxDepth in reasons {
      var n :| n in tree && StopsAt(graph, tree, dst, budget.maxDepth, n);
      PathFits(graph, src, n, budget.maxDepth, tree[n]);
    }
    if MaxNodes in reasons {
      var e :| e in graph && e.from in tree.Keys && e.from != dst && e.to !in tree.Keys;
      TargetIsNode(graph, src, e);
      SubsetSize(tree.Keys, NodesOf(graph, src));
    }
    EachReason(reasons);
  }

  lemma EachReason(reasons: set<Reason>)
    ensures reasons == {} || MaxDepth in reasons || MaxNodes in reasons || MaxPaths in reasons
  {
    forall r <- reasons ensures r in {MaxDepth, MaxNodes, MaxPaths} {
      assert r.MaxDepth? || r.MaxNodes? || r.MaxPaths?;
    }
  }

  lemma TargetIsNode(graph: seq<Edge<string>>, src: string, e: Edge<string>)
    requires e in graph
    ensures e.to in NodesOf(graph, src)
  {}

  lemma PathFits(graph: seq<Edge<string>>, src: string, dst: string, maxDepth: nat, path: seq<string>)
    requires RealPath(graph, src, dst, maxDepth, path)
    ensures |path| <= |NodesOf(graph, src)|
  {
    forall n <- path ensures n in NodesOf(graph, src) {
      var i :| 0 <= i < |path| && path[i] == n;
      if i > 0 {
        assert Edge(path[i - 1], path[i]) in graph;
      }
    }
    DistinctWithin(path, NodesOf(graph, src));
  }

  lemma StartsReal(graph: seq<Edge<string>>, src: string, maxDepth: nat)
    ensures RealPath(graph, src, src, maxDepth, [src])
  {
    SingleWalk(graph, src);
  }

  lemma BelowIsLeft(graph: seq<Edge<string>>, tree: map<string, seq<string>>, dst: string, maxDepth: nat)
    ensures LeftBelow(graph, tree, dst, maxDepth) ==> LeftOver(graph, tree.Keys, dst)
  {}

  /** With all nodes above full depth expanded, what is left over is below full depth. */
  lemma LeftExactly(graph: seq<Edge<string>>, tree: map<string, seq<string>>, dst: string, maxDepth: nat)
    requires AllExpanded(graph, tree, dst, maxDepth, tree.Keys)
    ensures LeftOver(graph, tree.Keys, dst) <==> LeftBelow(graph, tree, dst, maxDepth)
  {
    if e :| e in graph && e.from in tree.Keys && e.from != dst && e.to !in tree.Keys {
      assert !Expanded(graph, tree.Keys, e.from);
      assert Deep(tree, maxDepth, e.from);
    }
  }

  /** When nothing stops at full depth and nothing else is left over, the target is explored if it is reachable. */
  lemma NothingLeft(graph: seq<Edge<string>>, tree: map<string, seq<string>>, src: string, dst: string, maxDepth: nat)
    requires src in tree && (forall n <- tree :: RealPath(graph, src, n, maxDepth, tree[n]))
    requires AllExpanded(graph, tree, dst, maxDepth, tree.Keys) && !StopsAtDepth(graph, tree, dst, maxDepth)
    ensures dst in tree <==> Reaches(graph, src, dst)
  {
    if dst in tree {
      assert RealPath(graph, src, dst, maxDepth, tree[dst]);
    } else {
      forall e <- graph | e.from in tree.Keys ensures e.to in tree.Keys {
        assert !StopsAt(graph, tree, dst, maxDepth, e.from);
      }
      forall w | Walk(graph, w) && w[0] == src ensures w[|w| - 1] != dst {
        ClosedHolds(graph, tree.Keys, w);
      }
    }
  }

  /** Of at most one item nothing is missing exactly when there are no two simple paths within the depth. */
  lemma AllPathsExactly(graph: seq<Edge<string>>, src: string, dst: string, maxDepth: nat, items: seq<seq<string>>)
    requires |items| <= 1 && (forall item <- items :: RealPath(graph, src, dst, maxDepth, item))
    requires items != [] <==> Reaches(graph, src, dst)
    ensures HoldsAllPaths(graph, src, dst, maxDepth, items) <==> OnePathAtMost(graph, src, dst, maxDepth)
  {
    hide NoRepeat;
    forall path | RealPath(graph, src, dst, maxDepth, path) ensures items != [] {
      assert Walk(graph, path) && path[0] == src && path[|path| - 1] == dst;
    }
    if OnePathAtMost(graph, src, dst, maxDepth) {
      forall path | RealPath(graph, src, dst, maxDepth, path) ensures path in items {
        assert RealPath(graph, src, dst, maxDepth, items[0]);
      }
    }
  }

  // ----- Two small graphs -----

  const DIAMOND := [
    CpgEdge(FlowsTo, "a", "b", "ab"), CpgEdge(FlowsTo, "a", "c", "ac"),
    CpgEdge(FlowsTo, "b", "d", "bd"), CpgEdge(FlowsTo, "c", "d", "cd")]

  const OVER_B := ["a", "b", "d"]
  const OVER_C := ["a", "c", "d"]

  lemma DiamondPaths(graph: seq<Edge<string>>)
    requires graph == Relevant(DIAMOND, false)
    ensures NodesOf(graph, "a") == {"a", "b", "c", "d"}
    ensures RealPath(graph, "a", "d", 9, OVER_B) && RealPath(graph, "a", "d", 9, OVER_C) && OVER_B != OVER_C
  {
    hide Relevant;
    forall k | 0 <= k < |DIAMOND| ensures Edge(DIAMOND[k].source, DIAMOND[k].target) in graph {
      assert DIAMOND[k] in DIAMOND;
      RelevantExact(DIAMOND, false, Edge(DIAMOND[k].source, DIAMOND[k].target));
    }
    assert Edge(DIAMOND[0].source, DIAMOND[0].target) == Edge("a", "b");
    assert Edge(DIAMOND[1].source, DIAMOND[1].target) == Edge("a", "c");
    assert Edge(DIAMOND[2].source, DIAMOND[2].target) == Edge("b", "d");
    assert Edge(DIAMOND[3].source, DIAMOND[3].target) == Edge("c", "d");
    forall e <- graph ensures e.to in {"b", "c", "d"} {
      RelevantExact(DIAMOND, false, e);
    }
    assert OVER_B[1] != OVER_C[1];
  }

  lemma NothingBeforeB(p: seq<string>)
    ensures !Earlier(DIAMOND, false, p, OVER_B)
  {
    if k :| 0 < k < |p| && k < |OVER_B| && p[..k] == OVER_B[..k]
            && Sooner(DIAMOND, false, p[k - 1], p[k], OVER_B[k]) {
      assert p[k - 1] == p[..k][k - 1] == OVER_B[k - 1];
      var i: nat :| i < |DIAMOND| && Joins(DIAMOND, false, i, p[k - 1], p[k])
                    && NoneUpTo(DIAMOND, false, i, p[k - 1], OVER_B[k]);
      assert k == 1 || k == 2;
      assert DIAMOND[0].source == "a" && DIAMOND[0].target == "b" && IsRelevant(DIAMOND[0], false);
    }
  }

  /** Over a diamond the path by the edge that stands first comes back without any reason, and the other does not. */
  method DiamondTraversed() returns (result: Result)
    ensures result.reasons == {} && result.items == [OVER_B]
    ensures RealPath(Relevant(DIAMOND, false), "a", "d", 9, OVER_C) && OVER_C !in result.items
  {
    hide Relevant, StopsAtDepth, LeftOver, LeftBelow, Earlier;
    ghost var graph := Relevant(DIAMOND, false);
    DiamondPaths(graph);
    ghost var tree;
    result, tree := Traverse(DIAMOND, "a", "d", Budget(9, 99, 9), false);
    assert Reaches(graph, "a", "d") by { RealReaches(graph, "a", "d", 9, OVER_B); }
    NothingBeforeB(tree["d"]);
    assert SimplePath(graph, "a", "d", OVER_B);
  }

  lemma RealReaches(graph: seq<Edge<string>>, src: string, dst: string, maxDepth: nat, path: seq<string>)
    requires RealPath(graph, src, dst, maxDepth, path)
    ensures Reaches(graph, src, dst)
  {
    assert Walk(graph, path) && path[0] == src && path[|path| - 1] == dst;
  }

  const THERE_AND_BACK := [CpgEdge(FlowsTo, "a", "b", "ab"), CpgEdge(FlowsTo, "b", "a", "ba")]

  lemma ThereAndBack(graph: seq<Edge<string>>)
    requires graph == Relevant(THERE_AND_BACK, false)
    ensures forall e :: e in graph <==> e == Edge("a", "b") || e == Edge("b", "a")
    ensures NodesOf(graph, "a") == {"a", "b"}
  {
    hide Relevant;
    assert THERE_AND_BACK[0] in THERE_AND_BACK && THERE_AND_BACK[1] in THERE_AND_BACK;
    forall e ensures e in graph <==> e == Edge("a", "b") || e == Edge("b", "a") {
      RelevantExact(THERE_AND_BACK, false, e);
    }
    assert Edge("a", "b") in graph && Edge("b", "a") in graph;
  }

  /**
   * From `a` over `b` and back with one edge allowed, the depth is reported although both nodes are explored and
   * no edge leads to any other: a budget reached exactly is not called complete here.
   */
  method ExactDepthReported() returns (result: Result, ghost tree: map<string, seq<string>>)
    ensures MaxDepth in result.reasons && result.exploredNodes == 2
    ensures !LeftOver(Relevant(THERE_AND_BACK, false), tree.Keys, "z")
    ensures tree.Keys == NodesOf(Relevant(THERE_AND_BACK, false), "a")
  {
    hide Relevant;
    ghost var graph := Relevant(THERE_AND_BACK, false);
    ThereAndBack(graph);
    result, tree := Traverse(THERE_AND_BACK, "a", "z", Budget(1, 9, 9), false);
    BothExplored(graph, tree, result.reasons);
  }

  lemma BothExplored(graph: seq<Edge<string>>, tree: map<string, seq<string>>, reasons: set<Reason>)
    requires (forall e :: e in graph <==> e == Edge("a", "b") || e == Edge("b", "a"))
    requires NodesOf(graph, "a") == {"a", "b"} && "a" in tree && tree.Keys <= {"a", "b"}
    requires forall n <- tree :: RealPath(graph, "a", n, 1, tree[n])
    requires MaxNodes in reasons ==> |tree| >= 9
    requires MaxDepth in reasons <==> StopsAtDepth(graph, tree, "z", 1)
    requires LeftOver(graph, tree.Keys, "z") <==> MaxNodes in reasons || LeftBelow(graph, tree, "z", 1)
    ensures tree.Keys == {"a", "b"} && !LeftOver(graph, tree.Keys, "z") && MaxDepth in reasons && |tree| == 2
  {
    SubsetSize(tree.Keys, {"a", "b"});
    assert |tree| == |tree.Keys|;
    assert tree["a"] == ["a"];
    assert Edge("a", "b") in graph && Edge("b", "a") in graph;
    assert "b" in tree;
    assert |tree["b"]| == 2;
    assert StopsAt(graph, tree, "z", 1, "b");
  }
}
