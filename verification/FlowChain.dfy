/** The representative value-flow chain of a case. */
module FlowChain {
  import opened Basics
  import opened Graphs
  import opened Orders
  import opened CaseLinks

  /** The flow edges of a case, as a graph. */
  function Flow(edges: seq<Link>): seq<Edge<string>> {
    if edges == [] then []
    else
      var last := edges[|edges| - 1];
      Flow(edges[..|edges| - 1]) + (if last.kind == FlowsTo then [Edge(last.from, last.to)] else [])
  }

  function Nodes(graph: seq<Edge<string>>): set<string> {
    (set e | e in graph :: e.from) + (set e | e in graph :: e.to)
  }

  function Successors(graph: seq<Edge<string>>, node: string): set<string> {
    set e | e in graph && e.from == node :: e.to
  }

  function Predecessors(graph: seq<Edge<string>>, node: string): set<string> {
    set e | e in graph && e.to == node :: e.from
  }

  function Roots(graph: seq<Edge<string>>): set<string> {
    set node | node in Nodes(graph) && Predecessors(graph, node) == {}
  }

  lemma EdgeEnds(graph: seq<Edge<string>>, a: string, b: string)
    ensures b in Successors(graph, a) <==> Edge(a, b) in graph
    ensures a in Predecessors(graph, b) <==> Edge(a, b) in graph
    ensures Edge(a, b) in graph ==> a in Nodes(graph) && b in Nodes(graph)
  {
    if b in Successors(graph, a) {
      var e :| e in graph && e.from == a && e.to == b;
      assert e == Edge(a, b);
    }
    if a in Predecessors(graph, b) {
      var e :| e in graph && e.from == a && e.to == b;
      assert e == Edge(a, b);
    }
    if Edge(a, b) in graph {
      var e := Edge(a, b);
      assert e.from == a && e.to == b;
    }
  }

  /** The table of successor sets: one entry for every node with an edge out of it. */
  ghost predicate Tabulates(successors: map<string, set<string>>, graph: seq<Edge<string>>) {
    forall node :: (node in successors <==> Successors(graph, node) != {})
                   && (node in successors ==> successors[node] == Successors(graph, node))
  }

  predicate CountsPredecessors(counts: map<string, nat>, graph: seq<Edge<string>>, done: set<string>) {
    counts.Keys == Nodes(graph) && forall node <- counts :: counts[node] == |Predecessors(graph, node) - done|
  }

  // ----- Tables -----

  /** Adds one for each target. */
  method CountUp(counts: map<string, nat>, targets: set<string>) returns (more: map<string, nat>)
    requires targets <= counts.Keys
    ensures more.Keys == counts.Keys
    ensures forall node <- counts :: more[node] == counts[node] + if node in targets then 1 else 0
  {
    more := counts;
    var left := targets;
    while left != {}
      invariant left <= targets && more.Keys == counts.Keys
      invariant forall node <- counts :: more[node] == counts[node] + if node in targets - left then 1 else 0
      decreases left
    {
      var target :| target in left;
      more := more[target := more[target] + 1];
      left := left - {target};
    }
  }

  method TabulateEdges(edges: seq<Link>) returns (successors: map<string, set<string>>, nodes: map<string, nat>)
    ensures Tabulates(successors, Flow(edges))
    ensures nodes.Keys == Nodes(Flow(edges)) && forall node <- nodes :: nodes[node] == 0
  {
    hide Nodes, Tabulates, Flow;
    successors, nodes := map[], map[];
    NothingTabulated();
    EmptyGraph();
    for i := 0 to |edges|
      invariant Tabulates(successors, Flow(edges[..i]))
      invariant nodes.Keys == Nodes(Flow(edges[..i])) && forall node <- nodes :: nodes[node] == 0
    {
      var edge := edges[i];
      ghost var graph := Flow(edges[..i]);
      FlowStep(edges, i);
      if edge.kind == FlowsTo {
        NextEdge(graph, Edge(edge.from, edge.to));
        var targets := if edge.from in successors then successors[edge.from] else {};
        TabulatesNext(successors, graph, Edge(edge.from, edge.to));
        successors := successors[edge.from := targets + {edge.to}];
        nodes := nodes[edge.from := 0][edge.to := 0];
      }
    }
    assert edges[..|edges|] == edges;
  }

  lemma FlowStep(edges: seq<Link>, i: nat)
    requires i < |edges|
    ensures edges[i].kind == FlowsTo ==>
              Flow(edges[..i + 1]) == Flow(edges[..i]) + [Edge(edges[i].from, edges[i].to)]
    ensures edges[i].kind != FlowsTo ==> Flow(edges[..i + 1]) == Flow(edges[..i])
  {
    assert edges[..i + 1][..i] == edges[..i];
  }

  lemma TabulatesNext(successors: map<string, set<string>>, graph: seq<Edge<string>>, e: Edge<string>)
    requires Tabulates(successors, graph)
    ensures var targets := if e.from in successors then successors[e.from] else {};
            Tabulates(successors[e.from := targets + {e.to}], graph + [e])
  {
    hide Successors;
    NextEdge(graph, e);
  }

  lemma NothingTabulated()
    ensures Tabulates(map[], []) && Flow([]) == []
  {
    hide Successors;
    EmptyGraph();
  }

  lemma EmptyGraph()
    ensures Nodes([]) == {} && forall node :: Successors([], node) == {}
  {}

  lemma NextEdge(graph: seq<Edge<string>>, e: Edge<string>)
    ensures Nodes(graph + [e]) == Nodes(graph) + {e.from, e.to}
    ensures forall node :: Successors(graph + [e], node) ==
                           Successors(graph, node) + if node == e.from then {e.to} else {}
  {
    var more := graph + [e];
    assert e in more && forall x <- graph :: x in more;
    forall node ensures Successors(more, node) == Successors(graph, node) + if node == e.from then {e.to} else {} {}
  }

  method CountInputs(ghost graph: seq<Edge<string>>, successors: map<string, set<string>>, nodes: map<string, nat>)
    returns (indegree: map<string, nat>)
    requires Tabulates(successors, graph) && nodes.Keys == Nodes(graph) && forall node <- nodes :: nodes[node] == 0
    ensures CountsPredecessors(indegree, graph, {})
  {
    hide Nodes, Predecessors, Tabulates;
    indegree := nodes;
    var left := successors.Keys;
    forall node ensures |Predecessors(graph, node) * (successors.Keys - left)| == 0 {
      assert successors.Keys - left == {};
      assert Predecessors(graph, node) * {} == {};
    }
    while left != {}
      invariant left <= successors.Keys && indegree.Keys == Nodes(graph)
      invariant forall node <- indegree :: indegree[node] == |Predecessors(graph, node) * (successors.Keys - left)|
      decreases left
    {
      var from :| from in left;
      Targets(graph, successors, from);
      var next := CountUp(indegree, successors[from]);
      var done := successors.Keys - left;
      assert successors.Keys - (left - {from}) == done + {from};
      forall node <- indegree ensures next[node] == |Predecessors(graph, node) * (done + {from})| {
        OneMore(graph, node, from, done);
      }
      indegree, left := next, left - {from};
    }
    forall node <- indegree ensures indegree[node] == |Predecessors(graph, node) - {}| {
      AllPredecessorsTabulated(graph, successors, node);
    }
  }

  lemma Targets(graph: seq<Edge<string>>, successors: map<string, set<string>>, from: string)
    requires Tabulates(successors, graph) && from in successors
    ensures successors[from] <= Nodes(graph)
    ensures forall node :: node in successors[from] <==> from in Predecessors(graph, node)
  {
    forall node ensures node in successors[from] <==> from in Predecessors(graph, node)
                ensures node in successors[from] ==> node in Nodes(graph)
    {
      EdgeEnds(graph, from, node);
    }
  }

  lemma OneMore(graph: seq<Edge<string>>, node: string, from: string, done: set<string>)
    requires from !in done
    ensures |Predecessors(graph, node) * (done + {from})| ==
            |Predecessors(graph, node) * done| + if from in Predecessors(graph, node) then 1 else 0
  {
    var all := Predecessors(graph, node);
    assert all * (done + {from}) == all * done + (if from in all then {from} else {});
  }

  lemma AllPredecessorsTabulated(graph: seq<Edge<string>>, successors: map<string, set<string>>, node: string)
    requires Tabulates(successors, graph)
    ensures Predecessors(graph, node) * (successors.Keys - {}) == Predecessors(graph, node) - {}
  {
    forall from <- Predecessors(graph, node) ensures from in successors {
      EdgeEnds(graph, from, node);
    }
  }

  // ----- The work list -----

  lemma {:induction false} DistinctSize(s: seq<string>)
    requires NoRepeat(s)
    ensures |Members(s)| == |s|
  {
    if s == [] {
      assert Members(s) == {};
    } else {
      DistinctSize(s[1..]);
      assert Members(s) == Members(s[1..]) + {s[0]};
      assert s[0] !in s[1..];
    }
  }

  /** Every edge into a listed node comes from a node listed before it. */
  predicate Ordered(graph: seq<Edge<string>>, order: seq<string>) {
    forall e <- graph, k | 0 <= k < |order| && order[k] == e.to :: e.from in order[..k]
  }

  /** The listed nodes are those nothing is left to wait for, each after all its predecessors. */
  ghost predicate Listed(graph: seq<Edge<string>>, counts: map<string, nat>, ready: seq<string>) {
    && counts.Keys == Nodes(graph) && NoRepeat(ready) && Ordered(graph, ready)
    && (forall node <- ready :: node in counts)
    && (forall node <- counts :: node in ready <==> counts[node] == 0)
  }

  /** Takes one from each target, and lists those that come to nothing. */
  method CountDown(counts: map<string, nat>, targets: set<string>)
    returns (fewer: map<string, nat>, freed: seq<string>)
    requires targets <= counts.Keys && forall node <- targets :: counts[node] > 0
    ensures fewer.Keys == counts.Keys
    ensures forall node <- counts :: fewer[node] == counts[node] - if node in targets then 1 else 0
    ensures NoRepeat(freed) && forall node :: node in freed <==> node in targets && fewer[node] == 0
  {
    fewer, freed := counts, [];
    var left := targets;
    while left != {}
      invariant left <= targets && fewer.Keys == counts.Keys
      invariant forall node <- counts :: fewer[node] == counts[node] - if node in targets - left then 1 else 0
      invariant NoRepeat(freed) && forall node :: node in freed <==> node in targets - left && fewer[node] == 0
      decreases left
    {
      var target :| target in left;
      fewer := fewer[target := fewer[target] - 1];
      if fewer[target] == 0 {
        freed := freed + [target];
      }
      left := left - {target};
    }
  }

  lemma OneFewer(graph: seq<Edge<string>>, node: string, u: string, done: set<string>)
    requires u !in done
    ensures |Predecessors(graph, node) - done| ==
            |Predecessors(graph, node) - (done + {u})| + if u in Predecessors(graph, node) then 1 else 0
  {
    var all := Predecessors(graph, node);
    assert all - done == (all - (done + {u})) + (if u in all then {u} else {});
  }

  /** A node that waits for nothing has all its predecessors done. */
  lemma NothingLeft(graph: seq<Edge<string>>, node: string, done: set<string>)
    ensures |Predecessors(graph, node) - done| == 0 <==> forall e <- graph :: e.to == node ==> e.from in done
  {
    var waiting := Predecessors(graph, node) - done;
    if waiting == {} {
      forall e <- graph | e.to == node ensures e.from in done {
        assert e.from in Predecessors(graph, node) && e.from !in waiting;
      }
    } else {
      var from :| from in waiting;
      var e :| e in graph && e.to == node && e.from == from;
    }
  }

  lemma OrderedMore(graph: seq<Edge<string>>, order: seq<string>, more: seq<string>, done: set<string>)
    requires Ordered(graph, order) && (forall x <- more :: x !in order) && done <= Members(order)
    requires forall e <- graph :: e.to in more ==> e.from in done
    ensures Ordered(graph, order + more)
  {
    forall e <- graph, k | 0 <= k < |order + more| && (order + more)[k] == e.to
      ensures e.from in (order + more)[..k]
    {
      if k < |order| {
        assert (order + more)[..k] == order[..k];
      } else {
        assert e.to in more;
        assert order <= (order + more)[..k];
      }
    }
  }

  lemma DistinctMore(order: seq<string>, more: seq<string>)
    requires NoRepeat(order) && NoRepeat(more) && forall x <- more :: x !in order
    ensures NoRepeat(order + more)
  {
    forall i, j | 0 <= i < j < |order + more| ensures (order + more)[i] != (order + more)[j] {
      if i < |order| && j >= |order| {
        assert more[j - |order|] in more && order[i] in order;
      }
    }
  }

  /** A list that stops short leaves a cycle behind; one that holds every node is an order of them. */
  lemma Decides(graph: seq<Edge<string>>, counts: map<string, nat>, ready: seq<string>)
    requires Listed(graph, counts, ready) && CountsPredecessors(counts, graph, Members(ready))
    ensures |ready| == |counts| <==> !Cyclic(graph)
  {
    hide Predecessors, Nodes;
    DistinctSize(ready);
    assert Members(ready) <= counts.Keys;
    SubsetSize(Members(ready), counts.Keys);
    if |ready| == |counts| {
      assert Members(ready) == counts.Keys;
      forall e <- graph ensures e.to in ready {
        EdgeEnds(graph, e.from, e.to);
        assert e == Edge(e.from, e.to);
      }
      ForwardIsAcyclic(graph, ready);
    } else {
      var stuck := counts.Keys - Members(ready);
      assert stuck != {} by { assert Members(ready) != counts.Keys; }
      forall y <- stuck ensures Preceded(graph, stuck, y) {
        NothingLeft(graph, y, Members(ready));
        var e :| e in graph && e.to == y && e.from !in Members(ready);
        EdgeEnds(graph, e.from, e.to);
        assert e == Edge(e.from, e.to);
      }
      Trapped(graph, stuck);
    }
  }

  /** A set in ascending order, as an ordered container lists it. */
  method InOrder(ids: set<string>) returns (listed: seq<string>)
    ensures NoRepeat(listed) && Members(listed) == ids
    ensures forall i, j | 0 <= i < j < |listed| :: LexLess(listed[i], listed[j])
  {
    hide LexLeq, LexLess;
    listed := [];
    var left := ids;
    while left != {}
      invariant left <= ids && Members(listed) == ids - left
      invariant NoRepeat(listed) && forall x <- listed, y <- left :: LexLess(x, y)
      invariant forall i, j | 0 <= i < j < |listed| :: LexLess(listed[i], listed[j])
      decreases left
    {
      var least := Least(left);
      assert least !in listed by { assert least !in Members(listed); }
      assert Members(listed + [least]) == Members(listed) + {least};
      forall x <- listed + [least], y <- left - {least} ensures LexLess(x, y) {}
      listed, left := listed + [least], left - {least};
    }
  }

  lemma RootsListed(graph: seq<Edge<string>>, counts: map<string, nat>, roots: seq<string>)
    requires CountsPredecessors(counts, graph, {}) && NoRepeat(roots)
    requires Members(roots) == (set node | node in counts && counts[node] == 0)
    ensures Members(roots) == Roots(graph) && Listed(graph, counts, roots)
  {
    hide Predecessors, Nodes;
    forall node <- counts ensures node in roots <==> counts[node] == 0 {
      assert node in Members(roots) <==> counts[node] == 0;
    }
    forall node <- roots ensures node in counts {
      assert node in Members(roots);
    }
    forall node | node in Nodes(graph) ensures node in Members(roots) <==> Predecessors(graph, node) == {} {
      assert Predecessors(graph, node) - {} == Predecessors(graph, node);
    }
    forall e <- graph ensures e.to !in roots {
      NothingLeft(graph, e.to, {});
    }
  }

  /** One node processed: its successors wait for one node less, and those left waiting for none are listed. */
  method Process(ghost graph: seq<Edge<string>>, successors: map<string, set<string>>, counts: map<string, nat>,
                 ready: seq<string>, node: string, ghost done: set<string>)
    returns (fewer: map<string, nat>, more: seq<string>)
    requires Tabulates(successors, graph) && Listed(graph, counts, ready) && CountsPredecessors(counts, graph, done)
    requires node in ready && node !in done && done <= Members(ready)
    ensures ready <= more && Listed(graph, fewer, more) && CountsPredecessors(fewer, graph, done + {node})
  {
    hide Tabulates, Predecessors, Nodes, Listed;
    var targets := if node in successors then successors[node] else {};
    TargetsOf(graph, successors, node);
    forall t <- counts
      ensures counts[t] == |Predecessors(graph, t) - (done + {node})| + if t in targets then 1 else 0
    {
      OneFewer(graph, t, node, done);
    }
    var freed;
    fewer, freed := CountDown(counts, targets);
    ListedMore(graph, counts, ready, fewer, freed, targets, done + {node});
    more := ready + freed;
  }

  lemma ListedMore(graph: seq<Edge<string>>, counts: map<string, nat>, ready: seq<string>,
                   fewer: map<string, nat>, freed: seq<string>, targets: set<string>, done: set<string>)
    requires Listed(graph, counts, ready) && CountsPredecessors(fewer, graph, done) && done <= Members(ready)
    requires targets <= counts.Keys && forall t <- targets :: counts[t] > 0
    requires forall t <- counts :: fewer[t] == counts[t] - if t in targets then 1 else 0
    requires NoRepeat(freed) && forall t :: t in freed <==> t in targets && fewer[t] == 0
    ensures Listed(graph, fewer, ready + freed)
  {
    hide Predecessors, Nodes, Ordered, Members, NoRepeat;
    DistinctMore(ready, freed);
    forall e <- graph | e.to in freed ensures e.from in done {
      NothingLeft(graph, e.to, done);
    }
    OrderedMore(graph, ready, freed, done);
    forall t <- fewer ensures t in ready + freed <==> fewer[t] == 0 {
      assert t in ready <==> counts[t] == 0;
    }
  }

  lemma TargetsOf(graph: seq<Edge<string>>, successors: map<string, set<string>>, node: string)
    requires Tabulates(successors, graph)
    ensures var targets := if node in successors then successors[node] else {};
            targets <= Nodes(graph) && forall t :: t in targets <==> node in Predecessors(graph, t)
  {
    if node in successors {
      Targets(graph, successors, node);
    } else {
      forall t ensures node !in Predecessors(graph, t) {
        EdgeEnds(graph, node, t);
      }
    }
  }

  /** Runs the work list from the roots; it visits every node exactly when the flow has no cycle. */
  method IsAcyclic(ghost graph: seq<Edge<string>>, successors: map<string, set<string>>, indegree: map<string, nat>,
                   roots: seq<string>) returns (acyclic: bool)
    requires Tabulates(successors, graph) && CountsPredecessors(indegree, graph, {})
    requires Listed(graph, indegree, roots)
    ensures acyclic <==> !Cyclic(graph)
  {
    hide Tabulates, CountsPredecessors, Listed;
    var remaining, ready := indegree, roots;
    var visited := 0;
    ghost var done: set<string> := {};
    while visited < |ready|
      invariant visited <= |ready| && done == Members(ready[..visited])
      invariant Listed(graph, remaining, ready) && CountsPredecessors(remaining, graph, done)
      decreases Nodes(graph) - done
    {
      var node := ready[visited];
      FreshNode(graph, remaining, ready, visited);
      remaining, ready := Process(graph, successors, remaining, ready, node, done);
      assert Members(ready[..visited + 1]) == done + {node};
      done := done + {node};
      visited := visited + 1;
    }
    assert ready[..visited] == ready;
    Decides(graph, remaining, ready);
    assert |remaining| == |indegree| by { SameNodes(graph, remaining, indegree, done); }
    acyclic := visited == |indegree|;
  }

  lemma FreshNode(graph: seq<Edge<string>>, counts: map<string, nat>, ready: seq<string>, i: nat)
    requires Listed(graph, counts, ready) && i < |ready|
    ensures ready[i] in ready && ready[i] in Nodes(graph) && ready[i] !in Members(ready[..i])
    ensures Members(ready[..i]) <= Members(ready)
  {}

  lemma SameNodes(graph: seq<Edge<string>>, a: map<string, nat>, b: map<string, nat>, done: set<string>)
    requires CountsPredecessors(a, graph, done) && CountsPredecessors(b, graph, {})
    ensures |a| == |b|
  {
    hide Nodes;
    assert |a| == |a.Keys| && |b| == |b.Keys|;
  }

  // ----- The chain -----

  predicate IsLeast(x: string, ids: set<string>) {
    x in ids && forall y <- ids :: LexLeq(x, y)
  }

  /** From the least root, always to the least successor, until there is none. */
  predicate IsChain(graph: seq<Edge<string>>, chain: seq<string>) {
    && |chain| > 0 && IsLeast(chain[0], Roots(graph))
    && (forall i | 0 < i < |chain| :: IsLeast(chain[i], Successors(graph, chain[i - 1])))
    && Successors(graph, chain[|chain| - 1]) == {}
  }

  lemma ChainWalks(graph: seq<Edge<string>>, chain: seq<string>)
    requires |chain| > 0
    requires forall i | 0 < i < |chain| :: IsLeast(chain[i], Successors(graph, chain[i - 1]))
    ensures Walk(graph, chain)
  {
    forall i | 0 < i < |chain| ensures Edge(chain[i - 1], chain[i]) in graph {
      EdgeEnds(graph, chain[i - 1], chain[i]);
    }
  }

  lemma RepeatIsCycle(graph: seq<Edge<string>>, w: seq<string>, i: nat, j: nat)
    requires Walk(graph, w) && i < j < |w| && w[i] == w[j]
    ensures Cyclic(graph)
  {
    WalkSlice(graph, w, i, j + 1);
    assert ClosedWalk(graph, w[i..j + 1]);
  }

  /** A walk in a graph without cycles comes to no node twice. */
  lemma AcyclicWalkDistinct(graph: seq<Edge<string>>, w: seq<string>)
    requires !Cyclic(graph) && Walk(graph, w)
    ensures NoRepeat(w)
  {
    forall i, j | 0 <= i < j < |w| ensures w[i] != w[j] {
      if w[i] == w[j] {
        RepeatIsCycle(graph, w, i, j);
      }
    }
  }

  lemma LeastOf(x: string, ids: set<string>)
    requires x in ids && forall y <- ids - {x} :: LexLess(x, y)
    ensures IsLeast(x, ids)
  {
    LexReflexive(x);
    forall y <- ids ensures LexLeq(x, y) {
      assert y == x || y in ids - {x};
    }
  }

  /** Follows least successors from a root; without cycles it comes to an end. */
  method Follow(ghost graph: seq<Edge<string>>, successors: map<string, set<string>>, root: string)
    returns (chain: seq<string>)
    requires Tabulates(successors, graph) && !Cyclic(graph) && IsLeast(root, Roots(graph))
    ensures IsChain(graph, chain) && chain[0] == root
  {
    hide Tabulates, Cyclic, Successors, Nodes, IsLeast, NoRepeat;
    chain := [root];
    var cursor := root;
    assert root in Nodes(graph) by { RootIsNode(graph, root); }
    assert Members(chain) == {root};
    while cursor in successors
      invariant |chain| > 0 && chain[0] == root && chain[|chain| - 1] == cursor
      invariant forall i | 0 < i < |chain| :: IsLeast(chain[i], Successors(graph, chain[i - 1]))
      invariant Members(chain) <= Nodes(graph) && |Members(chain)| == |chain|
      decreases |Nodes(graph)| - |chain|
    {
      var targets := successors[cursor];
      TabulatedAt(graph, successors, cursor);
      var next := Least(targets);
      LeastOf(next, targets);
      chain := chain + [next];
      cursor := next;
      ChainWalks(graph, chain);
      AcyclicWalkDistinct(graph, chain);
      DistinctSize(chain);
      assert next in Nodes(graph) by { SuccessorIsNode(graph, chain[|chain| - 2], next); }
      assert Members(chain) <= Nodes(graph);
      SubsetSize(Members(chain), Nodes(graph));
    }
    assert Successors(graph, cursor) == {} by { TabulatedAt(graph, successors, cursor); }
  }

  lemma RootIsNode(graph: seq<Edge<string>>, root: string)
    requires IsLeast(root, Roots(graph))
    ensures root in Nodes(graph)
  {}

  lemma SuccessorIsNode(graph: seq<Edge<string>>, a: string, b: string)
    requires IsLeast(b, Successors(graph, a))
    ensures b in Nodes(graph)
  {
    EdgeEnds(graph, a, b);
  }

  lemma TabulatedAt(graph: seq<Edge<string>>, successors: map<string, set<string>>, node: string)
    requires Tabulates(successors, graph)
    ensures node in successors ==> successors[node] == Successors(graph, node) != {}
    ensures node !in successors ==> Successors(graph, node) == {}
  {}

  /** Without cycles, flow has a root, and every root has somewhere to go. */
  lemma RootsExist(graph: seq<Edge<string>>)
    requires graph != [] && !Cyclic(graph)
    ensures Roots(graph) != {} && forall root <- Roots(graph) :: Successors(graph, root) != {}
  {
    hide Cyclic;
    if Roots(graph) == {} {
      var nodes := Nodes(graph);
      assert graph[0] in graph && graph[0].from in nodes;
      forall y <- nodes ensures Preceded(graph, nodes, y) {
        assert y !in Roots(graph);
        var e :| e in graph && e.to == y;
        assert e.from in nodes;
      }
      Trapped(graph, nodes);
    }
    forall root <- Roots(graph) ensures Successors(graph, root) != {} {
      assert forall e <- graph :: e.to == root ==> e.from in Predecessors(graph, root);
      var e :| e in graph && e.from == root;
      assert e.to in Successors(graph, root);
    }
  }

  /** The chain of a flow without cycles has at least two segments, each joined to the next by a flow edge. */
  lemma ChainIsPath(graph: seq<Edge<string>>, chain: seq<string>)
    requires graph != [] && !Cyclic(graph) && IsChain(graph, chain)
    ensures |chain| >= 2 && Walk(graph, chain) && NoRepeat(chain)
  {
    hide Cyclic, Successors, Roots;
    RootsExist(graph);
    ChainWalks(graph, chain);
    AcyclicWalkDistinct(graph, chain);
  }

  /** At the first node where they differ, the one list has the smaller. */
  predicate Before(a: seq<string>, b: seq<string>) {
    exists k | 0 <= k < |a| && k < |b| :: a[..k] == b[..k] && LexLess(a[k], b[k])
  }

  /** Of all walks from a root to where nothing follows, the chain is the first in lexicographic order. */
  lemma ChainComesFirst(graph: seq<Edge<string>>, chain: seq<string>, w: seq<string>)
    requires IsChain(graph, chain) && Walk(graph, w) && w != chain
    requires w[0] in Roots(graph) && Successors(graph, w[|w| - 1]) == {}
    ensures Before(chain, w)
  {
    hide LexLeq, Roots, Successors;
    var k := 0;
    while k < |chain| && k < |w| && chain[k] == w[k]
      invariant k <= |chain| && k <= |w| && chain[..k] == w[..k]
    {
      k := k + 1;
    }
    if k > 0 {
      assert chain[k - 1] == chain[..k][k - 1] == w[k - 1];
    }
    if 0 < k < |w| {
      EdgeEnds(graph, w[k - 1], w[k]);
    }
    assert 0 < k < |chain| ==> chain[k] in Successors(graph, chain[k - 1]);
    assert k < |chain| && k < |w|;
    assert LexLess(chain[k], w[k]);
  }

  // ----- When the chain is not the whole flow -----

  predicate OnChain(chain: seq<string>, e: Edge<string>) {
    exists i | 0 < i < |chain| :: chain[i - 1] == e.from && chain[i] == e.to
  }

  predicate Branches(graph: seq<Edge<string>>) {
    exists node <- Nodes(graph) :: |Successors(graph, node)| > 1
  }

  lemma OnlyOne<T>(s: set<T>, x: T, y: T)
    requires |s| <= 1 && x in s && y in s
    ensures x == y
  {
    if x != y {
      var pair := {x, y};
      SubsetSize(pair, s);
    }
  }

  /** One root and no branch put every node on the chain. */
  lemma ChainHoldsAll(graph: seq<Edge<string>>, chain: seq<string>)
    requires !Cyclic(graph) && IsChain(graph, chain) && |Roots(graph)| <= 1 && !Branches(graph)
    ensures forall node <- Nodes(graph) :: node in chain
  {
    hide Cyclic, NoRepeat;
    var off := Nodes(graph) - Members(chain);
    if off != {} {
      forall y <- off ensures Preceded(graph, off, y) {
        OffChainPreceded(graph, chain, y);
      }
      Trapped(graph, off);
    }
    assert forall node <- Nodes(graph) :: node in off || node in Members(chain);
  }

  lemma OffChainPreceded(graph: seq<Edge<string>>, chain: seq<string>, y: string)
    requires IsChain(graph, chain) && |Roots(graph)| <= 1 && !Branches(graph)
    requires y in Nodes(graph) - Members(chain)
    ensures Preceded(graph, Nodes(graph) - Members(chain), y)
  {
    hide LexLeq;
    if y in Roots(graph) {
      OnlyOne(Roots(graph), y, chain[0]);
    }
    assert Predecessors(graph, y) != {};
    var e :| e in graph && e.to == y;
    assert e == Edge(e.from, e.to);
    EdgeEnds(graph, e.from, y);
    if e.from in chain {
      var i :| 0 <= i < |chain| && chain[i] == e.from;
      assert y in Successors(graph, chain[i]);
      assert chain[i + 1] in Successors(graph, chain[i]);
      assert |Successors(graph, e.from)| <= 1;
      OnlyOne(Successors(graph, e.from), y, chain[i + 1]);
    }
  }

  /** More than one root, or a branch, exactly when some flow edge is off the chain. */
  lemma MixedExactly(graph: seq<Edge<string>>, chain: seq<string>)
    requires graph != [] && !Cyclic(graph) && IsChain(graph, chain)
    ensures |Roots(graph)| > 1 || Branches(graph) <==> exists e <- graph :: !OnChain(chain, e)
  {
    hide Cyclic, LexLeq;
    ChainIsPath(graph, chain);
    if |Roots(graph)| > 1 {
      OtherRoot(graph, chain);
    } else if Branches(graph) {
      OtherBranch(graph, chain);
    } else {
      ChainHoldsAll(graph, chain);
      forall e <- graph ensures OnChain(chain, e) {
        assert e == Edge(e.from, e.to);
        EdgeEnds(graph, e.from, e.to);
        var i :| 0 <= i < |chain| && chain[i] == e.from;
        assert e.to in Successors(graph, chain[i]);
        assert chain[i + 1] in Successors(graph, chain[i]);
        OnlyOne(Successors(graph, e.from), e.to, chain[i + 1]);
      }
    }
  }

  lemma OtherRoot(graph: seq<Edge<string>>, chain: seq<string>)
    requires graph != [] && !Cyclic(graph) && IsChain(graph, chain) && NoRepeat(chain) && |Roots(graph)| > 1
    ensures exists e <- graph :: !OnChain(chain, e)
  {
    hide Cyclic, LexLeq;
    var others := Roots(graph) - {chain[0]};
    assert others != {} by {
      if others == {} {
        assert Roots(graph) <= {chain[0]};
        SubsetSize(Roots(graph), {chain[0]});
      }
    }
    var root :| root in others;
    RootsExist(graph);
    var e :| e in graph && e.from == root;
    if OnChain(chain, e) {
      var i :| 0 < i < |chain| && chain[i - 1] == e.from && chain[i] == e.to;
      assert i - 1 > 0;
      assert chain[i - 1] in Successors(graph, chain[i - 2]);
      EdgeEnds(graph, chain[i - 2], chain[i - 1]);
    }
  }

  lemma OtherBranch(graph: seq<Edge<string>>, chain: seq<string>)
    requires NoRepeat(chain) && Branches(graph)
    ensures exists e <- graph :: !OnChain(chain, e)
  {
    var node :| node in Nodes(graph) && |Successors(graph, node)| > 1;
    var targets := Successors(graph, node);
    var a :| a in targets;
    assert targets - {a} != {} by {
      if targets - {a} == {} {
        assert targets <= {a};
        SubsetSize(targets, {a});
      }
    }
    var b :| b in targets - {a};
    EdgeEnds(graph, node, a);
    EdgeEnds(graph, node, b);
    assert !(OnChain(chain, Edge(node, a)) && OnChain(chain, Edge(node, b)));
  }

  datatype Outcome = NoFlow | CyclicFlow | Chain(segments: seq<string>, mixed: bool)

  /**
   * Refuses exactly the cyclic flows; otherwise gives the representative chain, marked as mixed exactly when
   * it leaves a flow edge out.
   */
  method BuildPaths(edges: seq<Link>) returns (outcome: Outcome)
    ensures outcome.NoFlow? <==> Flow(edges) == []
    ensures outcome.CyclicFlow? <==> Cyclic(Flow(edges))
    ensures outcome.Chain? ==>
              && IsChain(Flow(edges), outcome.segments) && |outcome.segments| >= 2
              && Walk(Flow(edges), outcome.segments) && NoRepeat(outcome.segments)
              && (outcome.mixed <==> exists e <- Flow(edges) :: !OnChain(outcome.segments, e))
  {
    hide Tabulates, CountsPredecessors, Listed, Cyclic, Roots, Successors, Nodes, IsChain, Branches, NoRepeat;
    var successors, nodes := TabulateEdges(edges);
    ghost var graph := Flow(edges);
    if successors == map[] {
      NoSuccessors(graph, successors);
      return NoFlow;
    }
    SomeSuccessors(graph, successors);
    var indegree := CountInputs(graph, successors, nodes);
    var roots := InOrder(set node | node in indegree && indegree[node] == 0);
    RootsListed(graph, indegree, roots);
    var acyclic := IsAcyclic(graph, successors, indegree, roots);
    if !acyclic {
      return CyclicFlow;
    }
    RootsExist(graph);
    FirstRoot(graph, roots);
    var chain := Follow(graph, successors, roots[0]);
    ChainIsPath(graph, chain);
    MixedExactly(graph, chain);
    var branch := exists from <- successors :: |successors[from]| > 1;
    assert branch <==> Branches(graph) by { BranchTabulated(graph, successors); }
    assert |roots| == |Roots(graph)| by { DistinctSize(roots); }
    return Chain(chain, |roots| > 1 || branch);
  }

  lemma NoSuccessors(graph: seq<Edge<string>>, successors: map<string, set<string>>)
    requires Tabulates(successors, graph) && successors == map[]
    ensures graph == [] && !Cyclic(graph)
  {
    if graph != [] {
      var e := graph[0];
      assert e == Edge(e.from, e.to) && e in graph;
      EdgeEnds(graph, e.from, e.to);
    }
    forall w ensures !ClosedWalk(graph, w) {
      if |w| > 1 {
        assert Edge(w[0], w[1]) !in graph;
      }
    }
  }

  lemma SomeSuccessors(graph: seq<Edge<string>>, successors: map<string, set<string>>)
    requires Tabulates(successors, graph) && successors != map[]
    ensures graph != []
  {
    var node :| node in successors;
    assert Successors(graph, node) != {};
  }

  lemma FirstRoot(graph: seq<Edge<string>>, roots: seq<string>)
    requires Members(roots) == Roots(graph) && Roots(graph) != {}
    requires forall i, j | 0 <= i < j < |roots| :: LexLess(roots[i], roots[j])
    ensures |roots| > 0 && IsLeast(roots[0], Roots(graph))
  {
    hide Roots;
    var root :| root in Roots(graph);
    assert root in Members(roots);
    assert roots[0] in Members(roots);
    LexReflexive(roots[0]);
    forall y <- Roots(graph) ensures LexLeq(roots[0], y) {
      assert y in Members(roots);
      var i :| 0 <= i < |roots| && roots[i] == y;
    }
  }

  lemma BranchTabulated(graph: seq<Edge<string>>, successors: map<string, set<string>>)
    requires Tabulates(successors, graph)
    ensures (exists from <- successors :: |successors[from]| > 1) <==> Branches(graph)
  {
    if from :| from in successors && |successors[from]| > 1 {
      var b :| b in successors[from];
      EdgeEnds(graph, from, b);
    }
    if Branches(graph) {
      var node :| node in Nodes(graph) && |Successors(graph, node)| > 1;
      assert node in successors;
    }
  }
}
