/** Flow paths between two values: enumeration within a depth, reachability at any depth. */
module ValueFlow {
  import opened Basics
  import opened Orders
  import opened Cpg

  datatype Entry = Entry(target: string, edge: string)

  type Adjacency = map<string, seq<Entry>>

  datatype Path = Path(nodes: seq<string>, edges: seq<string>)

  function Entries(adjacency: Adjacency, node: string): seq<Entry> {
    if node in adjacency then adjacency[node] else []
  }

  // ----- Flow paths -----

  /** Consecutive nodes are joined by the listed edges. */
  predicate Joined(adjacency: Adjacency, path: Path) {
    && |path.nodes| == |path.edges| + 1
    && forall i | 0 <= i < |path.edges| ::
         Entry(path.nodes[i + 1], path.edges[i]) in Entries(adjacency, path.nodes[i])
  }

  predicate Simple(adjacency: Adjacency, path: Path) {
    Joined(adjacency, path) && NoRepeat(path.nodes)
  }

  /** A simple flow path from `src` to `dst` of at most `maxDepth` edges. */
  predicate FlowPath(adjacency: Adjacency, src: string, dst: string, maxDepth: nat, path: Path) {
    && Simple(adjacency, path) && |path.edges| <= maxDepth
    && path.nodes[0] == src && path.nodes[|path.nodes| - 1] == dst
  }

  predicate Extends(path: Path, prefix: Path) {
    prefix.nodes <= path.nodes && prefix.edges <= path.edges
  }

  // ----- Depth-first enumeration -----

  /** Every way to complete a path at hand, in the order of the adjacency lists. */
  function Completions(adjacency: Adjacency, dst: string, maxDepth: nat, at: Path): seq<Path>
    requires |at.nodes| > 0
    decreases maxDepth - |at.edges|, 1, 0
  {
    var node := at.nodes[|at.nodes| - 1];
    if node == dst then [at]
    else if |at.edges| >= maxDepth then []
    else Branches(adjacency, dst, maxDepth, at, Entries(adjacency, node))
  }

  function Extended(at: Path, entry: Entry): Path {
    Path(at.nodes + [entry.target], at.edges + [entry.edge])
  }

  function Branches(adjacency: Adjacency, dst: string, maxDepth: nat, at: Path, entries: seq<Entry>): seq<Path>
    requires |at.nodes| > 0 && |at.edges| < maxDepth
    decreases maxDepth - |at.edges|, 0, |entries|
  {
    if entries == [] then []
    else
      (if entries[0].target in at.nodes then [] else Completions(adjacency, dst, maxDepth, Extended(at, entries[0])))
      + Branches(adjacency, dst, maxDepth, at, entries[1..])
  }

  /** A completion is a simple path that goes on from the one at hand and ends at `dst`. */
  predicate Completes(adjacency: Adjacency, dst: string, maxDepth: nat, at: Path, path: Path) {
    && Simple(adjacency, path) && Extends(path, at) && |path.edges| <= maxDepth
    && path.nodes[|path.nodes| - 1] == dst
  }

  lemma ExtendedSimple(adjacency: Adjacency, at: Path, entry: Entry)
    requires Simple(adjacency, at) && entry.target !in at.nodes
    requires entry in Entries(adjacency, at.nodes[|at.nodes| - 1])
    ensures Simple(adjacency, Extended(at, entry))
  {
    var next := Extended(at, entry);
    forall i | 0 <= i < |next.edges|
      ensures Entry(next.nodes[i + 1], next.edges[i]) in Entries(adjacency, next.nodes[i])
    {
      if i < |at.edges| {
        assert next.nodes[i + 1] == at.nodes[i + 1] && next.edges[i] == at.edges[i];
      } else {
        assert Entry(next.nodes[i + 1], next.edges[i]) == entry;
      }
    }
  }

  lemma ExtendsStep(path: Path, at: Path, entry: Entry)
    ensures Extends(path, Extended(at, entry)) <==>
            && Extends(path, at) && |path.nodes| > |at.nodes| && |path.edges| > |at.edges|
            && path.nodes[|at.nodes|] == entry.target && path.edges[|at.edges|] == entry.edge
  {
    var next := Extended(at, entry);
    if Extends(path, next) {
      assert at.nodes <= path.nodes && at.edges <= path.edges;
      assert path.nodes[|at.nodes|] == next.nodes[|at.nodes|];
    }
  }

  predicate Through(at: Path, entries: seq<Entry>, path: Path) {
    exists e <- entries :: e.target !in at.nodes && Extends(path, Extended(at, e))
  }

  /** A path that goes on beyond the one at hand does so through one of its node's entries. */
  lemma GoesThrough(adjacency: Adjacency, dst: string, maxDepth: nat, at: Path, path: Path)
    requires Simple(adjacency, at) && Completes(adjacency, dst, maxDepth, at, path)
    requires at.nodes[|at.nodes| - 1] != dst
    ensures |path.edges| > |at.edges| && Through(at, Entries(adjacency, at.nodes[|at.nodes| - 1]), path)
  {
    var n := |at.nodes|;
    assert path.nodes[n - 1] == at.nodes[n - 1];
    var e := Entry(path.nodes[n], path.edges[n - 1]);
    assert e in Entries(adjacency, path.nodes[n - 1]);
    assert forall i | 0 <= i < n :: at.nodes[i] == path.nodes[i];
    ExtendsStep(path, at, e);
  }

  /** A path that ends at `dst`, and was there before, has gone nowhere since. */
  lemma AlreadyThere(adjacency: Adjacency, dst: string, maxDepth: nat, at: Path, path: Path)
    requires Simple(adjacency, at) && at.nodes[|at.nodes| - 1] == dst && |at.edges| <= maxDepth
    ensures Completes(adjacency, dst, maxDepth, at, path) <==> path == at
  {
    if Completes(adjacency, dst, maxDepth, at, path) {
      assert path.nodes[|at.nodes| - 1] == dst;
      assert |path.nodes| == |at.nodes|;
    }
  }

  /** Enumeration finds exactly the completions. */
  lemma {:induction false} CompletionsExact(adjacency: Adjacency, dst: string, maxDepth: nat, at: Path, path: Path)
    requires Simple(adjacency, at) && |at.edges| <= maxDepth
    ensures path in Completions(adjacency, dst, maxDepth, at) <==> Completes(adjacency, dst, maxDepth, at, path)
    decreases maxDepth - |at.edges|, 1, 0
  {
    hide Branches, Simple, Extends;
    NonEmpty(adjacency, at);
    var node := at.nodes[|at.nodes| - 1];
    if node == dst {
      AlreadyThere(adjacency, dst, maxDepth, at, path);
    } else {
      if Completes(adjacency, dst, maxDepth, at, path) {
        GoesThrough(adjacency, dst, maxDepth, at, path);
      }
      if |at.edges| < maxDepth {
        BranchesExact(adjacency, dst, maxDepth, at, Entries(adjacency, node), path);
      }
    }
  }

  lemma NonEmpty(adjacency: Adjacency, at: Path)
    requires Simple(adjacency, at)
    ensures |at.nodes| > 0
  {}

  lemma {:induction false} BranchesExact(adjacency: Adjacency, dst: string, maxDepth: nat, at: Path,
                                         entries: seq<Entry>, path: Path)
    requires Simple(adjacency, at) && |at.edges| < maxDepth
    requires forall e <- entries :: e in Entries(adjacency, at.nodes[|at.nodes| - 1])
    ensures path in Branches(adjacency, dst, maxDepth, at, entries) <==>
            Completes(adjacency, dst, maxDepth, at, path) && Through(at, entries, path)
    decreases maxDepth - |at.edges|, 0, |entries|
  {
    hide Completions, Simple, Extends;
    NonEmpty(adjacency, at);
    if entries != [] {
      var e, rest := entries[0], entries[1..];
      assert e in entries && forall x <- rest :: x in entries;
      BranchesExact(adjacency, dst, maxDepth, at, rest, path);
      assert Through(at, entries, path) <==>
             (e.target !in at.nodes && Extends(path, Extended(at, e))) || Through(at, rest, path) by {
        assert entries == [e] + rest;
      }
      if e.target !in at.nodes {
        ExtendedSimple(adjacency, at, e);
        CompletionsExact(adjacency, dst, maxDepth, Extended(at, e), path);
        ExtendsStep(path, at, e);
      }
    }
  }

  // ----- Each path once -----

  predicate ListsDistinct(adjacency: Adjacency) {
    forall node <- adjacency :: NoRepeat(adjacency[node])
  }

  lemma {:induction false} CompletionsDistinct(adjacency: Adjacency, dst: string, maxDepth: nat, at: Path)
    requires Simple(adjacency, at) && |at.edges| <= maxDepth && ListsDistinct(adjacency)
    ensures NoRepeat(Completions(adjacency, dst, maxDepth, at))
    decreases maxDepth - |at.edges|, 1, 0
  {
    hide Branches, Simple;
    NonEmpty(adjacency, at);
    var node := at.nodes[|at.nodes| - 1];
    if node != dst && |at.edges| < maxDepth {
      BranchesDistinct(adjacency, dst, maxDepth, at, Entries(adjacency, node));
    }
  }

  lemma {:induction false} BranchesDistinct(adjacency: Adjacency, dst: string, maxDepth: nat, at: Path,
                                            entries: seq<Entry>)
    requires Simple(adjacency, at) && |at.edges| < maxDepth && ListsDistinct(adjacency) && NoRepeat(entries)
    requires forall e <- entries :: e in Entries(adjacency, at.nodes[|at.nodes| - 1])
    ensures NoRepeat(Branches(adjacency, dst, maxDepth, at, entries))
    decreases maxDepth - |at.edges|, 0, |entries|
  {
    hide Completions, Simple, Extends, ListsDistinct;
    NonEmpty(adjacency, at);
    if entries != [] {
      var e, rest := entries[0], entries[1..];
      assert e in entries && forall x <- rest :: x in entries;
      BranchesDistinct(adjacency, dst, maxDepth, at, rest);
      if e.target !in at.nodes {
        ExtendedSimple(adjacency, at, e);
        var first, others := Completions(adjacency, dst, maxDepth, Extended(at, e)),
                             Branches(adjacency, dst, maxDepth, at, rest);
        CompletionsDistinct(adjacency, dst, maxDepth, Extended(at, e));
        forall path | path in first ensures path !in others {
          CompletionsExact(adjacency, dst, maxDepth, Extended(at, e), path);
          BranchesExact(adjacency, dst, maxDepth, at, rest, path);
          OneWayOn(at, e, rest, path);
        }
        DistinctJoin(first, others);
      }
    }
  }

  /** A path goes on from the one at hand through one entry only. */
  lemma OneWayOn(at: Path, entry: Entry, others: seq<Entry>, path: Path)
    requires Extends(path, Extended(at, entry)) && entry !in others
    ensures !Through(at, others, path)
  {
    ExtendsStep(path, at, entry);
    forall e <- others ensures !Extends(path, Extended(at, e)) {
      ExtendsStep(path, at, e);
    }
  }

  lemma DistinctJoin<T>(a: seq<T>, b: seq<T>)
    requires NoRepeat(a) && NoRepeat(b) && forall x | x in a :: x !in b
    ensures NoRepeat(a + b)
  {
    forall i, j | 0 <= i < j < |a + b| ensures (a + b)[i] != (a + b)[j] {
      if i < |a| && j >= |a| {
        assert a[i] in a && b[j - |a|] in b;
      }
    }
  }

  /** The stacks of the search and the paths found so far. */
  class PathFinder {
    const adjacency: Adjacency
    const dst: string
    const maxDepth: nat
    var nodes: seq<string>
    var edges: seq<string>
    var visited: set<string>
    var paths: seq<Path>

    predicate Valid()
      reads this
    {
      |nodes| > 0 && visited == (set node | node in nodes)
    }

    constructor (adjacency: Adjacency, src: string, dst: string, maxDepth: nat)
      ensures Valid() && nodes == [src] && edges == [] && paths == []
      ensures this.adjacency == adjacency && this.dst == dst && this.maxDepth == maxDepth
    {
      this.adjacency, this.dst, this.maxDepth := adjacency, dst, maxDepth;
      nodes, edges, visited, paths := [src], [], {src}, [];
    }

    /** Pushes one entry, searches on from it, and pops it again. */
    method Visit(entry: Entry)
      requires Valid() && entry.target !in visited && |edges| < maxDepth
      modifies this
      ensures Valid() && nodes == old(nodes) && edges == old(edges) && visited == old(visited)
      ensures paths == old(paths) + Completions(adjacency, dst, maxDepth, Extended(old(Path(nodes, edges)), entry))
      decreases maxDepth - |edges|, 0
    {
      hide Completions;
      visited := visited + {entry.target};
      nodes, edges := nodes + [entry.target], edges + [entry.edge];
      Search();
      edges, nodes := edges[..|edges| - 1], nodes[..|nodes| - 1];
      visited := visited - {entry.target};
    }

    /** Pushes every completion of the path on the stacks, and leaves the stacks as they were. */
    method Search()
      requires Valid()
      modifies this
      ensures Valid() && nodes == old(nodes) && edges == old(edges) && visited == old(visited)
      ensures paths == old(paths) + Completions(adjacency, dst, maxDepth, old(Path(nodes, edges)))
      decreases maxDepth - |edges|, 1
    {
      var node := nodes[|nodes| - 1];
      ghost var at := Path(nodes, edges);
      if node == dst {
        paths := paths + [Path(nodes, edges)];
        return;
      }
      if |edges| >= maxDepth || node !in adjacency {
        return;
      }
      var entries := adjacency[node];
      hide Branches, Completions;
      assert entries[0..] == entries;
      for i := 0 to |entries|
        invariant Valid() && nodes == at.nodes && edges == at.edges && visited == old(visited)
        invariant paths + Branches(adjacency, dst, maxDepth, at, entries[i..]) ==
                  old(paths) + Branches(adjacency, dst, maxDepth, at, entries)
      {
        var entry := entries[i];
        NextBranch(adjacency, dst, maxDepth, at, entries, i);
        if entry.target !in visited {
          Visit(entry);
        }
      }
      assert entries[|entries|..] == [];
      NoBranches(adjacency, dst, maxDepth, at);
    }
  }

  lemma NoBranches(adjacency: Adjacency, dst: string, maxDepth: nat, at: Path)
    requires |at.nodes| > 0 && |at.edges| < maxDepth
    ensures Branches(adjacency, dst, maxDepth, at, []) == []
  {}

  lemma NextBranch(adjacency: Adjacency, dst: string, maxDepth: nat, at: Path, entries: seq<Entry>, i: nat)
    requires |at.nodes| > 0 && |at.edges| < maxDepth && i < |entries|
    ensures Branches(adjacency, dst, maxDepth, at, entries[i..]) ==
            (if entries[i].target in at.nodes then []
             else Completions(adjacency, dst, maxDepth, Extended(at, entries[i])))
            + Branches(adjacency, dst, maxDepth, at, entries[i + 1..])
  {
    assert entries[i..][1..] == entries[i + 1..];
  }

  /** The completions of the source alone are the flow paths from it. */
  lemma EnumeratedExactly(adjacency: Adjacency, src: string, dst: string, maxDepth: nat, path: Path)
    ensures path in Completions(adjacency, dst, maxDepth, Path([src], [])) <==>
            FlowPath(adjacency, src, dst, maxDepth, path)
  {
    hide NoRepeat, Joined;
    StartSimple(adjacency, src);
    CompletionsExact(adjacency, dst, maxDepth, Path([src], []), path);
    ExtendsStart(adjacency, src, path);
  }

  /** From one value to a different one: every simple flow path within the depth, each once, and nothing else. */
  method EnumeratePaths(adjacency: Adjacency, src: string, dst: string, maxDepth: nat) returns (paths: seq<Path>)
    ensures src == dst ==> paths == []
    ensures src != dst ==> forall path :: path in paths <==> FlowPath(adjacency, src, dst, maxDepth, path)
    ensures ListsDistinct(adjacency) ==> NoRepeat(paths)
    ensures src != dst ==> paths == Completions(adjacency, dst, maxDepth, Path([src], []))
  {
    if src == dst {
      return [];
    }
    hide ListsDistinct, NoRepeat, Joined;
    var finder := new PathFinder(adjacency, src, dst, maxDepth);
    finder.Search();
    paths := finder.paths;
    var at := Path([src], []);
    assert Simple(adjacency, at) by { StartSimple(adjacency, src); }
    forall path ensures path in paths <==> FlowPath(adjacency, src, dst, maxDepth, path) {
      EnumeratedExactly(adjacency, src, dst, maxDepth, path);
    }
    if ListsDistinct(adjacency) {
      CompletionsDistinct(adjacency, dst, maxDepth, at);
    }
  }

  lemma StartSimple(adjacency: Adjacency, src: string)
    ensures Simple(adjacency, Path([src], []))
  {}

  lemma ExtendsStart(adjacency: Adjacency, src: string, path: Path)
    ensures Simple(adjacency, path) ==> (Extends(path, Path([src], [])) <==> path.nodes[0] == src)
  {}

  // ----- Reachability at any depth -----

  predicate Steps(adjacency: Adjacency, a: string, b: string) {
    exists e <- Entries(adjacency, a) :: e.target == b
  }

  predicate FlowWalk(adjacency: Adjacency, w: seq<string>) {
    |w| > 0 && forall i | 0 < i < |w| :: Steps(adjacency, w[i - 1], w[i])
  }

  ghost predicate Flows(adjacency: Adjacency, src: string, dst: string) {
    exists w :: FlowWalk(adjacency, w) && w[0] == src && w[|w| - 1] == dst
  }

  lemma FlowsFurther(adjacency: Adjacency, src: string, a: string, b: string)
    requires Flows(adjacency, src, a) && Steps(adjacency, a, b)
    ensures Flows(adjacency, src, b)
  {
    var w :| FlowWalk(adjacency, w) && w[0] == src && w[|w| - 1] == a;
    var v := w + [b];
    assert forall i | 0 < i < |w| :: Steps(adjacency, v[i - 1], v[i]);
    assert FlowWalk(adjacency, v);
  }

  /** A set that flow does not leave holds everything its members flow to. */
  lemma {:induction false} FlowStaysInside(adjacency: Adjacency, inside: set<string>, w: seq<string>)
    requires forall a, b | a in inside && Steps(adjacency, a, b) :: b in inside
    requires FlowWalk(adjacency, w) && w[0] in inside
    ensures w[|w| - 1] in inside
    decreases |w|
  {
    if |w| > 1 {
      assert Steps(adjacency, w[0], w[1]);
      assert forall i | 0 < i < |w[1..]| :: w[1..][i] == w[i + 1] && w[1..][i - 1] == w[i];
      FlowStaysInside(adjacency, inside, w[1..]);
    }
  }

  function Nodes(adjacency: Adjacency, src: string): set<string> {
    {src} + set node, e | node in adjacency && e in adjacency[node] :: e.target
  }

  function Targets(entries: seq<Entry>): (targets: seq<string>)
    ensures |targets| == |entries| && forall i | 0 <= i < |entries| :: targets[i] == entries[i].target
  {
    seq(|entries|, i requires 0 <= i < |entries| => entries[i].target)
  }

  /** Whether flow of any length leads from `src` to `dst`. */
  method Reachable(adjacency: Adjacency, src: string, dst: string) returns (reachable: bool)
    ensures reachable <==> Flows(adjacency, src, dst)
  {
    hide Flows;
    var visited: set<string> := {};
    var stack := [src];
    assert Flows(adjacency, src, src) by { FlowsToSelf(adjacency, src); }
    while stack != []
      invariant forall node <- stack :: Flows(adjacency, src, node) && node in Nodes(adjacency, src)
      invariant src in visited || src in stack
      invariant dst !in visited && visited <= Nodes(adjacency, src)
      invariant forall a <- visited, e <- Entries(adjacency, a) :: e.target in visited || e.target in stack
      decreases Nodes(adjacency, src) - visited, |stack|
    {
      var node := stack[|stack| - 1];
      assert node in stack;
      ghost var before := stack;
      stack := stack[..|stack| - 1];
      assert before == stack + [node];
      if node == dst {
        return true;
      }
      if node !in visited {
        visited := visited + {node};
        if node in adjacency {
          forall e <- adjacency[node] ensures Flows(adjacency, src, e.target) {
            FlowsFurther(adjacency, src, node, e.target);
          }
          var targets := Targets(adjacency[node]);
          assert forall e <- adjacency[node] :: e.target in targets;
          stack := stack + targets;
        }
      }
    }
    Unreached(adjacency, src, dst, visited);
    return false;
  }

  lemma FlowsToSelf(adjacency: Adjacency, src: string)
    ensures Flows(adjacency, src, src)
  {
    assert FlowWalk(adjacency, [src]);
  }

  lemma Unreached(adjacency: Adjacency, src: string, dst: string, visited: set<string>)
    requires src in visited && dst !in visited
    requires forall a <- visited, e <- Entries(adjacency, a) :: e.target in visited
    ensures !Flows(adjacency, src, dst)
  {
    if w :| FlowWalk(adjacency, w) && w[0] == src && w[|w| - 1] == dst {
      FlowStaysInside(adjacency, visited, w);
    }
  }

  // ----- Flow of any length has a simple path -----

  lemma {:induction false} CutLoops(adjacency: Adjacency, w: seq<string>) returns (v: seq<string>)
    requires FlowWalk(adjacency, w)
    ensures FlowWalk(adjacency, v) && NoRepeat(v) && v[0] == w[0] && v[|v| - 1] == w[|w| - 1]
    decreases |w|
  {
    if NoRepeat(w) {
      return w;
    }
    var i, j :| 0 <= i < j < |w| && w[i] == w[j];
    var shorter := w[..i] + w[j..];
    forall k | 0 < k < |shorter| ensures Steps(adjacency, shorter[k - 1], shorter[k]) {
      if k < i {
        assert shorter[k] == w[k] && shorter[k - 1] == w[k - 1];
      } else if k == i {
        assert shorter[k] == w[j] == w[i] && shorter[k - 1] == w[k - 1];
      } else {
        assert shorter[k] == w[k - i + j] && shorter[k - 1] == w[k - 1 - i + j];
      }
    }
    v := CutLoops(adjacency, shorter);
  }

  lemma {:induction false} WithEdges(adjacency: Adjacency, v: seq<string>) returns (path: Path)
    requires FlowWalk(adjacency, v)
    ensures Joined(adjacency, path) && path.nodes == v
    decreases |v|
  {
    if |v| == 1 {
      return Path(v, []);
    }
    var init, last := v[..|v| - 1], v[|v| - 1];
    var before := WithEdges(adjacency, init);
    assert Steps(adjacency, v[|v| - 2], last);
    var e :| e in Entries(adjacency, v[|v| - 2]) && e.target == last;
    path := Extended(before, e);
    assert path.nodes == v && e == Entry(last, e.edge);
    forall i | 0 <= i < |path.edges|
      ensures Entry(path.nodes[i + 1], path.edges[i]) in Entries(adjacency, path.nodes[i])
    {
      if i < |before.edges| {
        assert path.edges[i] == before.edges[i] && before.nodes[i + 1] == v[i + 1];
      }
    }
  }

  /** Flow from one value to another has a simple path of some depth. */
  lemma SimplePathExists(adjacency: Adjacency, src: string, dst: string) returns (path: Path)
    requires Flows(adjacency, src, dst)
    ensures FlowPath(adjacency, src, dst, |path.edges|, path)
  {
    hide Steps, Joined;
    var w :| FlowWalk(adjacency, w) && w[0] == src && w[|w| - 1] == dst;
    var v := CutLoops(adjacency, w);
    path := WithEdges(adjacency, v);
    assert |path.nodes| == |path.edges| + 1 by { JoinedSizes(adjacency, path); }
  }

  lemma JoinedSizes(adjacency: Adjacency, path: Path)
    requires Joined(adjacency, path)
    ensures |path.nodes| == |path.edges| + 1
  {}

  lemma PathFlows(adjacency: Adjacency, src: string, dst: string, maxDepth: nat, path: Path)
    requires FlowPath(adjacency, src, dst, maxDepth, path)
    ensures Flows(adjacency, src, dst)
  {
    forall i | 0 < i < |path.nodes| ensures Steps(adjacency, path.nodes[i - 1], path.nodes[i]) {
      assert Entry(path.nodes[i - 1 + 1], path.edges[i - 1]) in Entries(adjacency, path.nodes[i - 1]);
    }
    assert FlowWalk(adjacency, path.nodes);
  }

  // ----- Adjacency from the graph -----

  /** The flow edges out of one node, in graph order. */
  function Out(edges: seq<CpgEdge>, node: string): seq<Entry> {
    if edges == [] then []
    else
      var last := edges[|edges| - 1];
      Out(edges[..|edges| - 1], node)
      + (if last.kind == FlowsTo && last.source == node then [Entry(last.target, last.id)] else [])
  }

  lemma {:induction false} OutExact(edges: seq<CpgEdge>, node: string, entry: Entry)
    ensures entry in Out(edges, node) <==> CpgEdge(FlowsTo, node, entry.target, entry.edge) in edges
  {
    if edges != [] {
      var rest, last := edges[..|edges| - 1], edges[|edges| - 1];
      assert edges == rest + [last];
      OutExact(rest, node, entry);
      assert last.kind == FlowsTo && last.source == node && entry == Entry(last.target, last.id) <==>
             last == CpgEdge(FlowsTo, node, entry.target, entry.edge);
    }
  }

  predicate DistinctIds(edges: seq<CpgEdge>) {
    forall i, j | 0 <= i < j < |edges| :: edges[i].id != edges[j].id
  }

  lemma {:induction false} OutDistinct(edges: seq<CpgEdge>, node: string)
    requires DistinctIds(edges)
    ensures NoRepeat(Out(edges, node))
    decreases |edges|
  {
    if edges != [] {
      var rest, last := edges[..|edges| - 1], edges[|edges| - 1];
      OutDistinct(rest, node);
      var entry := Entry(last.target, last.id);
      OutExact(rest, node, entry);
      assert entry !in Out(rest, node) by {
        assert forall i | 0 <= i < |rest| :: rest[i].id != last.id;
      }
      DistinctJoin(Out(rest, node), [entry]);
    }
  }

  predicate ByTarget(a: Entry, b: Entry) {
    LexLeq(a.target, b.target)
  }

  /** Each node's entries are its outgoing flow edges in order of target. */
  predicate AdjacencyOf(adjacency: Adjacency, edges: seq<CpgEdge>, node: string) {
    Entries(adjacency, node) == Sort(Out(edges, node), ByTarget)
  }

  lemma AdjacencyExact(adjacency: Adjacency, edges: seq<CpgEdge>, a: string, entry: Entry)
    requires AdjacencyOf(adjacency, edges, a)
    ensures entry in Entries(adjacency, a) <==> CpgEdge(FlowsTo, a, entry.target, entry.edge) in edges
  {
    SameElements(Out(edges, a), Sort(Out(edges, a), ByTarget));
    OutExact(edges, a, entry);
  }

  lemma AdjacencyDistinct(adjacency: Adjacency, edges: seq<CpgEdge>)
    requires (forall node :: AdjacencyOf(adjacency, edges, node)) && DistinctIds(edges)
    ensures ListsDistinct(adjacency)
  {
    hide Sort;
    forall node <- adjacency ensures NoRepeat(adjacency[node]) {
      assert AdjacencyOf(adjacency, edges, node);
      OutDistinct(edges, node);
      var out, sorted := Out(edges, node), adjacency[node];
      var p := FindRearrangement(sorted, out);
      forall i, j | 0 <= i < j < |sorted| ensures sorted[i] != sorted[j] {
        assert sorted[i] == out[p[i]] && sorted[j] == out[p[j]] && p[i] != p[j];
      }
    }
  }

  method BuildFlowAdjacency(edges: seq<CpgEdge>) returns (adjacency: Adjacency)
    ensures forall node :: AdjacencyOf(adjacency, edges, node)
    ensures DistinctIds(edges) ==> ListsDistinct(adjacency)
  {
    hide DistinctIds, ListsDistinct, Sort;
    var lists: Adjacency := map[];
    for i := 0 to |edges|
      invariant forall node :: Entries(lists, node) == Out(edges[..i], node)
    {
      var edge := edges[i];
      assert edges[..i + 1][..i] == edges[..i];
      if edge.kind == FlowsTo {
        lists := lists[edge.source := Entries(lists, edge.source) + [Entry(edge.target, edge.id)]];
      }
    }
    assert edges[..|edges|] == edges;
    adjacency := map node | node in lists :: Sort(lists[node], ByTarget);
    forall node ensures AdjacencyOf(adjacency, edges, node) {
      if node !in lists {
        assert Out(edges, node) == [];
        SortEmpty();
      }
    }
    if DistinctIds(edges) {
      AdjacencyDistinct(adjacency, edges);
    }
  }

  lemma SortEmpty()
    ensures Sort([], ByTarget) == []
  {}

  // ----- The traversal -----

  datatype Truncation = MaxDepth | MaxPaths | MaxNodes

  datatype Slice = Slice(paths: seq<Path>, nodes: set<string>, edges: set<string>, truncation: Option<Truncation>,
                         examined: nat)

  function NodesOf(paths: seq<Path>): set<string> {
    set path, node | path in paths && node in path.nodes :: node
  }

  function EdgesOf(paths: seq<Path>): set<string> {
    set path, edge | path in paths && edge in path.edges :: edge
  }

  lemma NodesOfNext(paths: seq<Path>, next: Path)
    ensures NodesOf(paths + [next]) == NodesOf(paths) + (set node | node in next.nodes)
    ensures EdgesOf(paths + [next]) == EdgesOf(paths) + (set edge | edge in next.edges)
  {
    assert next in paths + [next];
    assert forall path <- paths :: path in paths + [next];
  }

  /** The longest prefix within both budgets, and the budget that cut it. */
  predicate TakenFrom(slice: Slice, paths: seq<Path>, maxPaths: nat, maxNodes: nat) {
    && slice.paths <= paths && slice.nodes == NodesOf(slice.paths) && slice.edges == EdgesOf(slice.paths)
    && |slice.paths| <= maxPaths && |slice.nodes| <= maxNodes
    && (slice.truncation.None? <==> slice.paths == paths)
    && (slice.truncation == Some(MaxPaths) <==> |slice.paths| == maxPaths < |paths|)
    && (slice.truncation == Some(MaxNodes) ==>
          |slice.paths| < |paths| && |NodesOf(paths[..|slice.paths| + 1])| > maxNodes)
    && slice.truncation != Some(MaxDepth)
    && slice.examined == |slice.paths| + if slice.truncation.Some? then 1 else 0
  }

  /** Takes paths in order until one budget would be exceeded. */
  method TakePaths(paths: seq<Path>, maxPaths: nat, maxNodes: nat) returns (slice: Slice)
    ensures TakenFrom(slice, paths, maxPaths, maxNodes)
  {
    hide NodesOf, EdgesOf;
    slice := Slice([], {}, {}, None, 0);
    NothingOf();
    assert paths[..0] == [];
    for i := 0 to |paths|
      invariant slice == Slice(paths[..i], NodesOf(paths[..i]), EdgesOf(paths[..i]), None, 0)
      invariant i <= maxPaths && |slice.nodes| <= maxNodes
    {
      if i == maxPaths {
        slice := slice.(truncation := Some(MaxPaths), examined := maxPaths + 1);
        return;
      }
      var path := paths[i];
      assert paths[..i + 1] == paths[..i] + [path];
      NodesOfNext(paths[..i], path);
      var pathNodes := set node | node in path.nodes;
      assert |slice.nodes + pathNodes| == |slice.nodes| + |pathNodes - slice.nodes| by {
        assert slice.nodes + pathNodes == slice.nodes + (pathNodes - slice.nodes);
      }
      if |slice.nodes| + |pathNodes - slice.nodes| > maxNodes {
        slice := slice.(truncation := Some(MaxNodes), examined := i + 1);
        return;
      }
      slice := slice.(paths := paths[..i + 1], nodes := slice.nodes + pathNodes,
                      edges := slice.edges + (set edge | edge in path.edges));
    }
    slice := slice.(examined := |paths|);
    assert paths[..|paths|] == paths;
  }

  /** A simple flow path of whatever depth. */
  predicate AnyFlowPath(adjacency: Adjacency, src: string, dst: string, path: Path) {
    FlowPath(adjacency, src, dst, |path.edges|, path)
  }

  ghost predicate HoldsAll(adjacency: Adjacency, src: string, dst: string, paths: seq<Path>) {
    forall path :: AnyFlowPath(adjacency, src, dst, path) ==> path in paths
  }

  /** No simple flow path is deeper. */
  ghost predicate WithinDepth(adjacency: Adjacency, src: string, dst: string, maxDepth: nat) {
    forall path :: AnyFlowPath(adjacency, src, dst, path) ==> |path.edges| <= maxDepth
  }

  lemma HoldsAllExactly(adjacency: Adjacency, src: string, dst: string, maxDepth: nat, paths: seq<Path>)
    requires forall path :: path in paths <==> FlowPath(adjacency, src, dst, maxDepth, path)
    ensures HoldsAll(adjacency, src, dst, paths) <==> WithinDepth(adjacency, src, dst, maxDepth)
  {
    hide Simple;
    forall path | AnyFlowPath(adjacency, src, dst, path)
      ensures FlowPath(adjacency, src, dst, maxDepth, path) <==> |path.edges| <= maxDepth
    {
    }
  }

  /**
   * The flow slice between two values. An empty one is complete exactly when no flow of any length leads from
   * source to sink. One with paths is called complete when it holds every simple path within the depth; it then
   * holds every simple path there is exactly when none is deeper.
   */
  method TraverseFlow(edges: seq<CpgEdge>, src: string, dst: string, maxDepth: nat, maxPaths: nat, maxNodes: nat)
    returns (slice: Slice, adjacency: Adjacency)
    ensures forall node :: AdjacencyOf(adjacency, edges, node)
    ensures slice.nodes == NodesOf(slice.paths) && slice.edges == EdgesOf(slice.paths)
    ensures |slice.paths| <= maxPaths && |slice.nodes| <= maxNodes
    ensures src != dst ==> forall path <- slice.paths :: FlowPath(adjacency, src, dst, maxDepth, path)
    ensures DistinctIds(edges) ==> NoRepeat(slice.paths)
    ensures src != dst && slice.truncation.None? ==>
              forall path :: path in slice.paths <==> FlowPath(adjacency, src, dst, maxDepth, path)
    ensures src != dst && slice.truncation.None? ==>
              (HoldsAll(adjacency, src, dst, slice.paths) <==> WithinDepth(adjacency, src, dst, maxDepth))
    ensures var all := Completions(adjacency, dst, maxDepth, Path([src], []));
            if src != dst && all != [] then TakenFrom(slice, all, maxPaths, maxNodes) else slice.examined == 0
    ensures slice.paths == [] && slice.truncation.None? ==> !Flows(adjacency, src, dst)
    ensures !Flows(adjacency, src, dst) ==> slice.paths == [] && slice.truncation.None?
    ensures slice.truncation == Some(MaxDepth) ==>
              && Flows(adjacency, src, dst)
              && (src != dst ==> forall path :: !FlowPath(adjacency, src, dst, maxDepth, path))
    ensures src == dst ==> slice.paths == [] && slice.truncation == Some(MaxDepth)
  {
    hide AdjacencyOf, DistinctIds, ListsDistinct, NoRepeat, FlowPath, Flows, NodesOf, EdgesOf, HoldsAll, WithinDepth;
    hide Completions;
    adjacency := BuildFlowAdjacency(edges);
    var paths := EnumeratePaths(adjacency, src, dst, maxDepth);
    assert NodesOf([]) == {} && EdgesOf([]) == {} by { NothingOf(); }
    if paths == [] {
      var reachable := Reachable(adjacency, src, dst);
      if src == dst {
        assert reachable by { FlowsToSelf(adjacency, src); }
      }
      assert NoRepeat(paths) by { NoneRepeat(); }
      slice := Slice([], {}, {}, if reachable then Some(MaxDepth) else None, 0);
      if src != dst {
        HoldsAllExactly(adjacency, src, dst, maxDepth, paths);
      }
      return;
    }
    PathFlows(adjacency, src, dst, maxDepth, paths[0]);
    slice := TakePaths(paths, maxPaths, maxNodes);
    if NoRepeat(paths) {
      assert NoRepeat(slice.paths) by { PrefixDistinct(paths, slice.paths); }
    }
    if slice.truncation.None? {
      HoldsAllExactly(adjacency, src, dst, maxDepth, paths);
    }
  }

  lemma NothingOf()
    ensures NodesOf([]) == {} && EdgesOf([]) == {}
  {}

  lemma NoneRepeat()
    ensures NoRepeat<Path>([])
  {}

  lemma PrefixDistinct<T>(s: seq<T>, t: seq<T>)
    requires NoRepeat(s) && t <= s
    ensures NoRepeat(t)
  {}

  /** A slice cut at the depth is cut there truthfully: some simple path exists, and every one is deeper. */
  lemma DeeperPathExists(adjacency: Adjacency, src: string, dst: string, maxDepth: nat) returns (path: Path)
    requires Flows(adjacency, src, dst) && forall path :: !FlowPath(adjacency, src, dst, maxDepth, path)
    ensures FlowPath(adjacency, src, dst, |path.edges|, path) && |path.edges| > maxDepth
  {
    path := SimplePathExists(adjacency, src, dst);
    assert !FlowPath(adjacency, src, dst, maxDepth, path);
  }
}
