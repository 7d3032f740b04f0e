/** Flow paths beyond the depth of a query: a slice that misses one, and a depth that misses none. */
module FlowDepth {
  import opened Basics
  import opened Cpg
  import opened ValueFlow

  // ----- A slice called complete that misses a path -----

  const TRIANGLE := [
    CpgEdge(FlowsTo, "a", "d", "ad"), CpgEdge(FlowsTo, "a", "b", "ab"), CpgEdge(FlowsTo, "b", "d", "bd")]

  const STRAIGHT := Path(["a", "d"], ["ad"])
  const DETOUR := Path(["a", "b", "d"], ["ab", "bd"])

  lemma TriangleEntries(adjacency: Adjacency)
    requires forall node :: AdjacencyOf(adjacency, TRIANGLE, node)
    ensures Entry("d", "ad") in Entries(adjacency, "a") && Entry("b", "ab") in Entries(adjacency, "a")
    ensures Entry("d", "bd") in Entries(adjacency, "b")
    ensures forall id :: Entry("d", id) in Entries(adjacency, "a") ==> id == "ad"
  {
    hide AdjacencyOf;
    AdjacencyExact(adjacency, TRIANGLE, "a", Entry("d", "ad"));
    AdjacencyExact(adjacency, TRIANGLE, "a", Entry("b", "ab"));
    AdjacencyExact(adjacency, TRIANGLE, "b", Entry("d", "bd"));
    forall id | Entry("d", id) in Entries(adjacency, "a") ensures id == "ad" {
      AdjacencyExact(adjacency, TRIANGLE, "a", Entry("d", id));
    }
  }

  lemma TrianglePaths(adjacency: Adjacency)
    requires forall node :: AdjacencyOf(adjacency, TRIANGLE, node)
    ensures forall path :: FlowPath(adjacency, "a", "d", 1, path) <==> path == STRAIGHT
    ensures AnyFlowPath(adjacency, "a", "d", DETOUR)
  {
    hide AdjacencyOf, Entries;
    TriangleEntries(adjacency);
    forall path | FlowPath(adjacency, "a", "d", 1, path) ensures path == STRAIGHT {
      assert |path.edges| == 1 && path.nodes == ["a", "d"];
      assert Entry(path.nodes[1], path.edges[0]) in Entries(adjacency, path.nodes[0]);
    }
  }

  lemma OnlyOne(all: seq<Path>, path: Path)
    requires NoRepeat(all) && forall p :: p in all <==> p == path
    ensures all == [path]
  {
    assert path in all;
    DistinctWithin(all, {path});
    assert all[0] in all;
  }

  lemma EachTruncation(truncation: Option<Truncation>)
    ensures truncation in {None, Some(MaxDepth), Some(MaxPaths), Some(MaxNodes)}
  {
    assert truncation.Some? ==> truncation.value.MaxDepth? || truncation.value.MaxPaths? || truncation.value.MaxNodes?;
  }

  lemma StraightNodes()
    ensures |NodesOf([STRAIGHT])| == 2
  {
    var ends := ["a", "d"];
    NothingOf();
    NodesOfNext([], STRAIGHT);
    assert [] + [STRAIGHT] == [STRAIGHT] && STRAIGHT.nodes == ends;
    assert (set node | node in ends) == {"a", "d"} by { assert ends[0] == "a" && ends[1] == "d"; }
  }

  /** One path of two nodes fits any budget for two nodes. */
  lemma FitsBudget(slice: Slice, maxPaths: nat, maxNodes: nat)
    requires TakenFrom(slice, [STRAIGHT], maxPaths, maxNodes) && maxPaths > 0 && maxNodes > 1
    ensures slice.truncation.None? && slice.paths == [STRAIGHT]
  {
    hide NodesOf, EdgesOf;
    StraightNodes();
    var all := [STRAIGHT];
    assert all[..1] == all;
    if |slice.paths| == 1 {
      assert slice.paths == all;
    }
    EachTruncation(slice.truncation);
  }

  lemma TriangleEnumerated(adjacency: Adjacency)
    requires forall node :: AdjacencyOf(adjacency, TRIANGLE, node)
    ensures Completions(adjacency, "d", 1, Path(["a"], [])) == [STRAIGHT]
  {
    hide Completions, AdjacencyOf, FlowPath;
    TrianglePaths(adjacency);
    AdjacencyDistinct(adjacency, TRIANGLE);
    StartSimple(adjacency, "a");
    CompletionsDistinct(adjacency, "d", 1, Path(["a"], []));
    forall path ensures path in Completions(adjacency, "d", 1, Path(["a"], [])) <==> path == STRAIGHT {
      EnumeratedExactly(adjacency, "a", "d", 1, path);
    }
    OnlyOne(Completions(adjacency, "d", 1, Path(["a"], [])), STRAIGHT);
  }

  /**
   * From `a` to `d` with one edge allowed, the straight path comes back alone and the slice is called complete,
   * although the detour over `b` is a simple flow path too.
   */
  method CompleteMissesDetour() returns (slice: Slice, adjacency: Adjacency)
    ensures forall node :: AdjacencyOf(adjacency, TRIANGLE, node)
    ensures slice.truncation.None? && slice.paths == [STRAIGHT]
    ensures AnyFlowPath(adjacency, "a", "d", DETOUR) && DETOUR !in slice.paths
  {
    hide AdjacencyOf, TakenFrom, AnyFlowPath, Completions;
    slice, adjacency := TraverseFlow(TRIANGLE, "a", "d", 1, 9, 9);
    TrianglePaths(adjacency);
    TriangleEnumerated(adjacency);
    FitsBudget(slice, 9, 9);
  }

  // ----- A depth that is always enough -----

  /** The source and everything some flow edge leads to. */
  function FlowNodes(edges: seq<CpgEdge>, src: string): set<string> {
    {src} + set e | e in edges && e.kind == FlowsTo :: e.target
  }

  /** With a depth of one less than the number of flow nodes, no simple flow path is deeper. */
  lemma DepthSuffices(adjacency: Adjacency, edges: seq<CpgEdge>, src: string, dst: string, maxDepth: nat)
    requires forall node :: AdjacencyOf(adjacency, edges, node)
    requires |FlowNodes(edges, src)| <= maxDepth + 1
    ensures WithinDepth(adjacency, src, dst, maxDepth)
  {
    hide AdjacencyOf;
    forall path | AnyFlowPath(adjacency, src, dst, path) ensures |path.edges| <= maxDepth {
      forall node <- path.nodes ensures node in FlowNodes(edges, src) {
        var i :| 0 <= i < |path.nodes| && path.nodes[i] == node;
        if i > 0 {
          var entry := Entry(path.nodes[i - 1 + 1], path.edges[i - 1]);
          assert entry in Entries(adjacency, path.nodes[i - 1]);
          AdjacencyExact(adjacency, edges, path.nodes[i - 1], entry);
        }
      }
      DistinctWithin(path.nodes, FlowNodes(edges, src));
    }
  }
}
