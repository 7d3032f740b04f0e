/** From the flow of a case to its projected path: the chain that is stated is still joined after the projection. */
module CasePaths {
  import opened Basics
  import opened Graphs
  import opened CaseLinks
  import opened FlowChain
  import opened CaseProjection
  import opened AliasConditions

  lemma {:induction false} FlowExact(links: seq<Link>, e: Edge<string>)
    ensures e in Flow(links) <==> exists l <- links :: l.kind == FlowsTo && e == Edge(l.from, l.to)
    decreases |links|
  {
    if links != [] {
      var rest, last := links[..|links| - 1], links[|links| - 1];
      assert links == rest + [last];
      FlowExact(rest, e);
    }
  }

  /** Some flow link joins the two. */
  predicate FlowJoins(links: seq<Link>, from: string, to: string) {
    exists l <- links :: l.kind == FlowsTo && l.from == from && l.to == to
  }

  /** A chain of the case's flow is joined by flow links that survive the projection, as do its entities. */
  lemma ChainSurvives(frame: Frame, before: Case, after: Case)
    requires Projected(frame, before, after) && before.paths != []
    requires Walk(Flow(before.links), before.paths[0].segments)
    ensures var segments := before.paths[0].segments;
            && before.paths[0] in after.paths
            && (forall i | 0 < i < |segments| :: FlowJoins(after.links, segments[i - 1], segments[i]))
            && (forall e <- before.entities :: e.id in segments ==> e in after.entities)
  {
    hide Projected, Flow;
    var segments := before.paths[0].segments;
    PathSurvives(frame, before, after);
    forall i | 0 < i < |segments| ensures FlowJoins(after.links, segments[i - 1], segments[i]) {
      FlowExact(before.links, Edge(segments[i - 1], segments[i]));
    }
  }

  /**
   * States the representative chain of a case without paths, under the conditions of its uncertain aliases, and
   * projects the case. A cyclic flow is refused; otherwise the stated path survives the projection together with
   * the flow links that join its segments, and keeps what its conditions name exactly when that is held anyway.
   */
  method BuildAndProject(frame: Frame, c: Case, ids: IdAllocator, id: string, provenance: string)
    returns (outcome: Outcome, projected: Case)
    requires c.paths == [] && NoRepeat(AllIds(c.(paths := [CaseProjection.Chain(id, [], [], provenance)])))
    requires forall o <- c.omissions :: o.id in ids.used && o.kind != LEVEL_PROJECTION
    modifies ids
    ensures outcome.CyclicFlow? <==> Cyclic(Flow(c.links))
    ensures outcome.NoFlow? <==> Flow(c.links) == []
    ensures outcome.Chain? ==>
              var stated := Stated(c, id, outcome.segments, provenance);
              && Projected(frame, stated, projected) && stated.paths[0] in projected.paths
              && |outcome.segments| >= 2 && IsChain(Flow(c.links), outcome.segments)
              && (forall i | 0 < i < |outcome.segments| ::
                    FlowJoins(projected.links, outcome.segments[i - 1], outcome.segments[i]))
              && (forall e <- c.entities :: e.id in outcome.segments ==> e in projected.entities)
              && (ConditionsResolve(stated, projected) <==> UncertainHeld(frame, stated))
  {
    hide Projected, Flow, IsChain, Conditions, ConditionsResolve, UncertainHeld;
    outcome := BuildPaths(c.links);
    projected := c;
    if outcome.Chain? {
      var links := CollectAliases(c.facts);
      var conditions := StateConditions(links);
      var stated := c.(paths := [CaseProjection.Chain(id, outcome.segments, conditions, provenance)]);
      SameIds(c, id, outcome.segments, provenance);
      var builder := new CaseBuilder(stated, ids);
      builder.Project(frame, true);
      projected := builder.value;
      ChainSurvives(frame, stated, projected);
      ConditionsKeptExactly(frame, stated, projected);
    }
  }

  /** The case with its one path, under the conditions of its own facts. */
  function Stated(c: Case, id: string, segments: seq<string>, provenance: string): Case {
    c.(paths := [CaseProjection.Chain(id, segments, Conditions(Aliases(c.facts)), provenance)])
  }

  lemma SameIds(c: Case, id: string, segments: seq<string>, provenance: string)
    ensures AllIds(Stated(c, id, segments, provenance)) ==
            AllIds(c.(paths := [CaseProjection.Chain(id, [], [], provenance)]))
  {
    hide Conditions;
    assert IdsOf(Stated(c, id, segments, provenance).paths, CHAIN_ID) ==
           IdsOf([CaseProjection.Chain(id, [], [], provenance)], CHAIN_ID);
  }

  // ----- A condition left dangling -----

  /** Value flows from `s` to `t`; `m` and `n`, which the claim is not about, may be aliases. */
  const SPLIT_CASE := Case(
    [Entity("s", false), Entity("t", false), Entity("m", false), Entity("n", false)],
    [Link("l", FlowsTo, "s", "t", "")], [], [Statement("f", AliasCall("m", "n"), May, "")], [], [], [], [])

  const SPLIT_FRAME := Frame("c", "t", "s", {}, {}, (x: string) => x, (x: string) => x)

  lemma OneWay(graph: seq<Edge<string>>)
    requires graph == [Edge("s", "t")]
    ensures !Cyclic(graph)
  {
    forall walk | Walk(graph, walk) && |walk| > 1 ensures walk[0] == "s" && walk[|walk| - 1] == "t" {
      assert Edge(walk[0], walk[1]) in graph && Edge(walk[|walk| - 2], walk[|walk| - 1]) in graph;
    }
  }

  lemma SplitFlow()
    ensures Flow(SPLIT_CASE.links) == [Edge("s", "t")]
  {
    assert SPLIT_CASE.links[..0] == [];
  }

  lemma SplitNotHeld(c: Case, segments: seq<string>)
    requires c == Stated(SPLIT_CASE, "p", segments, "") && forall x <- segments :: x == "s" || x == "t"
    ensures !Held(SPLIT_FRAME, c, "m") && !Held(SPLIT_FRAME, c, "n")
    ensures forall f <- c.facts :: !KeepsFact(SPLIT_FRAME, f)
  {
    hide Conditions, Mentions, References;
    AliasCallNames("m", "n");
  }

  lemma SplitIds()
    ensures NoRepeat(AllIds(SPLIT_CASE.(paths := [CaseProjection.Chain("p", [], [], "")])))
  {
    assert AllIds(SPLIT_CASE.(paths := [CaseProjection.Chain("p", [], [], "")])) == ["s", "t", "m", "n", "l", "p", "f"];
  }

  lemma SplitConditions()
    ensures Conditions(Aliases(SPLIT_CASE.facts)) == [AliasCall("m", "n")]
  {
    var f := SPLIT_CASE.facts[0];
    assert SPLIT_CASE.facts[..0] == [] && Aliases(SPLIT_CASE.facts) == [LinkOf(f)];
    assert [LinkOf(f)][..0] == [];
  }

  lemma SplitSegments(links: seq<Link>, segments: seq<string>)
    requires (forall l <- links :: l in SPLIT_CASE.links) && |segments| >= 2
    requires forall i | 0 < i < |segments| :: FlowJoins(links, segments[i - 1], segments[i])
    ensures segments == ["s", "t"]
  {
    forall i | 0 <= i < |segments| - 1 ensures segments[i] == "s" {
      assert FlowJoins(links, segments[i + 1 - 1], segments[i + 1]);
    }
    assert FlowJoins(links, segments[0], segments[1]);
  }

  lemma SplitProjected(segments: seq<string>, projected: Case)
    requires Projected(SPLIT_FRAME, Stated(SPLIT_CASE, "p", segments, ""), projected) && |segments| >= 2
    requires forall i | 0 < i < |segments| :: FlowJoins(projected.links, segments[i - 1], segments[i])
    ensures |projected.paths| == 1 && projected.paths[0].conditions == [AliasCall("m", "n")]
    ensures projected.facts == [] && forall e <- projected.entities :: e.id == "s" || e.id == "t"
  {
    hide Projected, Held, KeepsFact, Conditions, FlowJoins, RetainedEntities, KeepsEntity;
    var c := Stated(SPLIT_CASE, "p", segments, "");
    SplitMembers(c, projected);
    SplitSegments(projected.links, segments);
    SplitConditions();
    SplitNotHeld(c, segments);
  }

  lemma SplitMembers(c: Case, projected: Case)
    requires Projected(SPLIT_FRAME, c, projected)
    ensures projected.paths == (if c.paths == [] then [] else [c.paths[0]])
    ensures forall l <- projected.links :: l in c.links
    ensures projected.facts != [] ==> exists f <- c.facts :: KeepsFact(SPLIT_FRAME, f)
    ensures forall e <- projected.entities :: e in c.entities && Held(SPLIT_FRAME, c, e.id)
  {
    hide AllAccounted, AllNoted, Held, KeepsFact, KeepsLink, RetainedEntities, Surviving;
    forall e <- projected.entities ensures Held(SPLIT_FRAME, c, e.id) {
      HeldExactly(SPLIT_FRAME, c, e.id);
    }
    assert projected.facts != [] ==> projected.facts[0] in projected.facts;
  }

  /**
   * The alias fact and both entities it joins are withheld, and the path that survives still names them: an alias
   * about neither end of the claim leaves its condition dangling.
   */
  method ConditionDangles() returns (projected: Case)
    ensures |projected.paths| == 1 && projected.paths[0].conditions == [AliasCall("m", "n")]
    ensures References(AliasCall("m", "n")) == {"m", "n"}
    ensures projected.facts == [] && forall e <- projected.entities :: e.id == "s" || e.id == "t"
  {
    hide Projected, Held, Flow, Cyclic, UncertainHeld, ConditionsResolve;
    var ids := new IdAllocator();
    SplitIds();
    var outcome;
    outcome, projected := BuildAndProject(SPLIT_FRAME, SPLIT_CASE, ids, "p", "");
    SplitFlow();
    OneWay(Flow(SPLIT_CASE.links));
    SplitProjected(outcome.segments, projected);
    AliasCallNames("m", "n");
  }
}
