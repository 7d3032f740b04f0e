/** When the merged batch of well-founded components is one the bus accepts. */
module MergedBatch {
  import opened Basics
  import opened FactIdentity
  import opened FactBatch
  import opened FactAssembly
  import opened FactMerge
  import opened Graphs
  import opened Orders

  /** The first component that derives a row; past the last one when none does. */
  function Owner(components: seq<Completion>, row: Row): nat {
    if components == [] || Derives(components[0], row) then 0 else 1 + Owner(components[1..], row)
  }

  lemma {:induction false} OwnerIsFirst(components: seq<Completion>, row: Row)
    ensures Owner(components, row) <= |components|
    ensures Owner(components, row) < |components| ==> Derives(components[Owner(components, row)], row)
    ensures forall j | 0 <= j < |components| :: Derives(components[j], row) ==> Owner(components, row) <= j
    decreases |components|
  {
    if components != [] && !Derives(components[0], row) {
      OwnerIsFirst(components[1..], row);
      assert forall j | 1 <= j < |components| :: components[j] == components[1..][j - 1];
    }
  }

  predicate AnyFact(components: seq<Completion>, f: Fact) {
    exists i | 0 <= i < |components| :: f in components[i].facts
  }

  /** Facts carry their rows' identities, and neither an id nor an encoded key stands for two rows. */
  ghost predicate Separate(context: Context, rowKey: Row -> string, components: seq<Completion>) {
    && EachDistinct(components)
    && (forall f | AnyFact(components, f) :: context.Identify(f.row) == Identified(f.id))
    && (forall f, g | AnyFact(components, f) && AnyFact(components, g) && f.id == g.id :: f.row == g.row)
    && (forall f, g | AnyFact(components, f) && AnyFact(components, g) && rowKey(f.row) == rowKey(g.row) ::
          f.row == g.row)
  }

  /** Some component before `n` derives the row exactly when its id is already provided. */
  lemma ProvidedIsOwned(context: Context, rowKey: Row -> string, components: seq<Completion>, f: Fact, n: nat)
    requires Separate(context, rowKey, components) && AnyFact(components, f) && n <= |components|
    ensures Provided(components, n, f.id) <==> Owner(components, f.row) < n
  {
    hide EachDistinct, IdentityOf;
    OwnerIsFirst(components, f.row);
    if Provided(components, n, f.id) {
      var k :| 0 <= k < n && exists g <- components[k].facts :: g.id == f.id;
      var g :| g in components[k].facts && g.id == f.id;
      assert AnyFact(components, g);
      assert Derives(components[k], f.row);
    }
    if Owner(components, f.row) < n {
      var k := Owner(components, f.row);
      var g :| g in components[k].facts && g.row == f.row;
      assert AnyFact(components, g);
      assert exists h <- components[k].facts :: h.id == f.id;
    }
  }

  /** A component keeps the witnesses of a fact exactly when it is the fact's first owner. */
  lemma KeptByOwner(context: Context, rowKey: Row -> string, components: seq<Completion>, i: nat, w: Witness)
    requires Separate(context, rowKey, components) && i < |components|
    requires w in components[i].witnesses && Derives(components[i], w.result)
    ensures KeptIn(rowKey, components, i, w) <==> Owner(components, w.result) == i
  {
    hide EachDistinct, IdentityOf, Provided;
    OwnerIsFirst(components, w.result);
    var f :| f in components[i].facts && f.row == w.result;
    assert AnyFact(components, f);
    ProvidedIsOwned(context, rowKey, components, f, i);
    if Overridden(rowKey, components, i, w.result) {
      var g :| g in components[i].facts && Provided(components, i, g.id) && rowKey(g.row) == rowKey(w.result);
      assert AnyFact(components, g);
      ProvidedIsOwned(context, rowKey, components, g, i);
    }
  }

  // ----- What the components promise -----

  predicate RootedIn(context: Context, roots: seq<StableId>, row: Row) {
    exists root <- roots :: context.Identify(row) == Identified(root)
  }

  /**
   * Component `i` witnesses exactly its own facts, from its own facts, those of earlier components, and
   * roots, without circularity of its own.
   */
  ghost predicate SoundAt(context: Context, components: seq<Completion>, roots: seq<StableId>, i: nat)
    requires i < |components|
  {
    && (forall f <- components[i].facts :: exists w <- components[i].witnesses :: w.result == f.row)
    && (forall w <- components[i].witnesses :: Derives(components[i], w.result))
    && (forall w <- components[i].witnesses ::
          Owner(components, w.input) <= i || RootedIn(context, roots, w.input))
    && !Cyclic(RowEdges(components[i].witnesses))
  }

  ghost predicate Sound(context: Context, rowKey: Row -> string, components: seq<Completion>,
                        roots: seq<StableId>) {
    && Separate(context, rowKey, components)
    && (forall i | 0 <= i < |components| :: SoundAt(context, components, roots, i))
  }

  /** The witness comes from the first owner of its result. */
  predicate FromOwner(components: seq<Completion>, w: Witness) {
    var i := Owner(components, w.result);
    i < |components| && w in components[i].witnesses
  }

  /** For each fact the merge keeps all of its owner's witnesses, and no other component's. */
  lemma MergeKeepsOwnersWitnesses(context: Context, rowKey: Row -> string, components: seq<Completion>,
                                  roots: seq<StableId>, w: Witness)
    requires Sound(context, rowKey, components, roots)
    ensures w in Gather(rowKey, components).witnesses <==> FromOwner(components, w)
  {
    hide Gather, Separate, KeptIn, Cyclic;
    assert EachDistinct(components) by { SeparateIsDistinct(context, rowKey, components); }
    GatherKeepsWitnesses(rowKey, components, w);
    OwnerIsFirst(components, w.result);
    forall i: nat | i < |components| && w in components[i].witnesses
      ensures KeptIn(rowKey, components, i, w) <==> Owner(components, w.result) == i
    {
      assert SoundAt(context, components, roots, i);
      KeptByOwner(context, rowKey, components, i, w);
    }
    if i: nat :| i < |components| && KeptIn(rowKey, components, i, w) {
      KeptIsIn(rowKey, components, i, w);
    }
  }

  lemma SeparateIsDistinct(context: Context, rowKey: Row -> string, components: seq<Completion>)
    requires Separate(context, rowKey, components)
    ensures EachDistinct(components)
  {}

  lemma KeptIsIn(rowKey: Row -> string, components: seq<Completion>, i: nat, w: Witness)
    requires i < |components| && KeptIn(rowKey, components, i, w)
    ensures w in components[i].witnesses
  {}

  /** The merge publishes every row that some component derives, with that row's identity. */
  lemma MergePublishesAll(context: Context, rowKey: Row -> string, components: seq<Completion>, row: Row)
    requires Separate(context, rowKey, components)
    ensures (exists f <- Gather(rowKey, components).facts :: f.row == row) <==>
            Owner(components, row) < |components|
  {
    hide Gather, EachDistinct, IdentityOf, Provided;
    OwnerIsFirst(components, row);
    if f :| f in Gather(rowKey, components).facts && f.row == row {
      GatherKeepsFacts(rowKey, components, f);
      var i: nat :| i < |components| && FirstIn(components, i, f);
      assert Derives(components[i], row);
    }
    if Owner(components, row) < |components| {
      var i := Owner(components, row);
      var f :| f in components[i].facts && f.row == row;
      assert AnyFact(components, f);
      ProvidedIsOwned(context, rowKey, components, f, i);
      assert FirstIn(components, i, f);
      GatherKeepsFacts(rowKey, components, f);
    }
  }

  // ----- Cycles of the merged proof -----

  /**
   * A root input that a later component derives after all, from the very result it supports. This is the one
   * way in which sound components can merge into a circular proof.
   */
  ghost predicate LateLoop(components: seq<Completion>, edges: seq<Edge<Row>>) {
    exists w: Witness ::
      && FromOwner(components, w)
      && Owner(components, w.result) < Owner(components, w.input) < |components|
      && Reaches(edges, w.result, w.input)
  }

  ghost predicate MergedEdges(components: seq<Completion>, edges: seq<Edge<Row>>) {
    forall e :: e in edges <==> exists w: Witness :: FromOwner(components, w) && e == Edge(w.input, w.result)
  }

  /** The edges of those witnesses that come from the owner, component `i`, of their result. */
  function OwnedAmong(components: seq<Completion>, i: nat, witnesses: seq<Witness>): seq<Edge<Row>> {
    if witnesses == [] then []
    else
      var last := witnesses[|witnesses| - 1];
      OwnedAmong(components, i, witnesses[..|witnesses| - 1])
      + if Owner(components, last.result) == i then [Edge(last.input, last.result)] else []
  }

  /** The edges of the proof that the first `n` components contribute to the merge. */
  function OwnedEdges(components: seq<Completion>, n: nat): seq<Edge<Row>>
    requires n <= |components|
  {
    if n == 0 then []
    else OwnedEdges(components, n - 1) + OwnedAmong(components, n - 1, components[n - 1].witnesses)
  }

  lemma {:induction false} OwnedAmongHolds(components: seq<Completion>, i: nat, witnesses: seq<Witness>, e: Edge<Row>)
    ensures e in OwnedAmong(components, i, witnesses) <==>
            exists w <- witnesses :: Owner(components, w.result) == i && e == Edge(w.input, w.result)
    decreases |witnesses|
  {
    hide Owner;
    if witnesses != [] {
      var rest, last := witnesses[..|witnesses| - 1], witnesses[|witnesses| - 1];
      assert witnesses == rest + [last];
      OwnedAmongHolds(components, i, rest, e);
    }
  }

  lemma {:induction false} OwnedEdgesHold(components: seq<Completion>, n: nat, e: Edge<Row>)
    requires n <= |components|
    ensures e in OwnedEdges(components, n) <==>
            exists w: Witness ::
              FromOwner(components, w) && Owner(components, w.result) < n && e == Edge(w.input, w.result)
    decreases n
  {
    hide Owner, OwnedAmong;
    if n > 0 {
      OwnedEdgesHold(components, n - 1, e);
      OwnedAmongHolds(components, n - 1, components[n - 1].witnesses, e);
    }
  }

  lemma OwnedEdgesMerge(components: seq<Completion>)
    ensures MergedEdges(components, OwnedEdges(components, |components|))
  {
    hide OwnedEdges, Owner;
    forall e ensures e in OwnedEdges(components, |components|) <==>
                     exists w: Witness :: FromOwner(components, w) && e == Edge(w.input, w.result)
    {
      OwnedEdgesHold(components, |components|, e);
    }
  }

  lemma SameCycles(components: seq<Completion>, a: seq<Edge<Row>>, b: seq<Edge<Row>>)
    requires MergedEdges(components, a) && MergedEdges(components, b)
    ensures Cyclic(a) <==> Cyclic(b)
  {
    hide FromOwner;
    assert forall e :: e in a <==> e in b;
    if rows :| ClosedWalk(a, rows) {
      assert ClosedWalk(b, rows);
    }
    if rows :| ClosedWalk(b, rows) {
      assert ClosedWalk(a, rows);
    }
  }

  lemma WitnessOf(components: seq<Completion>, edges: seq<Edge<Row>>, e: Edge<Row>) returns (w: Witness)
    requires MergedEdges(components, edges) && e in edges
    ensures FromOwner(components, w) && e == Edge(w.input, w.result)
  {
    w :| FromOwner(components, w) && e == Edge(w.input, w.result);
  }

  /** Going round a closed walk from one of its nodes to the one before it. */
  lemma AllTheWayRound(edges: seq<Edge<Row>>, rows: seq<Row>, k: nat)
    requires ClosedWalk(edges, rows) && 0 < k < |rows|
    ensures Reaches(edges, rows[k], rows[k - 1])
  {
    WalkSlice(edges, rows, k, |rows|);
    WalkSlice(edges, rows, 0, k);
    var v, w := rows[k..|rows|], rows[0..k];
    WalkJoins(edges, v, w);
    var joined := v + w[1..];
    assert joined[0] == rows[k];
    assert joined[|joined| - 1] == rows[k - 1];
    assert Walk(edges, joined);
  }

  lemma OwnersAscend(context: Context, rowKey: Row -> string, components: seq<Completion>,
                     roots: seq<StableId>, edges: seq<Edge<Row>>, rows: seq<Row>, k: nat)
    requires Sound(context, rowKey, components, roots) && MergedEdges(components, edges)
    requires ClosedWalk(edges, rows) && !LateLoop(components, edges) && 0 < k < |rows|
    ensures StepAscends(components, rows[k - 1], rows[k])
  {
    hide Separate, MergedEdges, Cyclic;
    assert Edge(rows[k - 1], rows[k]) in edges;
    var w := WitnessOf(components, edges, Edge(rows[k - 1], rows[k]));
    var i := Owner(components, rows[k]);
    assert SoundAt(context, components, roots, i);
    var at :| 0 <= at < |components[i].witnesses| && components[i].witnesses[at] == w;
    assert RowEdges(components[i].witnesses)[at] == Edge(rows[k - 1], rows[k]);
    var j := if k == 1 then |rows| - 1 else k - 1;
    assert Edge(rows[j - 1], rows[j]) in edges;
    var before := WitnessOf(components, edges, Edge(rows[j - 1], rows[j]));
    AllTheWayRound(edges, rows, k);
  }

  lemma {:induction false} OwnersMonotone(components: seq<Completion>, rows: seq<Row>, i: nat, j: nat)
    requires forall k | 0 < k < |rows| :: Owner(components, rows[k - 1]) <= Owner(components, rows[k])
    requires i <= j < |rows|
    ensures Owner(components, rows[i]) <= Owner(components, rows[j])
    decreases j
  {
    hide Owner;
    if i < j {
      OwnersMonotone(components, rows, i, j - 1);
      assert Owner(components, rows[j - 1]) <= Owner(components, rows[j]);
    }
  }

  /** Each step of the walk is a step of its result's owner, which is no earlier than its input's. */
  predicate StepAscends(components: seq<Completion>, a: Row, b: Row) {
    var o := Owner(components, b);
    Owner(components, a) <= o < |components| && Edge(a, b) in RowEdges(components[o].witnesses)
  }

  /** A closed walk that ascends stays with one owner. */
  lemma SameOwner(components: seq<Completion>, rows: seq<Row>, k: nat)
    requires |rows| > 1 && rows[0] == rows[|rows| - 1] && k < |rows|
    requires forall k | 0 < k < |rows| :: StepAscends(components, rows[k - 1], rows[k])
    ensures Owner(components, rows[k]) == Owner(components, rows[0])
  {
    hide Owner;
    OwnersMonotone(components, rows, 0, k);
    OwnersMonotone(components, rows, k, |rows| - 1);
  }

  lemma OneOwner(components: seq<Completion>, rows: seq<Row>)
    requires |rows| > 1 && rows[0] == rows[|rows| - 1]
    requires forall k | 0 < k < |rows| :: StepAscends(components, rows[k - 1], rows[k])
    ensures exists o | 0 <= o < |components| :: ClosedWalk(RowEdges(components[o].witnesses), rows)
  {
    hide Owner, RowEdges;
    var o := Owner(components, rows[0]);
    assert o < |components| by { assert StepAscends(components, rows[0], rows[1]); }
    forall k | 0 < k < |rows| ensures Edge(rows[k - 1], rows[k]) in RowEdges(components[o].witnesses) {
      assert StepAscends(components, rows[k - 1], rows[k]);
      SameOwner(components, rows, k);
    }
    assert ClosedWalk(RowEdges(components[o].witnesses), rows);
  }

  /** No single component closes this walk. */
  lemma NotWithinOne(context: Context, rowKey: Row -> string, components: seq<Completion>,
                     roots: seq<StableId>, rows: seq<Row>)
    requires Sound(context, rowKey, components, roots)
    ensures forall o | 0 <= o < |components| :: !ClosedWalk(RowEdges(components[o].witnesses), rows)
  {
    hide Separate, RowEdges, ClosedWalk, Derives, RootedIn, Owner;
    forall o | 0 <= o < |components| ensures !ClosedWalk(RowEdges(components[o].witnesses), rows) {
      assert SoundAt(context, components, roots, o);
    }
  }

  lemma NoCycleWithoutLateLoop(context: Context, rowKey: Row -> string, components: seq<Completion>,
                               roots: seq<StableId>, edges: seq<Edge<Row>>, rows: seq<Row>)
    requires Sound(context, rowKey, components, roots) && MergedEdges(components, edges)
    requires ClosedWalk(edges, rows)
    ensures LateLoop(components, edges)
  {
    hide LateLoop, MergedEdges, Sound, Owner, RowEdges, StepAscends;
    NotWithinOne(context, rowKey, components, roots, rows);
    if !LateLoop(components, edges) {
      forall k | 0 < k < |rows| ensures StepAscends(components, rows[k - 1], rows[k]) {
        OwnersAscend(context, rowKey, components, roots, edges, rows, k);
      }
      OneOwner(components, rows);
    }
  }

  lemma LateLoopIsCycle(components: seq<Completion>, edges: seq<Edge<Row>>)
    requires MergedEdges(components, edges) && LateLoop(components, edges)
    ensures Cyclic(edges)
  {
    hide Owner;
    var w: Witness :| FromOwner(components, w) && Reaches(edges, w.result, w.input);
    var v := PathBetween(edges, w.result, w.input);
    assert Edge(w.input, w.result) in edges;
    WalkJoins(edges, [w.input, w.result], v);
    assert ClosedWalk(edges, [w.input, w.result] + v[1..]);
  }

  /** Sound components merge into an acyclic proof exactly when there is no late loop. */
  lemma MergedAcyclicExactly(context: Context, rowKey: Row -> string, components: seq<Completion>,
                             roots: seq<StableId>, edges: seq<Edge<Row>>)
    requires Sound(context, rowKey, components, roots) && MergedEdges(components, edges)
    ensures Cyclic(edges) <==> LateLoop(components, edges)
  {
    hide Sound, LateLoop, MergedEdges, ClosedWalk;
    if rows :| ClosedWalk(edges, rows) {
      NoCycleWithoutLateLoop(context, rowKey, components, roots, edges, rows);
    }
    if LateLoop(components, edges) {
      LateLoopIsCycle(components, edges);
    }
  }

  // ----- From the merge to the batch -----

  lemma {:induction false} UniqueKeepsMembers(s: seq<Witness>, x: Witness)
    ensures x in Unique(s, SameEdge) <==> x in s
    decreases |s|
  {
    if |s| >= 2 {
      var rest := s[..|s| - 1];
      assert s == rest + [s[|s| - 1]];
      UniqueKeepsMembers(rest, x);
      UniqueKeepsMembers(rest, s[|s| - 2]);
      assert rest[|s| - 2] in rest;
    }
  }

  lemma {:induction false} UniqueKeepsDistinct(facts: seq<Fact>)
    requires NoRepeat(Ids(facts))
    ensures Unique(facts, SameId) == facts
    decreases |facts|
  {
    hide NoRepeat;
    if |facts| >= 2 {
      DistinctInit(facts);
      var rest, last := facts[..|facts| - 1], facts[|facts| - 1];
      UniqueKeepsDistinct(rest);
      assert facts[|facts| - 2] == rest[|rest| - 1] && rest[|rest| - 1] in rest;
      assert facts[|facts| - 2].id in IdSet(rest);
    }
  }

  lemma {:induction false} ClaimDistinct(rowKey: Row -> string, facts: seq<Fact>, owned: set<StableId>)
    ensures var claimed := Claim(rowKey, facts, owned);
            NoRepeat(Ids(claimed.kept)) && forall f <- claimed.kept :: f.id in claimed.owned && f.id !in owned
    decreases |facts|
  {
    if facts != [] {
      var rest := facts[..|facts| - 1];
      ClaimDistinct(rowKey, rest, owned);
      ClaimOwns(rowKey, rest, owned);
      var before := Claim(rowKey, rest, owned);
      DistinctJoin(before.kept, [facts[|facts| - 1]], before.owned);
    }
  }

  lemma DistinctJoin(a: seq<Fact>, b: seq<Fact>, owned: set<StableId>)
    requires NoRepeat(Ids(a)) && NoRepeat(Ids(b)) && forall f <- a :: f.id in owned
    ensures (forall f <- b :: f.id !in owned) ==> NoRepeat(Ids(a + b))
  {
    if forall f <- b :: f.id !in owned {
      var ids := Ids(a + b);
      forall i, j | 0 <= i < j < |ids| ensures ids[i] != ids[j] {
        if j < |a| {
          assert ids[i] == Ids(a)[i] && ids[j] == Ids(a)[j];
        } else if i >= |a| {
          assert ids[i] == Ids(b)[i - |a|] && ids[j] == Ids(b)[j - |a|];
        } else {
          assert a[i] in a && b[j - |a|] in b;
        }
      }
    }
  }

  lemma {:induction false} GatherDistinct(rowKey: Row -> string, components: seq<Completion>)
    ensures var gathered := Gather(rowKey, components);
            NoRepeat(Ids(gathered.facts)) && forall f <- gathered.facts :: f.id in gathered.owned
    decreases |components|
  {
    hide Claim, Surviving, NoRepeat;
    if components == [] {
      assert NoRepeat(Ids([])) by { NoneRepeat(); }
    } else {
      var n := |components| - 1;
      GatherDistinct(rowKey, components[..n]);
      var before := Gather(rowKey, components[..n]);
      ClaimDistinct(rowKey, components[n].facts, before.owned);
      ClaimOwns(rowKey, components[n].facts, before.owned);
      DistinctJoin(before.facts, Claim(rowKey, components[n].facts, before.owned).kept, before.owned);
    }
  }

  lemma NoneRepeat()
    ensures NoRepeat(Ids([]))
  {}

  /** The batch's facts are the gathered ones, each once. */
  lemma BatchFacts(context: Context, canon: Canon, result: RunResult)
    ensures var completed := Sort(result.completed, ByComponent(canon.keyLeq));
            var batch := Assembled(context, canon, result);
            && NoRepeat(Ids(batch.facts))
            && forall f :: f in batch.facts <==> f in Gather(canon.rowKey, completed).facts
  {
    hide Gather, Unique;
    var gathered := Gather(canon.rowKey, Sort(result.completed, ByComponent(canon.keyLeq))).facts;
    var sorted := Sort(gathered, ByRow(canon.rowKey));
    GatherDistinct(canon.rowKey, Sort(result.completed, ByComponent(canon.keyLeq)));
    assert forall i, j | 0 <= i < j < |gathered| :: Ids(gathered)[i] != Ids(gathered)[j];
    RearrangedDistinct(gathered, sorted, (f: Fact) => f.id);
    UniqueKeepsDistinct(sorted);
    SameElements(gathered, sorted);
  }

  /** The batch's witnesses are the gathered ones. */
  lemma BatchWitnesses(context: Context, canon: Canon, result: RunResult, w: Witness)
    ensures w in Assembled(context, canon, result).witnesses <==>
            w in Gather(canon.rowKey, Sort(result.completed, ByComponent(canon.keyLeq))).witnesses
  {
    hide Gather, Unique;
    var gathered := Gather(canon.rowKey, Sort(result.completed, ByComponent(canon.keyLeq))).witnesses;
    var sorted := Sort(gathered, ByWitness(canon.rowKey));
    UniqueKeepsMembers(sorted, w);
    SameElements(gathered, sorted);
  }

  lemma BatchComponents(context: Context, canon: Canon, result: RunResult)
    requires NoRepeat(result.expected) && NoRepeat(Keys(result.completed))
    requires forall key :: key in result.expected <==> key in Keys(result.completed)
    ensures ComponentsMatch(Assembled(context, canon, result))
  {
    hide Gather, Unique;
    var completed := Sort(result.completed, ByComponent(canon.keyLeq));
    var expected := Sort(result.expected, canon.keyLeq);
    assert forall i, j | 0 <= i < j < |result.completed| ::
             Keys(result.completed)[i] != Keys(result.completed)[j];
    RearrangedDistinct(result.completed, completed, (c: Completion) => c.key);
    RearrangedDistinct(result.expected, expected, (k: ComponentKey) => k);
    SameElements(result.expected, expected);
    SameElements(result.completed, completed);
    forall key ensures key in expected <==> key in Keys(completed) {
      SameKeys(result.completed, completed, key);
    }
    assert Keys(Assembled(context, canon, result).completed) == Keys(completed);
  }

  lemma SameKeys(a: seq<Completion>, b: seq<Completion>, key: ComponentKey)
    requires multiset(a) == multiset(b)
    ensures key in Keys(a) <==> key in Keys(b)
  {
    var p := FindRearrangement(a, b);
    var q := FindRearrangement(b, a);
    if i :| 0 <= i < |a| && Keys(a)[i] == key {
      assert Keys(b)[p[i]] == key;
    }
    if i :| 0 <= i < |b| && Keys(b)[i] == key {
      assert Keys(a)[q[i]] == key;
    }
  }

  /** The batch holds what the components' first owners hold. */
  ghost predicate Merges(batch: Batch, components: seq<Completion>, roots: seq<StableId>) {
    && NoRepeat(Ids(batch.facts))
    && (forall f <- batch.facts :: AnyFact(components, f))
    && (forall row :: Published(batch, row) <==> Owner(components, row) < |components|)
    && (forall w :: w in batch.witnesses <==> FromOwner(components, w))
    && (forall root :: root in batch.roots <==> root in roots)
  }

  lemma BatchRoots(context: Context, canon: Canon, result: RunResult)
    ensures forall root :: root in Assembled(context, canon, result).roots <==> root in result.roots
  {
    hide Gather, Unique;
    SameElements(result.roots, Sort(result.roots, canon.idLeq));
  }

  lemma AssembledMerges(context: Context, canon: Canon, result: RunResult, components: seq<Completion>)
    requires components == Sort(result.completed, ByComponent(canon.keyLeq))
    requires Sound(context, canon.rowKey, components, result.roots)
    ensures Merges(Assembled(context, canon, result), components, result.roots)
  {
    hide Gather, Assembled, Sort, SoundAt, Separate, FromOwner, AnyFact, NoRepeat, Owner, EachDistinct;
    var batch := Assembled(context, canon, result);
    BatchFacts(context, canon, result);
    SeparateIsDistinct(context, canon.rowKey, components);
    forall f <- batch.facts ensures AnyFact(components, f) {
      GatherKeepsFacts(canon.rowKey, components, f);
      var i: nat :| i < |components| && FirstIn(components, i, f);
      assert AnyFact(components, f) by { SomeComponent(components, i, f); }
    }
    forall row ensures Published(batch, row) <==> Owner(components, row) < |components| {
      MergePublishesAll(context, canon.rowKey, components, row);
    }
    forall w ensures w in batch.witnesses <==> FromOwner(components, w) {
      BatchWitnesses(context, canon, result, w);
      MergeKeepsOwnersWitnesses(context, canon.rowKey, components, result.roots, w);
    }
    BatchRoots(context, canon, result);
  }

  lemma SomeComponent(components: seq<Completion>, i: nat, f: Fact)
    requires i < |components| && f in components[i].facts
    ensures AnyFact(components, f)
  {}

  lemma MergedIdentified(context: Context, rowKey: Row -> string, components: seq<Completion>,
                         roots: seq<StableId>, batch: Batch)
    requires Sound(context, rowKey, components, roots) && Merges(batch, components, roots)
    ensures FactsIdentified(context, batch)
  {
    hide SoundAt, IdentityOf, AnyFact, FromOwner, Owner, NoRepeat;
  }

  lemma DerivedIsIdentified(context: Context, rowKey: Row -> string, components: seq<Completion>, row: Row)
    requires Separate(context, rowKey, components) && Owner(components, row) < |components|
    ensures context.Identify(row).Identified?
  {
    hide IdentityOf, EachDistinct;
    OwnerIsFirst(components, row);
    var i := Owner(components, row);
    var f :| f in components[i].facts && f.row == row;
    assert AnyFact(components, f);
  }

  /** A kept witness has an identified result that is published and an input that is published or a root. */
  lemma MergedWitnessCloses(context: Context, rowKey: Row -> string, components: seq<Completion>,
                            roots: seq<StableId>, batch: Batch, w: Witness)
    requires Sound(context, rowKey, components, roots) && Merges(batch, components, roots)
    requires w in batch.witnesses
    ensures context.Identify(w.result).Identified? && context.Identify(w.input).Identified?
    ensures Published(batch, w.result) && (Published(batch, w.input) || Rooted(context, batch, w.input))
  {
    hide IdentityOf, Owner, Separate, Published, AnyFact, NoRepeat;
    assert FromOwner(components, w);
    var i := Owner(components, w.result);
    assert SoundAt(context, components, roots, i);
    DerivedIsIdentified(context, rowKey, components, w.result);
    if Owner(components, w.input) < |components| {
      DerivedIsIdentified(context, rowKey, components, w.input);
    }
  }

  lemma MergedFactWitnessed(context: Context, rowKey: Row -> string, components: seq<Completion>,
                            roots: seq<StableId>, batch: Batch, f: Fact)
    requires Sound(context, rowKey, components, roots) && Merges(batch, components, roots) && f in batch.facts
    ensures Witnessed(batch, f.row)
  {
    hide IdentityOf, Separate, AnyFact, NoRepeat;
    assert Published(batch, f.row);
    OwnerIsFirst(components, f.row);
    var i := Owner(components, f.row);
    assert SoundAt(context, components, roots, i);
    var g :| g in components[i].facts && g.row == f.row;
    var w :| w in components[i].witnesses && w.result == g.row;
    assert FromOwner(components, w);
  }

  lemma MergedEdgesOf(batch: Batch, components: seq<Completion>, roots: seq<StableId>)
    requires Merges(batch, components, roots)
    ensures MergedEdges(components, RowEdges(batch.witnesses))
  {
    hide FromOwner, Published, Owner, NoRepeat, AnyFact;
    var edges := RowEdges(batch.witnesses);
    forall e ensures e in edges <==> exists w: Witness :: FromOwner(components, w) && e == Edge(w.input, w.result) {
      if k :| 0 <= k < |edges| && edges[k] == e {
        assert batch.witnesses[k] in batch.witnesses;
      }
      if w: Witness :| FromOwner(components, w) && e == Edge(w.input, w.result) {
        var k :| 0 <= k < |batch.witnesses| && batch.witnesses[k] == w;
        assert edges[k] == e;
      }
    }
  }

  lemma MergedCloses(context: Context, rowKey: Row -> string, components: seq<Completion>,
                     roots: seq<StableId>, batch: Batch)
    requires Sound(context, rowKey, components, roots) && Merges(batch, components, roots)
    ensures WitnessesIdentified(context, batch) && ClosedUnderWitness(context, batch)
  {
    hide Sound, Merges, IdentityOf, Published, Rooted, Witnessed;
    forall w <- batch.witnesses
      ensures context.Identify(w.result).Identified? && context.Identify(w.input).Identified?
      ensures Published(batch, w.result) && (Published(batch, w.input) || Rooted(context, batch, w.input))
    {
      MergedWitnessCloses(context, rowKey, components, roots, batch, w);
    }
    forall f <- batch.facts ensures Witnessed(batch, f.row) {
      MergedFactWitnessed(context, rowKey, components, roots, batch, f);
    }
  }

  lemma BatchAddressed(context: Context, canon: Canon, result: RunResult)
    ensures var batch := Assembled(context, canon, result); batch.id == context.BatchId(batch)
  {
    hide Gather, Unique, Sort;
  }

  /**
   * The bus accepts the merged batch of sound components exactly when there is no late loop among the edges
   * their owned witnesses make.
   */
  lemma MergedBatchAcceptedExactly(context: Context, canon: Canon, result: RunResult)
    requires NoRepeat(result.expected) && NoRepeat(Keys(result.completed))
    requires forall key :: key in result.expected <==> key in Keys(result.completed)
    requires var components := Sort(result.completed, ByComponent(canon.keyLeq));
             Sound(context, canon.rowKey, components, result.roots)
    ensures var components := Sort(result.completed, ByComponent(canon.keyLeq));
            ValidBatch(context, Assembled(context, canon, result)) <==>
            !LateLoop(components, OwnedEdges(components, |components|))
  {
    hide Assembled, Sound, Merges, LateLoop, ComponentsMatch, FactsIdentified, WitnessesIdentified;
    hide ClosedUnderWitness, Cyclic, RowEdges, Sort, ByComponent, MergedEdges, NoRepeat, OwnedEdges;
    var components := Sort(result.completed, ByComponent(canon.keyLeq));
    var batch := Assembled(context, canon, result);
    BatchAddressed(context, canon, result);
    BatchComponents(context, canon, result);
    AssembledMerges(context, canon, result, components);
    MergedIdentified(context, canon.rowKey, components, result.roots, batch);
    MergedCloses(context, canon.rowKey, components, result.roots, batch);
    MergedEdgesOf(batch, components, result.roots);
    OwnedEdgesMerge(components);
    SameCycles(components, RowEdges(batch.witnesses), OwnedEdges(components, |components|));
    MergedAcyclicExactly(context, canon.rowKey, components, result.roots, OwnedEdges(components, |components|));
  }

  /** In particular, roots that nothing publishes later leave no room for one. */
  lemma DistinctRootsSuffice(context: Context, canon: Canon, result: RunResult)
    requires NoRepeat(result.expected) && NoRepeat(Keys(result.completed))
    requires forall key :: key in result.expected <==> key in Keys(result.completed)
    requires var components := Sort(result.completed, ByComponent(canon.keyLeq));
             && Sound(context, canon.rowKey, components, result.roots)
             && (forall row | RootedIn(context, result.roots, row) :: Owner(components, row) == |components|)
    ensures ValidBatch(context, Assembled(context, canon, result))
  {
    var components := Sort(result.completed, ByComponent(canon.keyLeq));
    hide Assembled, ValidBatch, Separate, RootedIn, Owner, Cyclic, Reaches, OwnedEdges;
    MergedBatchAcceptedExactly(context, canon, result);
    forall w: Witness | FromOwner(components, w) && Owner(components, w.input) < |components|
      ensures Owner(components, w.input) <= Owner(components, w.result)
    {
      assert SoundAt(context, components, result.roots, Owner(components, w.result));
    }
  }

  // ----- A late loop exists -----

  /** Derives `a` from the root `r`. */
  function UsesRoot(key: ComponentKey, a: Fact, r: Fact): Completion {
    Completion(key, "", [a], [Witness(a.row, "", "", r.row, 0)], [])
  }

  lemma SelfFree(from: Row, to: Row)
    requires from != to
    ensures !Cyclic([Edge(from, to)])
  {
    var edges, order := [Edge(from, to)], [from, to];
    forall e <- edges, k | 0 <= k < |order| && order[k] == e.to ensures e.from in order[..k] {
      assert order[..k][0] == from;
    }
    ForwardIsAcyclic(edges, order);
  }

  lemma PairIsSound(context: Context, rowKey: Row -> string, j: ComponentKey, k: ComponentKey, a: Fact, r: Fact)
    requires context.Identify(a.row) == Identified(a.id) && context.Identify(r.row) == Identified(r.id)
    requires a.id != r.id && rowKey(a.row) != rowKey(r.row)
    ensures Sound(context, rowKey, [UsesRoot(j, a, r), UsesRoot(k, r, a)], [r.id])
    ensures Owner([UsesRoot(j, a, r), UsesRoot(k, r, a)], a.row) == 0
    ensures Owner([UsesRoot(j, a, r), UsesRoot(k, r, a)], r.row) == 1
  {
    hide IdentityOf;
    var first, second := UsesRoot(j, a, r), UsesRoot(k, r, a);
    var components := [first, second];
    assert first.facts[0] == a && second.facts[0] == r;
    assert first.witnesses[0].result == a.row && second.witnesses[0].result == r.row;
    assert Derives(first, a.row) && !Derives(first, r.row) && Derives(second, r.row);
    OwnerIsFirst(components, a.row);
    OwnerIsFirst(components, r.row);
    assert forall f | AnyFact(components, f) :: f == a || f == r;
    assert RowEdges(first.witnesses) == [Edge(r.row, a.row)];
    assert RowEdges(second.witnesses) == [Edge(a.row, r.row)];
    SelfFree(r.row, a.row);
    SelfFree(a.row, r.row);
    assert r.id in [r.id];
    assert SoundAt(context, components, [r.id], 0);
    assert SoundAt(context, components, [r.id], 1);
  }

  /** Two sound components whose merge the bus refuses: the second publishes the root the first rests on. */
  lemma LateRootCanLoop(context: Context, canon: Canon, j: ComponentKey, k: ComponentKey, a: Fact, r: Fact)
    requires context.Identify(a.row) == Identified(a.id) && context.Identify(r.row) == Identified(r.id)
    requires a.id != r.id && canon.rowKey(a.row) != canon.rowKey(r.row)
    requires canon.keyLeq(j, k) && j != k
    ensures var components := [UsesRoot(j, a, r), UsesRoot(k, r, a)];
            && Sound(context, canon.rowKey, components, [r.id])
            && !ValidBatch(context, Assembled(context, canon, RunResult("", [j, k], components, [r.id])))
  {
    var components := [UsesRoot(j, a, r), UsesRoot(k, r, a)];
    var result := RunResult("", [j, k], components, [r.id]);
    hide Sound, Assembled, IdentityOf, ValidBatch, Owner, Sort, ByComponent, LateLoop, OwnedEdges;
    PairIsSound(context, canon.rowKey, j, k, a, r);
    PairStaysSorted(canon.keyLeq, components);
    assert Keys(components) == [j, k];
    MergedBatchAcceptedExactly(context, canon, result);
    OwnedEdgesMerge(components);
    PairLoops(components, OwnedEdges(components, 2), j, k, a, r);
  }

  lemma PairLoops(components: seq<Completion>, edges: seq<Edge<Row>>, j: ComponentKey, k: ComponentKey,
                  a: Fact, r: Fact)
    requires components == [UsesRoot(j, a, r), UsesRoot(k, r, a)] && MergedEdges(components, edges)
    requires Owner(components, a.row) == 0 && Owner(components, r.row) == 1
    ensures LateLoop(components, edges)
  {
    hide Owner;
    var w, v := components[0].witnesses[0], components[1].witnesses[0];
    assert FromOwner(components, w) && FromOwner(components, v);
    assert Edge(a.row, r.row) in edges;
    assert Walk(edges, [a.row, r.row]);
    assert Reaches(edges, w.result, w.input);
  }

  lemma PairStaysSorted(keyLeq: (ComponentKey, ComponentKey) -> bool, pair: seq<Completion>)
    requires |pair| == 2 && keyLeq(pair[0].key, pair[1].key)
    ensures Sort(pair, ByComponent(keyLeq)) == pair
  {
    var leq := ByComponent(keyLeq);
    var last := pair[1..];
    assert last[1..] == [];
    assert Sort(last, leq) == Insert(last[0], Sort(last[1..], leq), leq) == last;
  }
}
