/** Assembly of a run's components into one canonical batch. */
module FactAssembly {
  import opened Basics
  import opened FactIdentity
  import opened FactBatch
  import opened FactRanks
  import opened Orders

  /** The order of component keys, the order of ids, and the encoded semantic key of a row. */
  datatype Canon = Canon(keyLeq: (ComponentKey, ComponentKey) -> bool, idLeq: (StableId, StableId) -> bool,
                         rowKey: Row -> string)

  datatype RunResult = RunResult(run: string, expected: seq<ComponentKey>, completed: seq<Completion>,
                                 roots: seq<StableId>)

  // ----- First owner takes all -----

  /** The facts a component is first to publish, and the keys of those it is not. */
  datatype Claimed = Claimed(kept: seq<Fact>, overridden: set<string>, owned: set<StableId>)

  function Claim(rowKey: Row -> string, facts: seq<Fact>, owned: set<StableId>): Claimed {
    if facts == [] then Claimed([], {}, owned)
    else
      var last := facts[|facts| - 1];
      var before := Claim(rowKey, facts[..|facts| - 1], owned);
      if last.id !in before.owned then
        Claimed(before.kept + [last], before.overridden, before.owned + {last.id})
      else
        Claimed(before.kept, before.overridden + {rowKey(last.row)}, before.owned)
  }

  /** The witnesses of results that are not overridden. */
  function Surviving(rowKey: Row -> string, witnesses: seq<Witness>, overridden: set<string>): seq<Witness> {
    if witnesses == [] then []
    else
      var last := witnesses[|witnesses| - 1];
      Surviving(rowKey, witnesses[..|witnesses| - 1], overridden)
      + (if rowKey(last.result) in overridden then [] else [last])
  }

  datatype Gathered = Gathered(owned: set<StableId>, facts: seq<Fact>, witnesses: seq<Witness>,
                               diagnostics: seq<string>)

  /** Everything the components contribute, component by component. */
  function Gather(rowKey: Row -> string, components: seq<Completion>): Gathered {
    if components == [] then Gathered({}, [], [], [])
    else
      var last := components[|components| - 1];
      var before := Gather(rowKey, components[..|components| - 1]);
      var claimed := Claim(rowKey, last.facts, before.owned);
      Gathered(claimed.owned, before.facts + claimed.kept,
               before.witnesses + Surviving(rowKey, last.witnesses, claimed.overridden),
               before.diagnostics + last.diagnostics)
  }

  // ----- Canonical order -----

  function ByRow(rowKey: Row -> string): (Fact, Fact) -> bool {
    (a: Fact, b: Fact) => LexLeq(rowKey(a.row), rowKey(b.row))
  }

  /** Result key, then rule, then input key, then position. */
  function ByWitness(rowKey: Row -> string): (Witness, Witness) -> bool {
    (a: Witness, b: Witness) =>
      if rowKey(a.result) != rowKey(b.result) then LexLeq(rowKey(a.result), rowKey(b.result))
      else if a.rule != b.rule then LexLeq(a.rule, b.rule)
      else if rowKey(a.input) != rowKey(b.input) then LexLeq(rowKey(a.input), rowKey(b.input))
      else a.ordinal <= b.ordinal
  }

  function ByComponent(keyLeq: (ComponentKey, ComponentKey) -> bool): (Completion, Completion) -> bool {
    (a: Completion, b: Completion) => keyLeq(a.key, b.key)
  }

  /** The first of every run of equal neighbours. */
  function Unique<T>(s: seq<T>, same: (T, T) -> bool): (r: seq<T>)
    ensures forall x <- r :: x in s
  {
    if |s| < 2 then s
    else
      var before := Unique(s[..|s| - 1], same);
      if same(s[|s| - 2], s[|s| - 1]) then before else before + [s[|s| - 1]]
  }

  predicate SameId(a: Fact, b: Fact) {
    a.id == b.id
  }

  predicate SameEdge(a: Witness, b: Witness) {
    a == b
  }

  function Stripped(components: seq<Completion>): (r: seq<Completion>)
    ensures Keys(r) == Keys(components)
  {
    seq(|components|, i requires 0 <= i < |components| =>
      components[i].(facts := [], witnesses := [], diagnostics := []))
  }

  function Assembled(context: Context, canon: Canon, result: RunResult): Batch {
    var completed := Sort(result.completed, ByComponent(canon.keyLeq));
    var gathered := Gather(canon.rowKey, completed);
    var batch := Batch(
      StableId(FactId, ""), result.run, Sort(result.expected, canon.keyLeq), Stripped(completed),
      Sort(result.roots, canon.idLeq),
      Unique(Sort(gathered.facts, ByRow(canon.rowKey)), SameId),
      Unique(Sort(gathered.witnesses, ByWitness(canon.rowKey)), SameEdge),
      Sort(gathered.diagnostics, LexLeq));
    batch.(id := context.BatchId(batch))
  }

  // ----- Arrival order does not matter -----

  ghost predicate TotalOrder<T(!new)>(leq: (T, T) -> bool) {
    TotalPreorder(leq) && forall x, y :: leq(x, y) && leq(y, x) ==> x == y
  }

  lemma SortIgnoresArrival<T(!new)>(a: seq<T>, b: seq<T>, leq: (T, T) -> bool)
    requires TotalPreorder(leq) && Antisymmetric(a, leq) && multiset(a) == multiset(b)
    ensures Sort(a, leq) == Sort(b, leq)
  {
    SortSorted(a, leq);
    SortSorted(b, leq);
    SameElements(a, Sort(a, leq));
    SortedUnique(Sort(a, leq), Sort(b, leq), leq);
  }

  lemma ByComponentOrders(keyLeq: (ComponentKey, ComponentKey) -> bool)
    requires TotalPreorder(keyLeq)
    ensures TotalPreorder(ByComponent(keyLeq))
  {
    var leq := ByComponent(keyLeq);
    forall x, y ensures leq(x, y) || leq(y, x) {
      assert keyLeq(x.key, y.key) || keyLeq(y.key, x.key);
    }
    forall x, y, z | leq(x, y) && leq(y, z) ensures leq(x, z) {
      assert keyLeq(x.key, y.key) && keyLeq(y.key, z.key);
    }
  }

  /** The same results, in whatever order they arrive. */
  predicate SameResults(a: RunResult, b: RunResult) {
    && a.run == b.run && multiset(a.completed) == multiset(b.completed)
    && multiset(a.expected) == multiset(b.expected) && multiset(a.roots) == multiset(b.roots)
  }

  lemma DistinctArrival(context: Context, canon: Canon, a: RunResult, b: RunResult)
    requires TotalOrder(canon.keyLeq) && TotalOrder(canon.idLeq) && SameResults(a, b)
    requires NoRepeat(Keys(a.completed))
    ensures Assembled(context, canon, a) == Assembled(context, canon, b)
  {
    hide Sort, Gather, Unique;
    SortIgnoresArrival(a.expected, b.expected, canon.keyLeq);
    SortIgnoresArrival(a.roots, b.roots, canon.idLeq);
    var leq := ByComponent(canon.keyLeq);
    forall x, y | x in a.completed && y in a.completed && leq(x, y) && leq(y, x) ensures x == y {
      var i :| 0 <= i < |a.completed| && a.completed[i] == x;
      var j :| 0 <= j < |a.completed| && a.completed[j] == y;
      assert Keys(a.completed)[i] == Keys(a.completed)[j];
    }
    ByComponentOrders(canon.keyLeq);
    SortIgnoresArrival(a.completed, b.completed, leq);
  }

  lemma KeysRearranged(a: seq<Completion>, b: seq<Completion>)
    requires multiset(a) == multiset(b) && NoRepeat(Keys(a))
    ensures NoRepeat(Keys(b))
  {
    assert forall i, j | 0 <= i < j < |a| :: Keys(a)[i] != Keys(a)[j];
    RearrangedDistinct(a, b, (c: Completion) => c.key);
  }

  /** A component that completed twice makes a batch the bus refuses. */
  lemma RepeatedKeyRefused(context: Context, canon: Canon, result: RunResult)
    requires !NoRepeat(Keys(result.completed))
    ensures !ValidBatch(context, Assembled(context, canon, result))
  {
    hide Gather, Unique, Sort, FactsIdentified, WitnessesIdentified, ClosedUnderWitness;
    var sorted := Sort(result.completed, ByComponent(canon.keyLeq));
    if NoRepeat(Keys(sorted)) {
      KeysRearranged(sorted, result.completed);
    }
    assert Keys(Assembled(context, canon, result).completed) == Keys(sorted);
  }

  /**
   * The components of one analysis in whatever order they finish make the same batch, id included; unless one
   * completed twice, and then the bus refuses the batch whatever the order.
   */
  lemma AssemblyIgnoresArrival(context: Context, canon: Canon, a: RunResult, b: RunResult)
    requires TotalOrder(canon.keyLeq) && TotalOrder(canon.idLeq) && SameResults(a, b)
    ensures NoRepeat(Keys(a.completed)) ==> Assembled(context, canon, a) == Assembled(context, canon, b)
    ensures !NoRepeat(Keys(a.completed)) ==>
              && !ValidBatch(context, Assembled(context, canon, a))
              && !ValidBatch(context, Assembled(context, canon, b))
  {
    hide Assembled, ValidBatch, NoRepeat;
    if NoRepeat(Keys(a.completed)) {
      DistinctArrival(context, canon, a, b);
    } else {
      if NoRepeat(Keys(b.completed)) {
        KeysRearranged(b.completed, a.completed);
      }
      RepeatedKeyRefused(context, canon, a);
      RepeatedKeyRefused(context, canon, b);
    }
  }

  // ----- The assembler, which orders by rank -----

  datatype KeyedFact = KeyedFact(rank: nat, fact: Fact)

  datatype KeyedWitness = KeyedWitness(result: nat, rule: nat, input: nat, ordinal: nat, edge: Witness)

  /** Each interned id stands for the key it replaces. */
  predicate FactsKeyed(rowKey: Row -> string, pool: seq<string>, keyed: seq<KeyedFact>) {
    forall k <- keyed :: k.rank < |pool| && pool[k.rank] == rowKey(k.fact.row)
  }

  predicate WitnessesKeyed(rowKey: Row -> string, pool: seq<string>, keyed: seq<KeyedWitness>) {
    forall k <- keyed ::
      && k.result < |pool| && pool[k.result] == rowKey(k.edge.result)
      && k.rule < |pool| && pool[k.rule] == k.edge.rule
      && k.input < |pool| && pool[k.input] == rowKey(k.edge.input)
      && k.ordinal == k.edge.ordinal
  }

  function FactsOf(keyed: seq<KeyedFact>): (facts: seq<Fact>)
    ensures |facts| == |keyed| && forall i :: 0 <= i < |keyed| ==> facts[i] == keyed[i].fact
  {
    seq(|keyed|, i requires 0 <= i < |keyed| => keyed[i].fact)
  }

  function EdgesOf(keyed: seq<KeyedWitness>): (edges: seq<Witness>)
    ensures |edges| == |keyed| && forall i :: 0 <= i < |keyed| ==> edges[i] == keyed[i].edge
  {
    seq(|keyed|, i requires 0 <= i < |keyed| => keyed[i].edge)
  }

  /** One of the ids stands for the key. */
  predicate Stands(pool: seq<string>, ids: set<nat>, key: string) {
    exists id <- ids :: id < |pool| && pool[id] == key
  }

  /** The ids of a set of keys. */
  predicate Stand(pool: seq<string>, ids: set<nat>, keys: set<string>) {
    && (forall id <- ids :: id < |pool| && pool[id] in keys)
    && (forall key <- keys :: Stands(pool, ids, key))
  }

  lemma StandsStill(pool: seq<string>, more: seq<string>, ids: set<nat>, wider: set<nat>, key: string)
    requires Stands(pool, ids, key) && pool <= more && ids <= wider
    ensures Stands(more, wider, key)
  {
    var id :| id in ids && id < |pool| && pool[id] == key;
    assert id in wider && more[id] == key;
  }

  lemma StandGrows(pool: seq<string>, more: seq<string>, ids: set<nat>, keys: set<string>)
    requires Stand(pool, ids, keys) && pool <= more
    ensures Stand(more, ids, keys)
  {
    hide Stands;
    forall key <- keys ensures Stands(more, ids, key) {
      StandsStill(pool, more, ids, ids, key);
    }
  }

  lemma StandAdds(pool: seq<string>, ids: set<nat>, keys: set<string>, id: nat)
    requires Stand(pool, ids, keys) && id < |pool|
    ensures Stand(pool, ids + {id}, keys + {pool[id]})
  {
    forall key <- keys + {pool[id]} ensures Stands(pool, ids + {id}, key) {
      if key in keys {
        StandsStill(pool, pool, ids, ids + {id}, key);
      } else {
        assert id in ids + {id};
      }
    }
  }

  lemma StandsFor(pool: seq<string>, ids: set<nat>, keys: set<string>, id: nat)
    requires NoRepeat(pool) && Stand(pool, ids, keys) && id < |pool|
    ensures id in ids <==> pool[id] in keys
  {}

  lemma NoneClaimed(rowKey: Row -> string, owned: set<StableId>, pool: seq<string>)
    ensures Claim(rowKey, [], owned) == Claimed([], {}, owned)
    ensures Stand(pool, {}, {}) && FactsKeyed(rowKey, pool, [])
  {}

  lemma ClaimStep(rowKey: Row -> string, facts: seq<Fact>, owned: set<StableId>)
    requires facts != []
    ensures var last := facts[|facts| - 1];
            var before := Claim(rowKey, facts[..|facts| - 1], owned);
            Claim(rowKey, facts, owned) ==
            if last.id !in before.owned then
              Claimed(before.kept + [last], before.overridden, before.owned + {last.id})
            else
              Claimed(before.kept, before.overridden + {rowKey(last.row)}, before.owned)
  {}

  lemma FactsStayKeyed(rowKey: Row -> string, pool: seq<string>, more: seq<string>, keyed: seq<KeyedFact>)
    requires FactsKeyed(rowKey, pool, keyed) && pool <= more
    ensures FactsKeyed(rowKey, more, keyed)
  {}

  lemma KeyAnother(rowKey: Row -> string, pool: seq<string>, keyed: seq<KeyedFact>, next: KeyedFact)
    requires FactsKeyed(rowKey, pool, keyed) && next.rank < |pool| && pool[next.rank] == rowKey(next.fact.row)
    ensures FactsKeyed(rowKey, pool, keyed + [next])
    ensures FactsOf(keyed + [next]) == FactsOf(keyed) + [next.fact]
  {}

  lemma WitnessesStayKeyed(rowKey: Row -> string, pool: seq<string>, more: seq<string>, keyed: seq<KeyedWitness>)
    requires WitnessesKeyed(rowKey, pool, keyed) && pool <= more
    ensures WitnessesKeyed(rowKey, more, keyed)
  {}

  lemma KeyAnotherWitness(rowKey: Row -> string, pool: seq<string>, keyed: seq<KeyedWitness>, next: KeyedWitness)
    requires WitnessesKeyed(rowKey, pool, keyed) && WitnessesKeyed(rowKey, pool, [next])
    ensures WitnessesKeyed(rowKey, pool, keyed + [next])
    ensures EdgesOf(keyed + [next]) == EdgesOf(keyed) + [next.edge]
  {
    assert next in [next];
  }

  lemma NoneSurviving(rowKey: Row -> string, overridden: set<string>, pool: seq<string>)
    ensures Surviving(rowKey, [], overridden) == [] && WitnessesKeyed(rowKey, pool, []) && EdgesOf([]) == []
  {}

  lemma SurvivingStep(rowKey: Row -> string, witnesses: seq<Witness>, overridden: set<string>)
    requires witnesses != []
    ensures var last := witnesses[|witnesses| - 1];
            Surviving(rowKey, witnesses, overridden) ==
            Surviving(rowKey, witnesses[..|witnesses| - 1], overridden)
            + (if rowKey(last.result) in overridden then [] else [last])
  {}

  /** Interns the three keys of one witness. */
  method KeyWitness(rowKey: Row -> string, ranks: FactRanks, result: nat, edge: Witness) returns (k: KeyedWitness)
    requires ranks.Valid() && !ranks.finished
    requires result < |ranks.pool| && ranks.pool[result] == rowKey(edge.result)
    modifies ranks
    ensures ranks.Valid() && !ranks.finished && old(ranks.pool) <= ranks.pool
    ensures k.edge == edge && WitnessesKeyed(rowKey, ranks.pool, [k])
  {
    var rule := ranks.Intern(edge.rule);
    var input := ranks.Intern(rowKey(edge.input));
    k := KeyedWitness(result, rule, input, edge.ordinal, edge);
  }

  /** Claims one component's facts for the first owner of each. */
  method ClaimFacts(rowKey: Row -> string, ranks: FactRanks, facts: seq<Fact>, owned: set<StableId>)
    returns (keyed: seq<KeyedFact>, overridden: set<nat>, owners: set<StableId>)
    requires ranks.Valid() && !ranks.finished
    modifies ranks
    ensures ranks.Valid() && !ranks.finished && old(ranks.pool) <= ranks.pool
    ensures FactsKeyed(rowKey, ranks.pool, keyed)
    ensures var claimed := Claim(rowKey, facts, owned);
            && FactsOf(keyed) == claimed.kept && owners == claimed.owned
            && Stand(ranks.pool, overridden, claimed.overridden)
  {
    hide Stand, Claim, FactsKeyed;
    keyed, overridden, owners := [], {}, owned;
    NoneClaimed(rowKey, owned, ranks.pool);
    for i := 0 to |facts|
      invariant ranks.Valid() && !ranks.finished && old(ranks.pool) <= ranks.pool
      invariant FactsKeyed(rowKey, ranks.pool, keyed)
      invariant var claimed := Claim(rowKey, facts[..i], owned);
                && FactsOf(keyed) == claimed.kept && owners == claimed.owned
                && Stand(ranks.pool, overridden, claimed.overridden)
    {
      var fact := facts[i];
      assert facts[..i + 1][..i] == facts[..i];
      ghost var pool := ranks.pool;
      var id := ranks.Intern(rowKey(fact.row));
      StandGrows(pool, ranks.pool, overridden, Claim(rowKey, facts[..i], owned).overridden);
      FactsStayKeyed(rowKey, pool, ranks.pool, keyed);
      ClaimStep(rowKey, facts[..i + 1], owned);
      if fact.id !in owners {
        KeyAnother(rowKey, ranks.pool, keyed, KeyedFact(id, fact));
        owners := owners + {fact.id};
        keyed := keyed + [KeyedFact(id, fact)];
      } else {
        StandAdds(ranks.pool, overridden, Claim(rowKey, facts[..i], owned).overridden, id);
        overridden := overridden + {id};
      }
    }
    assert facts[..|facts|] == facts;
  }

  /** Keeps one component's witnesses of the facts it owns. */
  method KeepWitnesses(rowKey: Row -> string, ranks: FactRanks, witnesses: seq<Witness>,
                       overridden: set<nat>, ghost keys: set<string>) returns (keyed: seq<KeyedWitness>)
    requires ranks.Valid() && !ranks.finished && Stand(ranks.pool, overridden, keys)
    modifies ranks
    ensures ranks.Valid() && !ranks.finished && old(ranks.pool) <= ranks.pool
    ensures WitnessesKeyed(rowKey, ranks.pool, keyed)
    ensures EdgesOf(keyed) == Surviving(rowKey, witnesses, keys)
  {
    hide Stand, Surviving, WitnessesKeyed;
    keyed := [];
    NoneSurviving(rowKey, keys, ranks.pool);
    for i := 0 to |witnesses|
      invariant ranks.Valid() && !ranks.finished && old(ranks.pool) <= ranks.pool
      invariant Stand(ranks.pool, overridden, keys) && WitnessesKeyed(rowKey, ranks.pool, keyed)
      invariant EdgesOf(keyed) == Surviving(rowKey, witnesses[..i], keys)
    {
      var edge := witnesses[i];
      assert witnesses[..i + 1][..i] == witnesses[..i];
      ghost var pool := ranks.pool;
      SurvivingStep(rowKey, witnesses[..i + 1], keys);
      var result := ranks.Intern(rowKey(edge.result));
      StandGrows(pool, ranks.pool, overridden, keys);
      StandsFor(ranks.pool, overridden, keys, result);
      if result !in overridden {
        var next := KeyWitness(rowKey, ranks, result, edge);
        WitnessesStayKeyed(rowKey, pool, ranks.pool, keyed);
        KeyAnotherWitness(rowKey, ranks.pool, keyed, next);
        keyed := keyed + [next];
      }
      WitnessesStayKeyed(rowKey, if result in overridden then pool else ranks.pool, ranks.pool, keyed);
      StandGrows(pool, ranks.pool, overridden, keys);
    }
    assert witnesses[..|witnesses|] == witnesses;
  }

  lemma GatherStep(rowKey: Row -> string, components: seq<Completion>)
    requires components != []
    ensures var last := components[|components| - 1];
            var before := Gather(rowKey, components[..|components| - 1]);
            var claimed := Claim(rowKey, last.facts, before.owned);
            Gather(rowKey, components) ==
            Gathered(claimed.owned, before.facts + claimed.kept,
                     before.witnesses + Surviving(rowKey, last.witnesses, claimed.overridden),
                     before.diagnostics + last.diagnostics)
  {}

  lemma KeyedJoin(rowKey: Row -> string, pool: seq<string>, a: seq<KeyedFact>, b: seq<KeyedFact>)
    requires FactsKeyed(rowKey, pool, a) && FactsKeyed(rowKey, pool, b)
    ensures FactsKeyed(rowKey, pool, a + b) && FactsOf(a + b) == FactsOf(a) + FactsOf(b)
  {}

  lemma KeyedWitnessesJoin(rowKey: Row -> string, pool: seq<string>, a: seq<KeyedWitness>, b: seq<KeyedWitness>)
    requires WitnessesKeyed(rowKey, pool, a) && WitnessesKeyed(rowKey, pool, b)
    ensures WitnessesKeyed(rowKey, pool, a + b) && EdgesOf(a + b) == EdgesOf(a) + EdgesOf(b)
  {}

  /** The ownership pass over all components, in the order given. */
  method GatherAll(rowKey: Row -> string, ranks: FactRanks, components: seq<Completion>)
    returns (facts: seq<KeyedFact>, witnesses: seq<KeyedWitness>, diagnostics: seq<string>)
    requires ranks.Valid() && !ranks.finished
    modifies ranks
    ensures ranks.Valid() && !ranks.finished
    ensures FactsKeyed(rowKey, ranks.pool, facts) && WitnessesKeyed(rowKey, ranks.pool, witnesses)
    ensures var gathered := Gather(rowKey, components);
            && FactsOf(facts) == gathered.facts && EdgesOf(witnesses) == gathered.witnesses
            && diagnostics == gathered.diagnostics
  {
    hide Claim, Surviving, FactsKeyed, WitnessesKeyed, Stand, Gather;
    facts, witnesses, diagnostics := [], [], [];
    var owned: set<StableId> := {};
    NothingGathered(rowKey, ranks.pool);
    for i := 0 to |components|
      invariant ranks.Valid() && !ranks.finished
      invariant FactsKeyed(rowKey, ranks.pool, facts) && WitnessesKeyed(rowKey, ranks.pool, witnesses)
      invariant Gather(rowKey, components[..i]) == Gathered(owned, FactsOf(facts), EdgesOf(witnesses), diagnostics)
    {
      var component := components[i];
      assert components[..i + 1][..i] == components[..i];
      GatherStep(rowKey, components[..i + 1]);
      ghost var pool := ranks.pool;
      ghost var overriddenKeys := Claim(rowKey, component.facts, owned).overridden;
      var kept, overridden, owners := ClaimFacts(rowKey, ranks, component.facts, owned);
      ghost var claimedPool := ranks.pool;
      var survivors := KeepWitnesses(rowKey, ranks, component.witnesses, overridden, overriddenKeys);
      FactsStayKeyed(rowKey, pool, ranks.pool, facts);
      FactsStayKeyed(rowKey, claimedPool, ranks.pool, kept);
      WitnessesStayKeyed(rowKey, pool, ranks.pool, witnesses);
      KeyedJoin(rowKey, ranks.pool, facts, kept);
      KeyedWitnessesJoin(rowKey, ranks.pool, witnesses, survivors);
      owned, facts, witnesses := owners, facts + kept, witnesses + survivors;
      diagnostics := diagnostics + component.diagnostics;
    }
    assert components[..|components|] == components;
  }

  lemma NothingGathered(rowKey: Row -> string, pool: seq<string>)
    ensures Gather(rowKey, []) == Gathered({}, [], [], [])
    ensures FactsKeyed(rowKey, pool, []) && WitnessesKeyed(rowKey, pool, [])
    ensures FactsOf([]) == [] && EdgesOf([]) == []
  {}

  function Project<A, B>(s: seq<A>, f: A -> B): (r: seq<B>)
    ensures |r| == |s| && forall i :: 0 <= i < |s| ==> r[i] == f(s[i])
  {
    seq(|s|, i requires 0 <= i < |s| => f(s[i]))
  }

  lemma ProjectCons<A, B>(x: A, s: seq<A>, f: A -> B)
    ensures Project([x] + s, f) == [f(x)] + Project(s, f)
  {}

  lemma ProjectSplit<A, B>(s: seq<A>, f: A -> B)
    requires s != []
    ensures s == [s[0]] + s[1..] && Project(s, f) == [f(s[0])] + Project(s[1..], f)
    ensures Project(s, f)[0] == f(s[0]) && Project(s, f)[1..] == Project(s[1..], f)
  {}

  lemma {:induction false} InsertProjects<A, B>(x: A, s: seq<A>, f: A -> B,
                                                leqA: (A, A) -> bool, leqB: (B, B) -> bool)
    requires forall y | y in s :: leqA(x, y) == leqB(f(x), f(y))
    ensures Project(Insert(x, s, leqA), f) == Insert(f(x), Project(s, f), leqB)
    decreases |s|
  {
    hide Project;
    ProjectCons(x, s, f);
    if s != [] {
      assert s[0] in s;
      ProjectSplit(s, f);
      InsertProjects(x, s[1..], f, leqA, leqB);
      ProjectCons(s[0], Insert(x, s[1..], leqA), f);
    }
  }

  /** Sorting commutes with a projection that the comparison sees through. */
  lemma {:induction false} SortProjects<A, B>(s: seq<A>, f: A -> B, leqA: (A, A) -> bool, leqB: (B, B) -> bool)
    requires forall x, y | x in s && y in s :: leqA(x, y) == leqB(f(x), f(y))
    ensures Project(Sort(s, leqA), f) == Sort(Project(s, f), leqB)
    decreases |s|
  {
    hide Project, Insert;
    if s != [] {
      SortProjects(s[1..], f, leqA, leqB);
      var tail := Sort(s[1..], leqA);
      SameElements(tail, s[1..]);
      assert s[0] in s;
      forall y | y in tail ensures leqA(s[0], y) == leqB(f(s[0]), f(y)) {
        assert y in multiset(tail) && y in s[1..] && y in s;
      }
      InsertProjects(s[0], tail, f, leqA, leqB);
      ProjectSplit(s, f);
    }
  }

  /** Facts compare by rank once the pool is ranked. */
  function ByFactRank(ranks: seq<nat>): (KeyedFact, KeyedFact) -> bool {
    (a: KeyedFact, b: KeyedFact) =>
      if a.rank < |ranks| && b.rank < |ranks| then ranks[a.rank] <= ranks[b.rank] else false
  }

  function ByWitnessRank(ranks: seq<nat>): (KeyedWitness, KeyedWitness) -> bool {
    (a: KeyedWitness, b: KeyedWitness) =>
      if a.result < |ranks| && a.rule < |ranks| && a.input < |ranks|
         && b.result < |ranks| && b.rule < |ranks| && b.input < |ranks| then
        if ranks[a.result] != ranks[b.result] then ranks[a.result] <= ranks[b.result]
        else if ranks[a.rule] != ranks[b.rule] then ranks[a.rule] <= ranks[b.rule]
        else if ranks[a.input] != ranks[b.input] then ranks[a.input] <= ranks[b.input]
        else a.ordinal <= b.ordinal
      else false
  }

  /** Ordering facts by rank is ordering them by encoded key. */
  lemma FactsRankAsKeys(rowKey: Row -> string, pool: seq<string>, ranks: seq<nat>, keyed: seq<KeyedFact>)
    requires FactsKeyed(rowKey, pool, keyed) && Ranked(pool, ranks)
    ensures FactsOf(Sort(keyed, ByFactRank(ranks))) == Sort(FactsOf(keyed), ByRow(rowKey))
  {
    hide LexLeq, Sort;
    var fact := (k: KeyedFact) => k.fact;
    SortProjects(keyed, fact, ByFactRank(ranks), ByRow(rowKey));
    assert Project(keyed, fact) == FactsOf(keyed);
    assert Project(Sort(keyed, ByFactRank(ranks)), fact) == FactsOf(Sort(keyed, ByFactRank(ranks)));
  }

  lemma WitnessPairRanksAsKeys(rowKey: Row -> string, pool: seq<string>, ranks: seq<nat>,
                               keyed: seq<KeyedWitness>, x: KeyedWitness, y: KeyedWitness)
    requires WitnessesKeyed(rowKey, pool, keyed) && Ranked(pool, ranks) && x in keyed && y in keyed
    ensures ByWitnessRank(ranks)(x, y) == ByWitness(rowKey)(x.edge, y.edge)
  {
    hide LexLeq;
    RanksSeparate(pool, ranks, x.result, y.result);
    RanksSeparate(pool, ranks, x.rule, y.rule);
    RanksSeparate(pool, ranks, x.input, y.input);
  }

  lemma WitnessesRankAsKeys(rowKey: Row -> string, pool: seq<string>, ranks: seq<nat>, keyed: seq<KeyedWitness>)
    requires WitnessesKeyed(rowKey, pool, keyed) && Ranked(pool, ranks)
    ensures EdgesOf(Sort(keyed, ByWitnessRank(ranks))) == Sort(EdgesOf(keyed), ByWitness(rowKey))
  {
    hide LexLeq, Sort, WitnessesKeyed, Ranked, ByWitnessRank, ByWitness;
    var edge := (k: KeyedWitness) => k.edge;
    forall x, y | x in keyed && y in keyed
      ensures ByWitnessRank(ranks)(x, y) == ByWitness(rowKey)(edge(x), edge(y))
    {
      WitnessPairRanksAsKeys(rowKey, pool, ranks, keyed, x, y);
    }
    SortProjects(keyed, edge, ByWitnessRank(ranks), ByWitness(rowKey));
    assert Project(keyed, edge) == EdgesOf(keyed);
    assert Project(Sort(keyed, ByWitnessRank(ranks)), edge) == EdgesOf(Sort(keyed, ByWitnessRank(ranks)));
  }

  /** Gathers, ranks, and sorts by rank; the batch is the one sorting by the keys themselves gives. */
  method Assemble(context: Context, canon: Canon, result: RunResult) returns (batch: Batch)
    ensures batch == Assembled(context, canon, result)
  {
    hide Sort, Gather, Unique, FactsKeyed, WitnessesKeyed, Ranked, ByRow, ByWitness, ByFactRank, ByWitnessRank;
    var completed := Sort(result.completed, ByComponent(canon.keyLeq));
    var pool := new FactRanks();
    var facts, witnesses, diagnostics := GatherAll(canon.rowKey, pool, completed);
    pool.Finish();
    var ranks := pool.ranks;
    FactsRankAsKeys(canon.rowKey, pool.pool, ranks, facts);
    WitnessesRankAsKeys(canon.rowKey, pool.pool, ranks, witnesses);
    var sortedFacts := Sort(facts, ByFactRank(ranks));
    var sortedWitnesses := Sort(witnesses, ByWitnessRank(ranks));
    batch := Batch(
      StableId(FactId, ""), result.run, Sort(result.expected, canon.keyLeq), Stripped(completed),
      Sort(result.roots, canon.idLeq),
      Unique(FactsOf(sortedFacts), SameId),
      Unique(EdgesOf(sortedWitnesses), SameEdge),
      Sort(diagnostics, LexLeq));
    batch := batch.(id := context.BatchId(batch));
  }
}
