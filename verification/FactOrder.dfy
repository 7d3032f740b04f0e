/** The canonical order of an assembled batch, stated on the keys. */
module FactOrder {
  import opened Orders
  import opened FactIdentity
  import opened FactBatch
  import opened FactAssembly

  /** Result key first, then rule, then input key, then position. */
  predicate Precedes(rowKey: Row -> string, a: Witness, b: Witness) {
    || LexLess(rowKey(a.result), rowKey(b.result))
    || (rowKey(a.result) == rowKey(b.result)
        && (|| LexLess(a.rule, b.rule)
            || (a.rule == b.rule
                && (|| LexLess(rowKey(a.input), rowKey(b.input))
                    || (rowKey(a.input) == rowKey(b.input) && a.ordinal <= b.ordinal)))))
  }

  lemma RowsOrder(rowKey: Row -> string)
    ensures TotalPreorder(ByRow(rowKey))
  {
    var leq := ByRow(rowKey);
    forall a, b ensures leq(a, b) || leq(b, a) {
      LexTotal(rowKey(a.row), rowKey(b.row));
    }
    forall a, b, c | leq(a, b) && leq(b, c) ensures leq(a, c) {
      LexTransitive(rowKey(a.row), rowKey(b.row), rowKey(c.row));
    }
  }

  lemma WitnessesOrder(rowKey: Row -> string)
    ensures TotalPreorder(ByWitness(rowKey))
    ensures forall a, b :: ByWitness(rowKey)(a, b) <==> Precedes(rowKey, a, b)
  {
    var leq := ByWitness(rowKey);
    forall a, b ensures leq(a, b) || leq(b, a) {
      TotalOnWitnesses(rowKey, a, b);
    }
    forall a, b, c | leq(a, b) && leq(b, c) ensures leq(a, c) {
      TransitiveOnWitnesses(rowKey, a, b, c);
    }
  }

  lemma TotalOnWitnesses(rowKey: Row -> string, a: Witness, b: Witness)
    ensures ByWitness(rowKey)(a, b) || ByWitness(rowKey)(b, a)
  {
    hide LexLeq;
    LexTotal(rowKey(a.result), rowKey(b.result));
    LexTotal(a.rule, b.rule);
    LexTotal(rowKey(a.input), rowKey(b.input));
  }

  lemma TransitiveOnWitnesses(rowKey: Row -> string, a: Witness, b: Witness, c: Witness)
    requires ByWitness(rowKey)(a, b) && ByWitness(rowKey)(b, c)
    ensures ByWitness(rowKey)(a, c)
  {
    hide LexLeq;
    Chained(rowKey(a.result), rowKey(b.result), rowKey(c.result));
    Chained(a.rule, b.rule, c.rule);
    Chained(rowKey(a.input), rowKey(b.input), rowKey(c.input));
  }

  lemma Chained(a: string, b: string, c: string)
    ensures LexLeq(a, b) && LexLeq(b, c) ==> LexLeq(a, c)
    ensures LexLeq(a, b) && LexLeq(b, a) ==> a == b
    ensures LexLeq(b, c) && LexLeq(c, b) ==> b == c
  {
    if LexLeq(a, b) && LexLeq(b, c) {
      LexTransitive(a, b, c);
    }
    if LexLeq(a, b) && LexLeq(b, a) {
      LexAntisymmetric(a, b);
    }
    if LexLeq(b, c) && LexLeq(c, b) {
      LexAntisymmetric(b, c);
    }
  }

  lemma {:induction false} UniqueSorted<T>(s: seq<T>, same: (T, T) -> bool, leq: (T, T) -> bool)
    requires SortedBy(s, leq)
    ensures SortedBy(Unique(s, same), leq)
    decreases |s|
  {
    if |s| >= 2 {
      var rest, last := s[..|s| - 1], s[|s| - 1];
      UniqueSorted(rest, same, leq);
      forall x <- Unique(rest, same) ensures leq(x, last) {
        var i :| 0 <= i < |rest| && rest[i] == x;
        assert leq(s[i], s[|s| - 1]);
      }
    }
  }

  /** Everything an assembled batch lists, it lists in ascending order of key. */
  lemma AssembledAscends(context: Context, canon: Canon, result: RunResult)
    requires TotalOrder(canon.keyLeq) && TotalOrder(canon.idLeq)
    ensures var batch := Assembled(context, canon, result);
            && SortedBy(batch.expected, canon.keyLeq) && SortedBy(Keys(batch.completed), canon.keyLeq)
            && SortedBy(batch.roots, canon.idLeq) && SortedBy(batch.diagnostics, LexLeq)
            && (forall i, j | 0 <= i < j < |batch.facts| ::
                  LexLeq(canon.rowKey(batch.facts[i].row), canon.rowKey(batch.facts[j].row)))
            && (forall i, j | 0 <= i < j < |batch.witnesses| ::
                  Precedes(canon.rowKey, batch.witnesses[i], batch.witnesses[j]))
  {
    hide Sort, Gather, Unique, ByRow, ByWitness, Precedes, LexLeq;
    var rowKey := canon.rowKey;
    var completed := Sort(result.completed, ByComponent(canon.keyLeq));
    var gathered := Gather(rowKey, completed);
    SortSorted(result.expected, canon.keyLeq);
    SortSorted(result.roots, canon.idLeq);
    ByComponentOrders(canon.keyLeq);
    SortSorted(result.completed, ByComponent(canon.keyLeq));
    StringsOrder();
    SortSorted(gathered.diagnostics, LexLeq);
    RowsOrder(rowKey);
    SortSorted(gathered.facts, ByRow(rowKey));
    UniqueSorted(Sort(gathered.facts, ByRow(rowKey)), SameId, ByRow(rowKey));
    RowsMean(rowKey, Unique(Sort(gathered.facts, ByRow(rowKey)), SameId));
    WitnessesOrder(rowKey);
    SortSorted(gathered.witnesses, ByWitness(rowKey));
    UniqueSorted(Sort(gathered.witnesses, ByWitness(rowKey)), SameEdge, ByWitness(rowKey));
  }

  // ----- What it lists -----

  /** The diagnostics of all components, each as often as it is given. */
  function Diagnostics(components: seq<Completion>): multiset<string> {
    if components == [] then multiset{}
    else
      Diagnostics(components[..|components| - 1]) + multiset(components[|components| - 1].diagnostics)
  }

  lemma {:induction false} DiagnosticsSplit(components: seq<Completion>, k: nat)
    requires k < |components|
    ensures Diagnostics(components) == Diagnostics(Without(components, k)) + multiset(components[k].diagnostics)
    decreases |components|
  {
    hide Diagnostics, Without;
    var rest, last := components[..|components| - 1], components[|components| - 1];
    assert components == rest + [last];
    DiagnosticsNext(rest, last);
    WithoutFrom(rest, last, k);
    if k < |rest| {
      DiagnosticsSplit(rest, k);
      DiagnosticsNext(Without(rest, k), last);
    }
  }

  lemma WithoutFrom<T>(rest: seq<T>, last: T, k: nat)
    requires k <= |rest|
    ensures Without(rest + [last], k) == if k < |rest| then Without(rest, k) + [last] else rest
  {}

  lemma DiagnosticsNext(components: seq<Completion>, next: Completion)
    ensures Diagnostics(components + [next]) == Diagnostics(components) + multiset(next.diagnostics)
  {
    assert (components + [next])[..|components|] == components;
  }

  lemma {:induction false} DiagnosticsPermuted(a: seq<Completion>, b: seq<Completion>)
    requires multiset(a) == multiset(b)
    ensures Diagnostics(a) == Diagnostics(b)
    decreases |a|
  {
    SameElements(a, b);
    if a != [] {
      var rest, last := a[..|a| - 1], a[|a| - 1];
      assert a == rest + [last];
      assert last in a;
      var k :| 0 <= k < |b| && b[k] == last;
      MultisetWithout(b, k);
      DiagnosticsPermuted(rest, Without(b, k));
      DiagnosticsSplit(b, k);
    }
  }

  lemma {:induction false} GatheredDiagnostics(rowKey: Row -> string, components: seq<Completion>)
    ensures multiset(Gather(rowKey, components).diagnostics) == Diagnostics(components)
    decreases |components|
  {
    if components != [] {
      GatheredDiagnostics(rowKey, components[..|components| - 1]);
    }
  }

  /** What a component says of itself beside its facts. */
  function Heading(c: Completion): (ComponentKey, string) {
    (c.key, c.resultKey)
  }

  function Headings(components: seq<Completion>): seq<(ComponentKey, string)> {
    seq(|components|, i requires 0 <= i < |components| => Heading(components[i]))
  }

  /** Nothing a run says of itself is lost or added, and the id is that of the content. */
  lemma AssembledHolds(context: Context, canon: Canon, result: RunResult)
    ensures var batch := Assembled(context, canon, result);
            && batch.id == context.BatchId(batch) && batch.run == result.run
            && multiset(batch.expected) == multiset(result.expected)
            && multiset(batch.roots) == multiset(result.roots)
            && multiset(batch.diagnostics) == Diagnostics(result.completed)
            && multiset(Headings(batch.completed)) == multiset(Headings(result.completed))
            && forall c <- batch.completed :: c.facts == [] && c.witnesses == [] && c.diagnostics == []
  {
    hide Sort, Gather, Unique, ByRow, ByWitness, LexLeq, Diagnostics;
    var completed := Sort(result.completed, ByComponent(canon.keyLeq));
    DiagnosticsPermuted(completed, result.completed);
    GatheredDiagnostics(canon.rowKey, completed);
    assert Headings(Stripped(completed)) == Headings(completed);
    HeadingsPermuted(completed, result.completed);
  }

  lemma HeadingsPermuted(a: seq<Completion>, b: seq<Completion>)
    requires multiset(a) == multiset(b)
    ensures multiset(Headings(a)) == multiset(Headings(b))
  {
    var p := FindRearrangement(a, b);
    assert Rearranges(Headings(a), Headings(b), p);
    RearrangedMultiset(Headings(a), Headings(b), p);
  }

  lemma RowsMean(rowKey: Row -> string, facts: seq<Fact>)
    requires SortedBy(facts, ByRow(rowKey))
    ensures forall i, j | 0 <= i < j < |facts| :: LexLeq(rowKey(facts[i].row), rowKey(facts[j].row))
  {}

  lemma StringsOrder()
    ensures TotalPreorder(LexLeq)
  {
    forall a: string, b: string ensures LexLeq(a, b) || LexLeq(b, a) {
      LexTotal(a, b);
    }
    forall a: string, b: string, c: string | LexLeq(a, b) && LexLeq(b, c) ensures LexLeq(a, c) {
      LexTransitive(a, b, c);
    }
  }
}
