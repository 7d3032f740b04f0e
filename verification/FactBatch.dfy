/** The published batch: what makes it acceptable, and the finite proofs an accepted one holds. */
module FactBatch {
  import opened Basics
  import opened FactIdentity
  import opened Graphs

  datatype Fact = Fact(id: StableId, row: Row)

  /** One premise of one rule application: `result` follows from `input` and its siblings. */
  datatype Witness = Witness(result: Row, rule: string, derivation: string, input: Row, ordinal: nat)

  datatype ComponentKey = ComponentKey(scc: StableId, component: nat)

  datatype Completion = Completion(key: ComponentKey, resultKey: string,
                                   facts: seq<Fact>, witnesses: seq<Witness>, diagnostics: seq<string>)

  datatype Batch = Batch(id: StableId, run: string, expected: seq<ComponentKey>, completed: seq<Completion>,
                         roots: seq<StableId>, facts: seq<Fact>, witnesses: seq<Witness>,
                         diagnostics: seq<string>)

  /** The relation registry, the content hash, and the content address of a batch. */
  datatype Context = Context(registry: seq<Schema>, hash: string -> StableId, batchId: Batch -> StableId)
  {
    function Identify(row: Row): Identity {
      IdentityOf(registry, hash, row)
    }

    /** The content address: everything but the id itself. */
    function BatchId(batch: Batch): StableId {
      batchId(batch.(id := StableId(FactId, "")))
    }
  }

  function Keys(completed: seq<Completion>): (keys: seq<ComponentKey>)
    ensures |keys| == |completed| && forall i :: 0 <= i < |keys| ==> keys[i] == completed[i].key
  {
    seq(|completed|, i requires 0 <= i < |completed| => completed[i].key)
  }

  function Ids(facts: seq<Fact>): (ids: seq<StableId>)
    ensures |ids| == |facts| && forall i :: 0 <= i < |ids| ==> ids[i] == facts[i].id
  {
    seq(|facts|, i requires 0 <= i < |facts| => facts[i].id)
  }

  /** Exactly the expected components completed, each once. */
  ghost predicate ComponentsMatch(batch: Batch) {
    && NoRepeat(batch.expected) && NoRepeat(Keys(batch.completed))
    && forall key :: key in batch.expected <==> key in Keys(batch.completed)
  }

  /** Every fact carries the identity of its row, and no two carry the same. */
  predicate FactsIdentified(context: Context, batch: Batch) {
    && (forall f <- batch.facts :: context.Identify(f.row) == Identified(f.id))
    && NoRepeat(Ids(batch.facts))
  }

  predicate Published(batch: Batch, row: Row) {
    exists f <- batch.facts :: f.row == row
  }

  predicate Rooted(context: Context, batch: Batch, row: Row) {
    exists root <- batch.roots :: context.Identify(row) == Identified(root)
  }

  predicate WitnessesIdentified(context: Context, batch: Batch) {
    forall w <- batch.witnesses :: context.Identify(w.result).Identified? && context.Identify(w.input).Identified?
  }

  predicate Witnessed(batch: Batch, row: Row) {
    exists w <- batch.witnesses :: w.result == row
  }

  /** Every fact has a witness, every witness is of a fact, and every input is a fact or a root. */
  predicate ClosedUnderWitness(context: Context, batch: Batch) {
    && (forall f <- batch.facts :: Witnessed(batch, f.row))
    && (forall w <- batch.witnesses :: Published(batch, w.input) || Rooted(context, batch, w.input))
    && (forall w <- batch.witnesses :: Published(batch, w.result))
  }

  /** One edge from input to result for every witness. */
  function RowEdges(witnesses: seq<Witness>): (edges: seq<Edge<Row>>)
    ensures |edges| == |witnesses|
    ensures forall k :: 0 <= k < |edges| ==> edges[k] == Edge(witnesses[k].input, witnesses[k].result)
  {
    seq(|witnesses|, k requires 0 <= k < |witnesses| => Edge(witnesses[k].input, witnesses[k].result))
  }

  /** What every sink may rely on. */
  ghost predicate ValidBatch(context: Context, batch: Batch) {
    && batch.id == context.BatchId(batch)
    && ComponentsMatch(batch)
    && FactsIdentified(context, batch)
    && WitnessesIdentified(context, batch)
    && ClosedUnderWitness(context, batch)
    && !Cyclic(RowEdges(batch.witnesses))
  }

  // ----- Every published fact has a finite proof -----

  datatype Proof = Given(row: Row) | Derived(row: Row, premises: seq<Proof>)

  /** The inputs recorded for one result. */
  function Inputs(witnesses: seq<Witness>, result: Row): seq<Row> {
    if witnesses == [] then []
    else (if witnesses[0].result == result then [witnesses[0].input] else []) + Inputs(witnesses[1..], result)
  }

  /** Leaves are declared roots; every other node is a fact resting on all the inputs recorded for it. */
  predicate Proves(context: Context, batch: Batch, proof: Proof)
    decreases proof
  {
    match proof
    case Given(row) => Rooted(context, batch, row)
    case Derived(row, premises) =>
      && Published(batch, row)
      && |premises| == |Inputs(batch.witnesses, row)| > 0
      && (forall k :: 0 <= k < |premises| ==> premises[k].row == Inputs(batch.witnesses, row)[k])
      && (forall premise <- premises :: Proves(context, batch, premise))
  }

  ghost predicate Provable(context: Context, batch: Batch, row: Row) {
    exists proof: Proof :: proof.row == row && Proves(context, batch, proof)
  }

  lemma {:induction false} InputsAreWitnessed(witnesses: seq<Witness>, result: Row, input: Row)
    ensures input in Inputs(witnesses, result) <==> Edge(input, result) in RowEdges(witnesses)
  {
    if witnesses == [] {
      assert RowEdges(witnesses) == [];
    } else {
      InputsAreWitnessed(witnesses[1..], result, input);
      assert RowEdges(witnesses) == [Edge(witnesses[0].input, witnesses[0].result)] + RowEdges(witnesses[1..]);
    }
  }

  lemma {:induction false} CollectPremises(context: Context, batch: Batch, inputs: seq<Row>)
    returns (premises: seq<Proof>)
    requires forall input <- inputs :: Provable(context, batch, input)
    ensures |premises| == |inputs|
    ensures forall k :: 0 <= k < |premises| ==> premises[k].row == inputs[k] && Proves(context, batch, premises[k])
  {
    hide Proves;
    if inputs == [] {
      return [];
    }
    assert Provable(context, batch, inputs[0]);
    var first: Proof :| first.row == inputs[0] && Proves(context, batch, first);
    var rest := CollectPremises(context, batch, inputs[1..]);
    premises := [first] + rest;
  }

  lemma AllInputsProvable(context: Context, batch: Batch, row: Row)
    requires Published(batch, row) && Inputs(batch.witnesses, row) != []
    requires forall input <- Inputs(batch.witnesses, row) :: Provable(context, batch, input)
    ensures Provable(context, batch, row)
  {
    hide Provable, Published, Inputs;
    var premises := CollectPremises(context, batch, Inputs(batch.witnesses, row));
    var proof := Derived(row, premises);
    assert Proves(context, batch, proof);
    ProofSuffices(context, batch, proof);
  }

  lemma ProofSuffices(context: Context, batch: Batch, proof: Proof)
    requires Proves(context, batch, proof)
    ensures Provable(context, batch, proof.row)
  {
    hide Proves;
  }

  /** A fact without a proof rests on another fact without one. */
  lemma UnprovableRestsOnUnprovable(context: Context, batch: Batch, row: Row) returns (input: Row)
    requires ClosedUnderWitness(context, batch) && Published(batch, row) && !Provable(context, batch, row)
    ensures Published(batch, input) && !Provable(context, batch, input)
    ensures Edge(input, row) in RowEdges(batch.witnesses)
  {
    hide Inputs, Provable, Rooted;
    var f :| f in batch.facts && f.row == row;
    var i :| 0 <= i < |batch.witnesses| && batch.witnesses[i].result == row;
    assert RowEdges(batch.witnesses)[i] == Edge(batch.witnesses[i].input, row);
    InputsAreWitnessed(batch.witnesses, row, batch.witnesses[i].input);
    if forall input <- Inputs(batch.witnesses, row) :: Provable(context, batch, input) {
      AllInputsProvable(context, batch, row);
    }
    input :| input in Inputs(batch.witnesses, row) && !Provable(context, batch, input);
    InputsAreWitnessed(batch.witnesses, row, input);
    var k :| 0 <= k < |batch.witnesses| && RowEdges(batch.witnesses)[k] == Edge(input, row);
    assert batch.witnesses[k].input == input && batch.witnesses[k] in batch.witnesses;
    if Rooted(context, batch, input) {
      RootProves(context, batch, input);
    }
  }

  lemma RootProves(context: Context, batch: Batch, row: Row)
    requires Rooted(context, batch, row)
    ensures Provable(context, batch, row)
  {
    assert Proves(context, batch, Given(row));
  }

  /** In an accepted batch every fact has a finite proof whose leaves are declared roots. */
  lemma EveryFactProved(context: Context, batch: Batch)
    requires ValidBatch(context, batch)
    ensures forall f <- batch.facts :: Provable(context, batch, f.row)
  {
    hide Provable, ClosedUnderWitness, FactsIdentified, WitnessesIdentified, ComponentsMatch, Cyclic;
    var unproved := set f | f in batch.facts && !Provable(context, batch, f.row) :: f.row;
    if unproved != {} {
      forall row <- unproved ensures Preceded(RowEdges(batch.witnesses), unproved, row) {
        var input := UnprovableRestsOnUnprovable(context, batch, row);
        assert input in unproved;
        var e := Edge(input, row);
        assert e in RowEdges(batch.witnesses) && e.to == row && e.from in unproved;
      }
      Trapped(RowEdges(batch.witnesses), unproved);
    }
    assert forall f <- batch.facts :: Provable(context, batch, f.row) || f.row in unproved;
  }
}
