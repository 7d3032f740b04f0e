/** From the alias query to the facts of a case: what is asked for about the subject is stated about the subject. */
module AliasQuery {
  import opened Basics
  import opened FactIdentity
  import opened FactLookup
  import opened FactSelection
  import opened Expressions
  import opened CaseProjection
  import opened AliasConditions

  function ByCell(relation: nat, column: nat, ref: StableId): Selector {
    Selector(relation, [Equality(column, IdDomain(ref.kind), IdCell(ref))])
  }

  /** A memory is looked for on either side of the alias relation; nothing else is looked for at all. */
  function AliasSelectors(relation: nat, ref: StableId): seq<Selector> {
    if ref.kind != MemoryRefId then [] else [ByCell(relation, 0, ref), ByCell(relation, 1, ref)]
  }

  /** The state an epistemic cell carries; a value outside the table is the weakest state. */
  function EpistemicOf(ordinal: octet): Epistemic {
    match ordinal
    case 0 => Must
    case 1 => May
    case 2 => MustNot
    case 3 => Inferred
    case 4 => Assumed
    case _ => Undetermined
  }

  /** The handle a case declares for a cell, if the cell is an id and the case has one for it. */
  function Resolved(resolve: StableId -> Option<string>, cell: Cell): Option<string> {
    if cell.IdCell? then resolve(cell.id) else None
  }

  /** A row as the formula and state of a fact, refused when its shape or one of its references is not known. */
  function MapAlias(registry: seq<Schema>, resolve: StableId -> Option<string>, row: Row)
    : Option<(Expression, Epistemic)>
  {
    if !ValidRow(registry, row) || |row.cells| < 2 || !row.cells[|row.cells| - 1].EpistemicCell? then None
    else
      var left :- Resolved(resolve, row.cells[0]);
      var right :- Resolved(resolve, row.cells[1]);
      Some((AliasCall(left, right), EpistemicOf(row.cells[|row.cells| - 1].ordinal)))
  }

  /** What is asked for about a memory: the run's current alias rows with the memory on either side. */
  lemma AskedExactly(store: FactStore, run: string, relation: nat, ref: StableId, id: string)
    ensures AnyAsks(store, run, AliasSelectors(relation, ref), id)
            <==> && ref.kind == MemoryRefId && id in Current(store.bindings, run) && id in store.facts
                 && store.facts[id].row.relation == relation
                 && ((|store.facts[id].row.cells| > 0 && store.facts[id].row.cells[0] == IdCell(ref))
                     || (|store.facts[id].row.cells| > 1 && store.facts[id].row.cells[1] == IdCell(ref)))
  {
    if ref.kind == MemoryRefId {
      var left, right := ByCell(relation, 0, ref), ByCell(relation, 1, ref);
      assert AliasSelectors(relation, ref) == [left, right];
      assert left.equalities == [Equality(0, IdDomain(ref.kind), IdCell(ref))];
      assert right.equalities == [Equality(1, IdDomain(ref.kind), IdCell(ref))];
      assert id in store.Wanted(run, left) <==> Selected(store.facts, store.bindings, run, left, id);
      assert id in store.Wanted(run, right) <==> Selected(store.facts, store.bindings, run, right, id);
    }
  }

  /** A stated alias is certain exactly if its row says so; no other state of a row is stated as must. */
  lemma CertainExactly(registry: seq<Schema>, resolve: StableId -> Option<string>, found: Found, provenance: string,
                       f: Statement)
    requires States(registry, resolve, found, provenance, f)
    ensures |found.row.cells| > 1 && found.row.cells[|found.row.cells| - 1].EpistemicCell?
    ensures var ordinal := found.row.cells[|found.row.cells| - 1].ordinal;
            && (Uncertain(f) <==> ordinal != 0)
            && f.epistemic == if ordinal < 5 then [Must, May, MustNot, Inferred, Assumed][ordinal] else Undetermined
  {
    hide ValidRow;
  }

  /** An alias row asked for about a memory is stated as a fact that mentions the memory's handle. */
  lemma SelectedNamesSubject(store: FactStore, run: string, relation: nat, subject: StableId,
                             resolve: StableId -> Option<string>, id: string)
    requires AnyAsks(store, run, AliasSelectors(relation, subject), id) && id in store.facts
    ensures resolve(subject).Some? && MapAlias(store.codec.registry, resolve, store.facts[id].row).Some? ==>
              var formula := MapAlias(store.codec.registry, resolve, store.facts[id].row).value.0;
              IsAlias(formula) && Mentions(formula, resolve(subject).value)
  {
    hide Mentions, ValidRow;
    var selector :| selector in AliasSelectors(relation, subject) && id in store.Wanted(run, selector);
    var row, equality := store.facts[id].row, selector.equalities[0];
    assert equality in selector.equalities && row.cells[equality.column] == IdCell(subject);
    var mapped := MapAlias(store.codec.registry, resolve, row);
    if mapped.Some? {
      AliasCallNames(mapped.value.0.operands[0].text, mapped.value.0.operands[1].text);
    }
  }

  /** A returned row as a fact of the case. */
  predicate States(registry: seq<Schema>, resolve: StableId -> Option<string>, found: Found, provenance: string,
                   f: Statement) {
    MapAlias(registry, resolve, found.row) == Some((f.formula, f.epistemic)) && f.provenance == provenance
  }

  /**
   * The alias facts of a case: what the query about the claim's subject returns, in order and each under a handle
   * of its own. Whatever the query was cut short by, each of them mentions the subject, so the projection keeps it.
   */
  method StateAliases(store: FactStore, run: string, snapshot: string, relation: nat, subject: StableId,
                      maxFacts: nat, resolve: StableId -> Option<string>, frame: Frame, ids: IdAllocator,
                      provenance: string)
    returns (refusal: Option<Refusal>, outcome: Outcome, facts: Option<seq<Statement>>)
    requires store.Valid() && store.Exact(run) && resolve(subject) == Some(frame.subject)
    modifies ids
    ensures refusal.None? && outcome.complete ==>
              forall id :: Holds(outcome.facts, id) <==> AnyAsks(store, run, AliasSelectors(relation, subject), id)
    ensures facts.Some? <==>
            refusal.None? && forall found <- outcome.facts :: MapAlias(store.codec.registry, resolve, found.row).Some?
    ensures facts.Some? ==>
              && |facts.value| == |outcome.facts| && NoRepeat(CaseProjection.IdsOf(facts.value, FACT_ID))
              && (forall i | 0 <= i < |outcome.facts| ::
                    States(store.codec.registry, resolve, outcome.facts[i], provenance, facts.value[i]))
              && (forall f <- facts.value ::
                    IsAlias(f.formula) && Mentions(f.formula, frame.subject) && "F_alias" <= f.id)
  {
    hide SoundFacts, IndexExact, AnyAsks, Mentions, IsAlias, MapAlias;
    refusal, outcome := RunFactQuery(store, run, snapshot, AliasSelectors(relation, subject), maxFacts);
    facts := None;
    if refusal.Some? {
      return;
    }
    var stated: seq<Statement> := [];
    for i := 0 to |outcome.facts|
      invariant |stated| == i && NoRepeat(CaseProjection.IdsOf(stated, FACT_ID))
      invariant forall k | 0 <= k < i ::
                  States(store.codec.registry, resolve, outcome.facts[k], provenance, stated[k])
      invariant forall f <- stated :: IsAlias(f.formula) && Mentions(f.formula, frame.subject) && f.id in ids.used
      invariant forall f <- stated :: "F_alias" <= f.id
    {
      var found := outcome.facts[i];
      assert found in outcome.facts;
      var mapped := MapAlias(store.codec.registry, resolve, found.row);
      if mapped.None? {
        return;
      }
      SelectedNamesSubject(store, run, relation, subject, resolve, found.id);
      var id := ids.Allocate("F_alias");
      StartsWith("F_alias", id);
      stated := stated + [Statement(id, mapped.value.0, mapped.value.1, provenance)];
    }
    facts := Some(stated);
  }
}
