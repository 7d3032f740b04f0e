/** The fact bus: validation of a batch, and its delivery to every sink. */
module FactBus {
  import opened Basics
  import opened FactIdentity
  import opened FactBatch
  import opened Graphs
  import opened WitnessDag

  // ----- Validation -----

  datatype Refusal =
    | BatchIdMismatch | DuplicateExpected | DuplicateCompleted | ComponentsDiffer
    | RowRejected(reason: Rejection) | FactIdMismatch | DuplicateFactId
    | FactWithoutWitness | LeafOutsideRoots | ResultNotPublished | WitnessCycle

  /** Every row of the batch is one the identity encoding can take. */
  predicate SizedBatch(batch: Batch) {
    && (forall f <- batch.facts :: SizedRow(f.row))
    && (forall w <- batch.witnesses :: SizedRow(w.result) && SizedRow(w.input))
  }

  /** The refusal names a fault the batch has, and what is checked before it holds. */
  ghost predicate Warranted(context: Context, batch: Batch, refusal: Refusal) {
    match refusal
    case BatchIdMismatch => batch.id != context.BatchId(batch)
    case DuplicateExpected => !NoRepeat(batch.expected)
    case DuplicateCompleted => NoRepeat(batch.expected) && !NoRepeat(Keys(batch.completed))
    case ComponentsDiffer =>
      && NoRepeat(batch.expected) && NoRepeat(Keys(batch.completed))
      && exists key :: (key in batch.expected) != (key in Keys(batch.completed))
    case RowRejected(reason) =>
      || (exists f <- batch.facts :: context.Identify(f.row) == Rejected(reason))
      || (exists w <- batch.witnesses :: WitnessRejected(context, w, reason))
    case FactIdMismatch =>
      exists f <- batch.facts :: context.Identify(f.row).Identified? && context.Identify(f.row).id != f.id
    case DuplicateFactId => !NoRepeat(Ids(batch.facts))
    case FactWithoutWitness => exists f <- batch.facts :: !Witnessed(batch, f.row)
    case LeafOutsideRoots =>
      && (forall f <- batch.facts :: Witnessed(batch, f.row))
      && exists w <- batch.witnesses :: !Published(batch, w.input) && !Rooted(context, batch, w.input)
    case ResultNotPublished =>
      && (forall f <- batch.facts :: Witnessed(batch, f.row))
      && (forall w <- batch.witnesses :: Published(batch, w.input) || Rooted(context, batch, w.input))
      && exists w <- batch.witnesses :: !Published(batch, w.result)
    case WitnessCycle => ClosedUnderWitness(context, batch) && Cyclic(RowEdges(batch.witnesses))
  }

  /** Its result is looked at before its input. */
  predicate WitnessRejected(context: Context, w: Witness, reason: Rejection) {
    || context.Identify(w.result) == Rejected(reason)
    || (context.Identify(w.result).Identified? && context.Identify(w.input) == Rejected(reason))
  }

  /** The passes run in order: a refusal of one means that those before it had nothing to refuse. */
  ghost predicate InOrder(context: Context, batch: Batch, refusal: Refusal) {
    && (refusal.BatchIdMismatch? || batch.id == context.BatchId(batch))
    && (refusal.FactIdMismatch? || refusal.DuplicateFactId? || refusal.RowRejected? ==> ComponentsMatch(batch))
    && (refusal.FactWithoutWitness? || refusal.LeafOutsideRoots? || refusal.ResultNotPublished? ||
        refusal.WitnessCycle? ==>
          ComponentsMatch(batch) && FactsIdentified(context, batch) && WitnessesIdentified(context, batch))
  }

  method SetOf<T(==)>(s: seq<T>) returns (members: set<T>, repeats: bool)
    ensures members == set x | x in s
    ensures repeats <==> !NoRepeat(s)
  {
    members, repeats := {}, false;
    for i := 0 to |s|
      invariant members == set x | x in s[..i]
      invariant repeats <==> !NoRepeat(s[..i])
    {
      if s[i] in members {
        repeats := true;
        var k :| 0 <= k < i && s[..i][k] == s[i];
        assert s[..i + 1][k] == s[..i + 1][i];
      } else if !NoRepeat(s[..i]) {
        var j, k :| 0 <= j < k < i && s[..i][j] == s[..i][k];
        assert s[..i + 1][j] == s[..i + 1][k];
      }
      members := members + {s[i]};
      assert s[..i + 1] == s[..i] + [s[i]];
    }
    assert s[..|s|] == s;
  }

  method CheckComponents(context: Context, batch: Batch) returns (refusal: Option<Refusal>)
    ensures refusal.None? <==> ComponentsMatch(batch)
    ensures refusal.Some? ==> Warranted(context, batch, refusal.value)
    ensures refusal.Some? ==> refusal.value in {DuplicateExpected, DuplicateCompleted, ComponentsDiffer}
  {
    hide NoRepeat;
    var expected, repeated := SetOf(batch.expected);
    if repeated {
      return Some(DuplicateExpected);
    }
    var completed, again := SetOf(Keys(batch.completed));
    if again {
      return Some(DuplicateCompleted);
    }
    if expected != completed {
      var key :| (key in expected) != (key in completed);
      assert (key in batch.expected) != (key in Keys(batch.completed));
      return Some(ComponentsDiffer);
    }
    forall key ensures key in batch.expected <==> key in Keys(batch.completed) {
      assert key in expected <==> key in completed;
    }
    return None;
  }

  /** `index` finds every fact by its id. */
  predicate Indexes(index: map<StableId, nat>, facts: seq<Fact>) {
    && (forall id <- index :: index[id] < |facts| && facts[index[id]].id == id)
    && (forall i | 0 <= i < |facts| :: facts[i].id in index && index[facts[i].id] == i)
  }

  method IndexFacts(context: Context, memo: FactIdentityMemo, batch: Batch)
    returns (refusal: Option<Refusal>, index: map<StableId, nat>)
    requires memo.Valid() && memo.registry == context.registry && memo.hash == context.hash && SizedBatch(batch)
    modifies memo
    ensures memo.Valid()
    ensures refusal.None? <==> FactsIdentified(context, batch)
    ensures refusal.Some? ==> Warranted(context, batch, refusal.value)
    ensures refusal.Some? ==>
              refusal.value.RowRejected? || refusal.value.FactIdMismatch? || refusal.value.DuplicateFactId?
    ensures refusal.None? ==> Indexes(index, batch.facts)
  {
    hide SizedRow, IdentityOf;
    refusal, index := None, map[];
    for i := 0 to |batch.facts|
      invariant memo.Valid()
      invariant Indexes(index, batch.facts[..i])
      invariant forall k | 0 <= k < i :: context.Identify(batch.facts[k].row) == Identified(batch.facts[k].id)
    {
      var fact := batch.facts[i];
      assert fact in batch.facts;
      var derived := memo.Identify(fact.row);
      if derived.Rejected? {
        return Some(RowRejected(derived.reason)), index;
      }
      if derived.id != fact.id {
        return Some(FactIdMismatch), index;
      }
      if fact.id in index {
        assert Ids(batch.facts)[index[fact.id]] == Ids(batch.facts)[i];
        return Some(DuplicateFactId), index;
      }
      index := index[fact.id := i];
    }
    assert batch.facts[..|batch.facts|] == batch.facts;
  }

  /** A row is published exactly when its id leads to a fact with that very row. */
  lemma PublishedAt(context: Context, batch: Batch, index: map<StableId, nat>, row: Row)
    requires FactsIdentified(context, batch) && Indexes(index, batch.facts) && context.Identify(row).Identified?
    ensures var id := context.Identify(row).id;
            Published(batch, row) <==> id in index && batch.facts[index[id]].row == row
  {
    hide IdentityOf;
    if Published(batch, row) {
      var i :| 0 <= i < |batch.facts| && batch.facts[i].row == row;
      assert batch.facts[i] in batch.facts;
    }
  }

  /** The endpoints of one witness are the positions of its rows among the facts. */
  predicate Located(batch: Batch, w: Witness, ends: Endpoints) {
    && (Published(batch, w.result) ==> ends.result < |batch.facts| && batch.facts[ends.result].row == w.result)
    && (ends.input.None? <==> !Published(batch, w.input))
    && (ends.input.Some? ==> ends.input.value < |batch.facts| && batch.facts[ends.input.value].row == w.input)
  }

  /** Finds both rows of one witness; a result that is no fact gets a position past the last. */
  method Locate(context: Context, memo: FactIdentityMemo, batch: Batch, index: map<StableId, nat>, w: Witness)
    returns (refusal: Option<Refusal>, ends: Endpoints, rooted: bool)
    requires memo.Valid() && memo.registry == context.registry && memo.hash == context.hash
    requires FactsIdentified(context, batch) && Indexes(index, batch.facts)
    requires SizedRow(w.result) && SizedRow(w.input)
    modifies memo
    ensures memo.Valid()
    ensures refusal.None? <==> context.Identify(w.result).Identified? && context.Identify(w.input).Identified?
    ensures refusal.Some? ==> refusal.value.RowRejected? && WitnessRejected(context, w, refusal.value.reason)
    ensures refusal.None? ==> Located(batch, w, ends)
    ensures ends.result <= |batch.facts|
    ensures refusal.None? ==> (ends.result < |batch.facts| <==> Published(batch, w.result))
    ensures refusal.None? ==> (rooted <==> Rooted(context, batch, w.input))
  {
    hide SizedRow, IdentityOf, FactsIdentified, Published;
    ends, rooted := Endpoints(|batch.facts|, None), false;
    var result := memo.Identify(w.result);
    if result.Rejected? {
      return Some(RowRejected(result.reason)), ends, rooted;
    }
    var input := memo.Identify(w.input);
    if input.Rejected? {
      return Some(RowRejected(input.reason)), ends, rooted;
    }
    PublishedAt(context, batch, index, w.result);
    PublishedAt(context, batch, index, w.input);
    if result.id in index && batch.facts[index[result.id]].row == w.result {
      ends := ends.(result := index[result.id]);
    }
    if input.id in index && batch.facts[index[input.id]].row == w.input {
      ends := ends.(input := Some(index[input.id]));
    }
    rooted := input.id in batch.roots;
    refusal := None;
  }

  /** Only one fact has a witness's result for its row. */
  lemma OnlyThere(context: Context, batch: Batch, w: Witness, ends: Endpoints)
    requires FactsIdentified(context, batch) && Located(batch, w, ends)
    requires ends.result < |batch.facts| <==> Published(batch, w.result)
    ensures forall k | 0 <= k < |batch.facts| :: batch.facts[k].row == w.result <==> k == ends.result
  {
    hide IdentityOf;
    forall k | 0 <= k < |batch.facts| ensures batch.facts[k].row == w.result <==> k == ends.result {
      assert batch.facts[k] in batch.facts;
      if batch.facts[k].row == w.result {
        assert batch.facts[ends.result] in batch.facts;
        assert Ids(batch.facts)[k] == Ids(batch.facts)[ends.result];
      }
    }
  }

  /** Endpoints for a run of witnesses. */
  predicate AllLocated(batch: Batch, witnesses: seq<Witness>, endpoints: seq<Endpoints>) {
    |endpoints| == |witnesses| && forall k | 0 <= k < |witnesses| :: Located(batch, witnesses[k], endpoints[k])
  }

  /** What the closure pass knows once it has gone over the witnesses `ws`. */
  predicate Surveyed(context: Context, batch: Batch, ws: seq<Witness>, endpoints: seq<Endpoints>,
                     witnessed: seq<bool>, inputOutside: bool, resultOutside: bool) {
    && AllLocated(batch, ws, endpoints) && (resultOutside || Within(endpoints, |batch.facts|))
    && (forall w <- ws :: context.Identify(w.result).Identified? && context.Identify(w.input).Identified?)
    && (resultOutside <==> exists w <- ws :: !Published(batch, w.result))
    && (inputOutside <==> exists w <- ws :: !Published(batch, w.input) && !Rooted(context, batch, w.input))
    && |witnessed| == |batch.facts|
    && (forall k | 0 <= k < |batch.facts| :: witnessed[k] <==> exists w <- ws :: w.result == batch.facts[k].row)
  }

  lemma SurveyedNext(context: Context, batch: Batch, ws: seq<Witness>, endpoints: seq<Endpoints>,
                     witnessed: seq<bool>, inputOutside: bool, resultOutside: bool, w: Witness, ends: Endpoints,
                     rooted: bool)
    requires FactsIdentified(context, batch) && Located(batch, w, ends) && ends.result <= |batch.facts|
    requires ends.result < |batch.facts| <==> Published(batch, w.result)
    requires context.Identify(w.result).Identified? && context.Identify(w.input).Identified?
    requires rooted <==> Rooted(context, batch, w.input)
    requires Surveyed(context, batch, ws, endpoints, witnessed, inputOutside, resultOutside)
    ensures Surveyed(context, batch, ws + [w], endpoints + [ends],
                     if ends.result < |batch.facts| then witnessed[ends.result := true] else witnessed,
                     inputOutside || (ends.input.None? && !rooted), resultOutside || ends.result == |batch.facts|)
  {
    hide IdentityOf, FactsIdentified, Published, Rooted;
    OnlyThere(context, batch, w, ends);
  }

  lemma SurveyDecides(context: Context, batch: Batch, endpoints: seq<Endpoints>, witnessed: seq<bool>,
                      inputOutside: bool, resultOutside: bool)
    requires Surveyed(context, batch, batch.witnesses, endpoints, witnessed, inputOutside, resultOutside)
    ensures WitnessesIdentified(context, batch)
    ensures ClosedUnderWitness(context, batch) <==>
            (forall k | 0 <= k < |witnessed| :: witnessed[k]) && !inputOutside && !resultOutside
    ensures var refusal := if exists k | 0 <= k < |witnessed| :: !witnessed[k] then FactWithoutWitness
                           else if inputOutside then LeafOutsideRoots
                           else ResultNotPublished;
            ClosedUnderWitness(context, batch) || Warranted(context, batch, refusal)
  {
    hide Published, Rooted, AllLocated, Within;
    forall k | 0 <= k < |witnessed| ensures witnessed[k] <==> Witnessed(batch, batch.facts[k].row) {
    }
  }

  /** The first half of the closure pass: locates every witness, and stops at a row the registry rejects. */
  method Survey(context: Context, memo: FactIdentityMemo, batch: Batch, index: map<StableId, nat>)
    returns (refusal: Option<Refusal>, endpoints: seq<Endpoints>, witnessed: array<bool>, inputOutside: bool,
             resultOutside: bool)
    requires memo.Valid() && memo.registry == context.registry && memo.hash == context.hash && SizedBatch(batch)
    requires FactsIdentified(context, batch) && Indexes(index, batch.facts)
    modifies memo
    ensures memo.Valid() && fresh(witnessed)
    ensures refusal.Some? ==> !WitnessesIdentified(context, batch)
    ensures refusal.Some? ==> refusal.value.RowRejected? && Warranted(context, batch, refusal.value)
    ensures refusal.None? ==>
              Surveyed(context, batch, batch.witnesses, endpoints, witnessed[..], inputOutside, resultOutside)
  {
    hide SizedRow, IdentityOf, FactsIdentified, Indexes, Published, Rooted;
    refusal, endpoints, inputOutside, resultOutside := None, [], false, false;
    witnessed := new bool[|batch.facts|](_ => false);
    assert Surveyed(context, batch, [], endpoints, witnessed[..], inputOutside, resultOutside);
    hide Surveyed;
    for i := 0 to |batch.witnesses|
      invariant memo.Valid() && fresh(witnessed) && witnessed.Length == |batch.facts|
      invariant Surveyed(context, batch, batch.witnesses[..i], endpoints, witnessed[..], inputOutside, resultOutside)
    {
      var w := batch.witnesses[i];
      assert w in batch.witnesses;
      assert batch.witnesses[..i + 1] == batch.witnesses[..i] + [w];
      var bad, ends, rooted := Locate(context, memo, batch, index, w);
      if bad.Some? {
        refusal := bad;
        return;
      }
      SurveyedNext(context, batch, batch.witnesses[..i], endpoints, witnessed[..], inputOutside, resultOutside,
                   w, ends, rooted);
      ghost var before := witnessed[..];
      if ends.result == |batch.facts| {
        resultOutside := true;
      } else {
        witnessed[ends.result] := true;
        assert witnessed[..] == before[ends.result := true];
      }
      if ends.input.None? && !rooted {
        inputOutside := true;
      }
      endpoints := endpoints + [ends];
    }
    assert batch.witnesses[..|batch.witnesses|] == batch.witnesses;
  }

  /** The closure pass: checks that each fact has a witness, each leaf is a root and each result is published. */
  method CheckClosure(context: Context, memo: FactIdentityMemo, batch: Batch, index: map<StableId, nat>)
    returns (refusal: Option<Refusal>, endpoints: seq<Endpoints>)
    requires memo.Valid() && memo.registry == context.registry && memo.hash == context.hash && SizedBatch(batch)
    requires FactsIdentified(context, batch) && Indexes(index, batch.facts)
    modifies memo
    ensures memo.Valid()
    ensures refusal.None? <==> WitnessesIdentified(context, batch) && ClosedUnderWitness(context, batch)
    ensures refusal.Some? ==> Warranted(context, batch, refusal.value) && refusal != Some(WitnessCycle)
    ensures refusal.Some? ==> refusal.value.RowRejected? || WitnessesIdentified(context, batch)
    ensures refusal.Some? ==> refusal.value.RowRejected? || refusal.value.FactWithoutWitness?
                              || refusal.value.LeafOutsideRoots? || refusal.value.ResultNotPublished?
    ensures refusal.None? ==> AllLocated(batch, batch.witnesses, endpoints) && Within(endpoints, |batch.facts|)
  {
    hide SizedRow, IdentityOf, FactsIdentified, Indexes, Published, Rooted, Surveyed, ClosedUnderWitness, Within,
         WitnessesIdentified, AllLocated, Warranted;
    var bad, ends, witnessed, inputOutside, resultOutside := Survey(context, memo, batch, index);
    refusal, endpoints := bad, ends;
    if refusal.Some? {
      return;
    }
    SurveyDecides(context, batch, endpoints, witnessed[..], inputOutside, resultOutside);
    for k := 0 to witnessed.Length
      invariant forall j | 0 <= j < k :: witnessed[j]
    {
      if !witnessed[k] {
        assert !witnessed[..][k];
        return Some(FactWithoutWitness), endpoints;
      }
    }
    if inputOutside {
      return Some(LeafOutsideRoots), endpoints;
    }
    if resultOutside {
      return Some(ResultNotPublished), endpoints;
    }
    SurveyLocates(context, batch, endpoints, witnessed[..], inputOutside);
  }

  lemma SurveyLocates(context: Context, batch: Batch, endpoints: seq<Endpoints>, witnessed: seq<bool>,
                      inputOutside: bool)
    requires Surveyed(context, batch, batch.witnesses, endpoints, witnessed, inputOutside, false)
    ensures AllLocated(batch, batch.witnesses, endpoints) && Within(endpoints, |batch.facts|)
  {
    hide Published, Rooted, AllLocated, Within;
  }

  // ----- The two graphs have the same cycles -----

  lemma IndexCycleIsRowCycle(batch: Batch, endpoints: seq<Endpoints>, w: seq<nat>)
    requires AllLocated(batch, batch.witnesses, endpoints) && Within(endpoints, |batch.facts|)
    requires forall x <- batch.witnesses :: Published(batch, x.result)
    requires ClosedWalk(Dependencies(endpoints), w)
    ensures Cyclic(RowEdges(batch.witnesses))
  {
    hide Dependencies, Published;
    forall i | 0 <= i < |w| ensures w[i] < |batch.facts| {
      var k := if i == 0 then |w| - 1 else i;
      assert Edge(w[k - 1], w[k]) in Dependencies(endpoints);
      DependenciesHold(endpoints, Edge(w[k - 1], w[k]));
    }
    var rows := seq(|w|, i requires 0 <= i < |w| => batch.facts[w[i]].row);
    forall i | 0 < i < |rows| ensures Edge(rows[i - 1], rows[i]) in RowEdges(batch.witnesses) {
      DependenciesHold(endpoints, Edge(w[i - 1], w[i]));
      var k :| 0 <= k < |endpoints| && endpoints[k] == Endpoints(w[i], Some(w[i - 1]));
      assert Located(batch, batch.witnesses[k], endpoints[k]);
      assert batch.witnesses[k] in batch.witnesses;
      assert RowEdges(batch.witnesses)[k] == Edge(rows[i - 1], rows[i]);
    }
    assert ClosedWalk(RowEdges(batch.witnesses), rows);
  }

  /** Where a published row stands among the facts. */
  ghost function Position(batch: Batch, row: Row): (k: nat)
    requires Published(batch, row)
    ensures k < |batch.facts| && batch.facts[k].row == row
  {
    var k :| 0 <= k < |batch.facts| && batch.facts[k].row == row;
    k
  }

  lemma RowCycleIsIndexCycle(context: Context, batch: Batch, endpoints: seq<Endpoints>, rows: seq<Row>)
    requires FactsIdentified(context, batch) && AllLocated(batch, batch.witnesses, endpoints)
    requires forall x <- batch.witnesses :: Published(batch, x.result)
    requires ClosedWalk(RowEdges(batch.witnesses), rows)
    ensures Cyclic(Dependencies(endpoints))
  {
    hide Dependencies, Published, FactsIdentified, IdentityOf;
    forall i | 0 <= i < |rows| ensures Published(batch, rows[i]) {
      var j := if i == 0 then |rows| - 1 else i;
      var k :| 0 <= k < |batch.witnesses| && RowEdges(batch.witnesses)[k] == Edge(rows[j - 1], rows[j]);
      assert batch.witnesses[k] in batch.witnesses;
    }
    var w: seq<nat> := seq(|rows|, i requires 0 <= i < |rows| => Position(batch, rows[i]));
    forall i | 0 < i < |w| ensures Edge(w[i - 1], w[i]) in Dependencies(endpoints) {
      var k :| 0 <= k < |batch.witnesses| && RowEdges(batch.witnesses)[k] == Edge(rows[i - 1], rows[i]);
      assert Located(batch, batch.witnesses[k], endpoints[k]);
      RowsDiffer(context, batch, endpoints[k].result, w[i]);
      RowsDiffer(context, batch, endpoints[k].input.value, w[i - 1]);
      assert endpoints[k] == Endpoints(w[i], Some(w[i - 1]));
      DependenciesHold(endpoints, Edge(w[i - 1], w[i]));
    }
    assert ClosedWalk(Dependencies(endpoints), w);
  }

  lemma RowsDiffer(context: Context, batch: Batch, j: nat, k: nat)
    requires FactsIdentified(context, batch) && j < |batch.facts| && k < |batch.facts|
    requires batch.facts[j].row == batch.facts[k].row
    ensures j == k
  {
    assert batch.facts[j] in batch.facts && batch.facts[k] in batch.facts;
    assert Ids(batch.facts)[j] == Ids(batch.facts)[k];
  }

  lemma CyclesAgree(context: Context, batch: Batch, endpoints: seq<Endpoints>)
    requires FactsIdentified(context, batch) && AllLocated(batch, batch.witnesses, endpoints)
    requires Within(endpoints, |batch.facts|)
    requires forall x <- batch.witnesses :: Published(batch, x.result)
    ensures Cyclic(Dependencies(endpoints)) <==> Cyclic(RowEdges(batch.witnesses))
  {
    hide Dependencies, Published, FactsIdentified, IdentityOf, AllLocated, RowEdges, ClosedWalk;
    if w :| ClosedWalk(Dependencies(endpoints), w) {
      IndexCycleIsRowCycle(batch, endpoints, w);
    }
    if rows :| ClosedWalk(RowEdges(batch.witnesses), rows) {
      RowCycleIsIndexCycle(context, batch, endpoints, rows);
    }
  }

  /** Accepts exactly the valid batches. */
  method Validate(context: Context, batch: Batch) returns (refusal: Option<Refusal>)
    requires IsRegistry(context.registry) && SizedBatch(batch)
    ensures refusal.None? <==> ValidBatch(context, batch)
    ensures refusal.Some? ==> Warranted(context, batch, refusal.value) && InOrder(context, batch, refusal.value)
  {
    hide IsRegistry, SizedBatch, FactsIdentified, WitnessesIdentified, ComponentsMatch, Cyclic;
    if batch.id != context.BatchId(batch) {
      return Some(BatchIdMismatch);
    }
    refusal := CheckComponents(context, batch);
    if refusal.Some? {
      return;
    }
    var memo := new FactIdentityMemo(context.registry, context.hash);
    var index;
    refusal, index := IndexFacts(context, memo, batch);
    if refusal.Some? {
      return;
    }
    var endpoints;
    refusal, endpoints := CheckClosure(context, memo, batch, index);
    if refusal.Some? {
      return;
    }
    CyclesAgree(context, batch, endpoints);
    var acyclic := IsAcyclic(endpoints, |batch.facts|);
    refusal := if acyclic then None else Some(WitnessCycle);
  }

  // ----- Delivery -----

  datatype Delivery = Delivery(run: string, batch: StableId, sink: string)

  /** What has happened so far, in order. A sink is named by its position and by the id it was added under. */
  datatype Event =
    | Called(position: nat, delivery: Delivery, batch: Batch)
    | Accepted(position: nat, delivery: Delivery)
    | Marked(delivery: Delivery)

  /** Only valid batches reach a sink, under the id the sink was added with. */
  ghost predicate CallsAreValid(context: Context, log: seq<Event>, sinks: seq<string>) {
    forall i | 0 <= i < |log| && log[i].Called? ::
      && ValidBatch(context, log[i].batch)
      && log[i].position < |sinks|
      && log[i].delivery == Delivery(log[i].batch.run, log[i].batch.id, sinks[log[i].position])
  }

  predicate AcceptedBefore(log: seq<Event>, sinks: seq<string>, delivery: Delivery, i: nat)
    requires i <= |log|
  {
    exists k | 0 <= k < i ::
      log[k].Accepted? && log[k].delivery == delivery
      && log[k].position < |sinks| && sinks[log[k].position] == delivery.sink
  }

  /** A mark follows an acceptance by that sink. */
  predicate MarksFollowAcceptance(log: seq<Event>, sinks: seq<string>) {
    forall i | 0 <= i < |log| && log[i].Marked? :: AcceptedBefore(log, sinks, log[i].delivery, i)
  }

  /** A marked sink is not called again for the same batch. */
  predicate NoCallAfterMark(log: seq<Event>) {
    forall i, j | 0 <= i < j < |log| && log[i].Marked? && log[j].Called? :: log[i].delivery != log[j].delivery
  }

  /** The table holds exactly the marks made. */
  ghost predicate TableIsMarks(log: seq<Event>, table: set<Delivery>) {
    forall d :: d in table <==> Marked(d) in log
  }

  ghost predicate History(context: Context, log: seq<Event>, sinks: seq<string>, table: set<Delivery>) {
    && CallsAreValid(context, log, sinks) && MarksFollowAcceptance(log, sinks)
    && NoCallAfterMark(log) && TableIsMarks(log, table)
  }

  lemma AcceptedStays(log: seq<Event>, event: Event, sinks: seq<string>, delivery: Delivery, i: nat)
    requires i <= |log| && AcceptedBefore(log, sinks, delivery, i)
    ensures AcceptedBefore(log + [event], sinks, delivery, i)
  {
    var k :| 0 <= k < i && log[k].Accepted? && log[k].delivery == delivery
             && log[k].position < |sinks| && sinks[log[k].position] == delivery.sink;
    assert (log + [event])[k] == log[k];
  }

  lemma CallKeepsHistory(context: Context, log: seq<Event>, sinks: seq<string>, table: set<Delivery>,
                         position: nat, batch: Batch)
    requires History(context, log, sinks, table) && ValidBatch(context, batch) && position < |sinks|
    requires Delivery(batch.run, batch.id, sinks[position]) !in table
    ensures var delivery := Delivery(batch.run, batch.id, sinks[position]);
            History(context, log + [Called(position, delivery, batch)], sinks, table)
  {
    hide ValidBatch;
    var delivery := Delivery(batch.run, batch.id, sinks[position]);
    var next := log + [Called(position, delivery, batch)];
    forall i | 0 <= i < |next| && next[i].Marked? ensures AcceptedBefore(next, sinks, next[i].delivery, i) {
      AcceptedStays(log, Called(position, delivery, batch), sinks, log[i].delivery, i);
    }
    forall i | 0 <= i < |log| && log[i].Marked? ensures log[i].delivery != delivery {
      assert log[i] == Marked(log[i].delivery);
    }
  }

  lemma AcceptanceKeepsHistory(context: Context, log: seq<Event>, sinks: seq<string>, table: set<Delivery>,
                               position: nat, delivery: Delivery)
    requires History(context, log, sinks, table)
    ensures History(context, log + [Accepted(position, delivery)], sinks, table)
  {
    hide ValidBatch;
    var next := log + [Accepted(position, delivery)];
    forall i | 0 <= i < |next| && next[i].Marked? ensures AcceptedBefore(next, sinks, next[i].delivery, i) {
      AcceptedStays(log, Accepted(position, delivery), sinks, log[i].delivery, i);
    }
  }

  lemma MarkKeepsHistory(context: Context, log: seq<Event>, sinks: seq<string>, table: set<Delivery>,
                         delivery: Delivery)
    requires History(context, log, sinks, table) && AcceptedBefore(log, sinks, delivery, |log|)
    ensures History(context, log + [Marked(delivery)], sinks, table + {delivery})
  {
    hide ValidBatch;
    var next := log + [Marked(delivery)];
    forall i | 0 <= i < |next| && next[i].Marked? ensures AcceptedBefore(next, sinks, next[i].delivery, i) {
      AcceptedStays(log, Marked(delivery), sinks, next[i].delivery, i);
    }
  }

  lemma SinkKeepsHistory(context: Context, log: seq<Event>, sinks: seq<string>, table: set<Delivery>, id: string)
    requires History(context, log, sinks, table)
    ensures History(context, log, sinks + [id], table)
  {
    hide ValidBatch;
    forall i | 0 <= i < |log| && log[i].Marked? ensures AcceptedBefore(log, sinks + [id], log[i].delivery, i) {
      assert AcceptedBefore(log, sinks, log[i].delivery, i);
    }
  }

  /** With distinct sink ids a mark speaks for one sink: that very sink accepted the batch. */
  lemma MarkedSinkAccepted(context: Context, log: seq<Event>, sinks: seq<string>, table: set<Delivery>,
                           position: nat, run: string, batch: StableId)
    requires History(context, log, sinks, table) && NoRepeat(sinks) && position < |sinks|
    requires Delivery(run, batch, sinks[position]) in table
    ensures Accepted(position, Delivery(run, batch, sinks[position])) in log
  {
    var delivery := Delivery(run, batch, sinks[position]);
    var i :| 0 <= i < |log| && log[i] == Marked(delivery);
    assert AcceptedBefore(log, sinks, delivery, i);
    var k :| 0 <= k < i && log[k].Accepted? && log[k].delivery == delivery
             && log[k].position < |sinks| && sinks[log[k].position] == delivery.sink;
    assert log[k].position == position;
    assert log[k] == Accepted(position, delivery);
  }

  /** What works and what fails during one publication: the store's answers, the sinks, the writes of the marks. */
  datatype Weather = Weather(tableReady: bool, answers: nat -> bool, accepts: nat -> bool, stores: nat -> bool,
                             reports: nat -> bool)

  predicate Delivers(weather: Weather, position: nat) {
    weather.accepts(position) && weather.reports(position)
  }

  /** What calling one sink leads to. */
  function Calls(weather: Weather, position: nat, delivery: Delivery, batch: Batch): seq<Event> {
    [Called(position, delivery, batch)]
    + (if !weather.accepts(position) then []
       else if !weather.stores(position) && !weather.reports(position) then [Accepted(position, delivery)]
       else [Accepted(position, delivery), Marked(delivery)])
  }

  /** The store answers for this sink, and it is marked, shares the id of an earlier one, or is delivered to. */
  predicate Passes(weather: Weather, sinks: seq<string>, table: set<Delivery>, batch: Batch, p: nat)
    requires p < |sinks|
  {
    && weather.answers(p)
    && (Delivery(batch.run, batch.id, sinks[p]) in table || sinks[p] in sinks[..p] || Delivers(weather, p))
  }

  /** The sink is called when it is reached: it is not marked, and no sink before it has its id. */
  predicate IsCalled(sinks: seq<string>, table: set<Delivery>, batch: Batch, p: nat)
    requires p < |sinks|
  {
    Delivery(batch.run, batch.id, sinks[p]) !in table && sinks[p] !in sinks[..p]
  }

  /** What reaching the first `n` sinks leads to, one after the other. */
  function Course(weather: Weather, sinks: seq<string>, table: set<Delivery>, batch: Batch, n: nat): seq<Event>
    requires n <= |sinks|
  {
    if n == 0 then []
    else
      Course(weather, sinks, table, batch, n - 1)
      + (if IsCalled(sinks, table, batch, n - 1)
         then Calls(weather, n - 1, Delivery(batch.run, batch.id, sinks[n - 1]), batch) else [])
  }

  /** The first `n` sinks are reached: all but the last pass, and the next is not reached because something failed. */
  predicate GetsTo(weather: Weather, sinks: seq<string>, table: set<Delivery>, batch: Batch, n: nat) {
    && n <= |sinks|
    && (forall p: nat | p < n :: weather.answers(p))
    && (forall p: nat | p + 1 < n :: Passes(weather, sinks, table, batch, p))
    && (n < |sinks| ==> !weather.answers(n) || (n > 0 && !Passes(weather, sinks, table, batch, n - 1)))
  }

  lemma {:induction false} CourseCalls(weather: Weather, sinks: seq<string>, table: set<Delivery>, batch: Batch, n: nat,
                                       event: Event)
    requires n <= |sinks|
    ensures event in Course(weather, sinks, table, batch, n)
            <==> exists p: nat | p < n ::
                   && IsCalled(sinks, table, batch, p)
                   && event in Calls(weather, p, Delivery(batch.run, batch.id, sinks[p]), batch)
  {
    hide IsCalled, Calls;
    if n > 0 {
      CourseCalls(weather, sinks, table, batch, n - 1, event);
    }
  }

  /** Sinks are called in the order they were added in, each at most once. */
  lemma {:induction false} CourseInOrder(weather: Weather, sinks: seq<string>, table: set<Delivery>, batch: Batch,
                                         n: nat)
    requires n <= |sinks|
    ensures CallsAscend(Course(weather, sinks, table, batch, n))
  {
    if n > 0 {
      hide IsCalled, Calls, CallsAscend;
      CourseInOrder(weather, sinks, table, batch, n - 1);
      var delivery := Delivery(batch.run, batch.id, sinks[n - 1]);
      forall event <- Course(weather, sinks, table, batch, n - 1) | event.Called? ensures event.position < n - 1 {
        CourseCalls(weather, sinks, table, batch, n - 1, event);
        var p: nat :| p < n - 1 && event in Calls(weather, p, Delivery(batch.run, batch.id, sinks[p]), batch);
        OneCall(weather, p, Delivery(batch.run, batch.id, sinks[p]), batch);
      }
      AscendNext(Course(weather, sinks, table, batch, n - 1), weather, n - 1, delivery, batch);
    }
  }

  predicate CallsAscend(events: seq<Event>) {
    forall i, j | 0 <= i < j < |events| :: events[i].Called? && events[j].Called? ==>
      events[i].position < events[j].position
  }

  lemma OneCall(weather: Weather, position: nat, delivery: Delivery, batch: Batch)
    ensures var calls := Calls(weather, position, delivery, batch);
            forall i | 0 <= i < |calls| :: calls[i].Called? ==> i == 0 && calls[i].position == position
  {}

  lemma AscendNext(events: seq<Event>, weather: Weather, position: nat, delivery: Delivery, batch: Batch)
    requires CallsAscend(events) && forall event <- events :: event.Called? ==> event.position < position
    ensures CallsAscend(events + Calls(weather, position, delivery, batch)) && events + [] == events
  {
    hide Calls;
    OneCall(weather, position, delivery, batch);
    var course := events + Calls(weather, position, delivery, batch);
    forall i, j | 0 <= i < j < |course| && course[i].Called? && course[j].Called?
      ensures course[i].position < course[j].position
    {
      if i < |events| {
        assert course[i] == events[i] && events[i] in events;
      }
      if j >= |events| {
        assert course[j] == Calls(weather, position, delivery, batch)[j - |events|];
      }
    }
  }

  /** Only one number of sinks is reached. */
  lemma ReachedOnce(weather: Weather, sinks: seq<string>, table: set<Delivery>, batch: Batch, m: nat, n: nat)
    requires GetsTo(weather, sinks, table, batch, m) && GetsTo(weather, sinks, table, batch, n)
    ensures m == n
  {
    hide Passes;
  }

  function Covered(batch: Batch, sinks: seq<string>): set<Delivery> {
    set sink | sink in sinks :: Delivery(batch.run, batch.id, sink)
  }

  lemma NothingCovered(batch: Batch, none: seq<string>)
    requires none == []
    ensures Covered(batch, none) == {}
  {}

  lemma CoveredNext(batch: Batch, sinks: seq<string>, i: nat)
    requires i < |sinks|
    ensures Covered(batch, sinks[..i + 1]) == Covered(batch, sinks[..i]) + {Delivery(batch.run, batch.id, sinks[i])}
    ensures Delivery(batch.run, batch.id, sinks[i]) in Covered(batch, sinks[..i]) <==> sinks[i] in sinks[..i]
  {
    assert sinks[..i + 1] == sinks[..i] + [sinks[i]];
  }

  lemma PassesNow(weather: Weather, batch: Batch, sinks: seq<string>, start: set<Delivery>, table: set<Delivery>,
                  i: nat)
    requires i < |sinks| && table == start + Covered(batch, sinks[..i])
    ensures Passes(weather, sinks, start, batch, i) <==>
            weather.answers(i) && (Delivery(batch.run, batch.id, sinks[i]) in table || Delivers(weather, i))
  {
    CoveredNext(batch, sinks, i);
  }

  lemma CalledNow(batch: Batch, sinks: seq<string>, start: set<Delivery>, table: set<Delivery>, i: nat)
    requires i < |sinks| && table == start + Covered(batch, sinks[..i])
    ensures IsCalled(sinks, start, batch, i) <==> Delivery(batch.run, batch.id, sinks[i]) !in table
  {
    CoveredNext(batch, sinks, i);
  }

  lemma DeliversMarks(weather: Weather, position: nat, delivery: Delivery, batch: Batch)
    requires Delivers(weather, position)
    ensures Marked(delivery) in Calls(weather, position, delivery, batch)
  {
    assert Calls(weather, position, delivery, batch)[2] == Marked(delivery);
  }

  /** Events of one batch only. */
  predicate About(events: seq<Event>, batch: Batch) {
    forall event <- events :: event.delivery.run == batch.run && event.delivery.batch == batch.id
  }

  lemma NothingAbout(batch: Batch, none: seq<Event>)
    requires none == []
    ensures About(none, batch)
  {}

  lemma MoreAbout(events: seq<Event>, batch: Batch, weather: Weather, position: nat, delivery: Delivery)
    requires About(events, batch) && delivery.run == batch.run && delivery.batch == batch.id
    ensures About(events + Calls(weather, position, delivery, batch), batch)
  {}

  /** The bus, the delivery table it shares with every earlier run, and what has happened. */
  class Bus {
    const context: Context
    var sinks: seq<string>
    var table: set<Delivery>
    ghost var log: seq<Event>

    ghost predicate Valid()
      reads this
    {
      IsRegistry(context.registry) && History(context, log, sinks, table)
    }

    constructor (context: Context)
      requires IsRegistry(context.registry)
      ensures Valid() && this.context == context && sinks == [] && table == {} && log == []
    {
      this.context, sinks, table, log := context, [], {}, [];
    }

    method AddSink(id: string)
      requires Valid()
      modifies this
      ensures Valid() && sinks == old(sinks) + [id] && table == old(table) && log == old(log)
    {
      SinkKeepsHistory(context, log, sinks, table, id);
      sinks := sinks + [id];
    }

    /**
     * One sink of one delivery. The sink may refuse, and the write of the mark may fail; a write that reports
     * failure may have been stored or not.
     */
    method Deliver(batch: Batch, position: nat, weather: Weather) returns (ok: bool)
      requires Valid() && ValidBatch(context, batch) && position < |sinks|
      requires Delivery(batch.run, batch.id, sinks[position]) !in table
      modifies this`table, this`log
      ensures Valid() && ok == Delivers(weather, position)
      ensures var delivery := Delivery(batch.run, batch.id, sinks[position]);
              && log == old(log) + Calls(weather, position, delivery, batch)
              && table == old(table) + if Marked(delivery) in Calls(weather, position, delivery, batch)
                                       then {delivery} else {}
    {
      hide History, ValidBatch;
      var delivery := Delivery(batch.run, batch.id, sinks[position]);
      CallKeepsHistory(context, log, sinks, table, position, batch);
      log := log + [Called(position, delivery, batch)];
      if !weather.accepts(position) {
        return false;
      }
      AcceptanceKeepsHistory(context, log, sinks, table, position, delivery);
      log := log + [Accepted(position, delivery)];
      assert log[|log| - 1] == Accepted(position, delivery);
      if weather.stores(position) || weather.reports(position) {
        MarkKeepsHistory(context, log, sinks, table, delivery);
        table, log := table + {delivery}, log + [Marked(delivery)];
        assert Calls(weather, position, delivery, batch)[2] == Marked(delivery);
      }
      return weather.reports(position);
    }

    /** Calls each sink not yet marked, in order, until something fails. */
    method DeliverAll(batch: Batch, weather: Weather) returns (ok: bool)
      requires Valid() && ValidBatch(context, batch)
      modifies this`table, this`log
      ensures Valid() && old(log) <= log && old(table) <= table && About(log[|old(log)|..], batch)
      ensures ok <==> forall p: nat | p < |sinks| :: Passes(weather, sinks, old(table), batch, p)
      ensures ok ==> table == old(table) + Covered(batch, sinks)
      ensures exists n: nat | GetsTo(weather, sinks, old(table), batch, n) ::
                log == old(log) + Course(weather, sinks, old(table), batch, n)
    {
      hide History, ValidBatch, IsRegistry, Covered, About, Passes, Delivers, Calls, IsCalled;
      NothingAbout(batch, log[|log|..]);
      NothingCovered(batch, sinks[..0]);
      for i := 0 to |sinks|
        invariant Valid() && old(log) <= log && About(log[|old(log)|..], batch)
        invariant table == old(table) + Covered(batch, sinks[..i])
        invariant log == old(log) + Course(weather, sinks, old(table), batch, i)
        invariant forall p: nat | p < i :: weather.answers(p)
        invariant forall p: nat | p < i :: Passes(weather, sinks, old(table), batch, p)
      {
        CoveredNext(batch, sinks, i);
        PassesNow(weather, batch, sinks, old(table), table, i);
        if !weather.answers(i) {
          assert GetsTo(weather, sinks, old(table), batch, i);
          return false;
        }
        CalledNow(batch, sinks, old(table), table, i);
        var delivery := Delivery(batch.run, batch.id, sinks[i]);
        if delivery !in table {
          MoreAbout(log[|old(log)|..], batch, weather, i, delivery);
          ghost var before := log;
          var delivered := Deliver(batch, i, weather);
          assert log[|old(log)|..] == before[|old(log)|..] + Calls(weather, i, delivery, batch);
          if !delivered {
            assert GetsTo(weather, sinks, old(table), batch, i + 1);
            return false;
          }
          DeliversMarks(weather, i, delivery, batch);
        }
      }
      assert sinks[..|sinks|] == sinks;
      assert GetsTo(weather, sinks, old(table), batch, |sinks|);
      return true;
    }

    /**
     * Validates and delivers. Whatever fails, the history stays sound. It succeeds exactly when the batch is
     * valid and nothing it needed failed, and then every sink is marked for this batch.
     */
    method Publish(batch: Batch, weather: Weather) returns (ok: bool)
      requires Valid() && SizedBatch(batch)
      modifies this`table, this`log
      ensures Valid() && old(log) <= log && old(table) <= table && About(log[|old(log)|..], batch)
      ensures !ValidBatch(context, batch) ==> !ok && log == old(log) && table == old(table)
      ensures ok <==> ValidBatch(context, batch) && weather.tableReady
                      && forall p: nat | p < |sinks| :: Passes(weather, sinks, old(table), batch, p)
      ensures ok ==> forall sink <- sinks :: Delivery(batch.run, batch.id, sink) in table
      ensures ValidBatch(context, batch) && weather.tableReady ==>
                exists n: nat | GetsTo(weather, sinks, old(table), batch, n) ::
                  log == old(log) + Course(weather, sinks, old(table), batch, n)
      ensures !weather.tableReady ==> log == old(log)
      ensures ok && NoRepeat(sinks) ==>
                forall p: nat | p < |sinks| :: Accepted(p, Delivery(batch.run, batch.id, sinks[p])) in log
    {
      hide History, ValidBatch, SizedBatch, IsRegistry, Passes, About, Course, GetsTo;
      NothingAbout(batch, log[|log|..]);
      var refusal := Validate(context, batch);
      if refusal.Some? {
        return false;
      }
      if !weather.tableReady {
        return false;
      }
      ok := DeliverAll(batch, weather);
      if ok && NoRepeat(sinks) {
        forall p: nat | p < |sinks| ensures Accepted(p, Delivery(batch.run, batch.id, sinks[p])) in log {
          MarkedSinkAccepted(context, log, sinks, table, p, batch.run, batch.id);
        }
      }
    }
  }
}
