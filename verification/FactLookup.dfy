/** The fact lookup index and the pages read through it. */
module FactLookup {
  import opened Basics
  import opened FactIdentity
  import opened Orders

  /** A stored fact and the size of its stored form. Facts are named by the text of their ids. */
  datatype Stored = Stored(row: Row, bytes: nat)

  /** One index row: column -1 lists a whole relation, any other lists the facts with one cell's digest. */
  datatype Entry = Entry(run: string, relation: string, column: int, digest: string, id: string)

  datatype Equality = Equality(column: nat, domain: Domain, value: Cell)

  datatype Selector = Selector(relation: nat, equalities: seq<Equality>)

  datatype Cursor = Cursor(snapshot: string, selector: string, version: nat, last: string)

  datatype Request = Request(limit: nat, maxExamined: nat, maxBytes: nat, after: Option<Cursor>)

  datatype Found = Found(id: string, row: Row)

  datatype Page = Page(facts: seq<Found>, continuation: Option<Cursor>, exhausted: bool, workExhausted: bool,
                       examined: nat, outputBytes: nat, requiredBytes: nat)

  datatype Refusal =
    | NoSnapshot | BadLimits | RelationUnknown | TooManyEqualities | BadColumn | BadCell(reason: Rejection)
    | NotCanonical | CursorMismatch | BadCursorKey | FactMissing | RelationDisagrees | BindingMissing | ByteOverflow

  datatype Answer = Read(page: Page) | Refused(reason: Refusal)

  const MAX_PAGE_ROWS := 4096
  const ORDERING_VERSION := 1

  /** The registry, the digests (which may collide), and what counts as a canonical value and fact id. */
  datatype Codec = Codec(registry: seq<Schema>, digest: (Domain, Cell) -> string,
                         selectorDigest: (nat, seq<Equality>) -> string,
                         canonical: Cell -> bool, isFactId: string -> bool)

  // ----- Selectors -----

  predicate GoodEquality(codec: Codec, schema: Schema, equality: Equality) {
    && equality.column < |schema.columns|
    && schema.columns[equality.column] == equality.domain
    && CheckCell(equality.domain, equality.value).None?
    && codec.canonical(equality.value)
  }

  predicate DistinctColumns(equalities: seq<Equality>) {
    forall i, j | 0 <= i < j < |equalities| :: equalities[i].column != equalities[j].column
  }

  predicate GoodSelector(codec: Codec, selector: Selector) {
    && selector.relation < |codec.registry|
    && |selector.equalities| <= |codec.registry[selector.relation].columns|
    && (forall e <- selector.equalities :: GoodEquality(codec, codec.registry[selector.relation], e))
    && DistinctColumns(selector.equalities)
  }

  function ByColumn(): (Equality, Equality) -> bool {
    (a: Equality, b: Equality) => a.column <= b.column
  }

  function Ordered(selector: Selector): seq<Equality> {
    Sort(selector.equalities, ByColumn())
  }

  lemma OrderedColumns(selector: Selector)
    ensures var eqs := Ordered(selector);
            && (forall i, j | 0 <= i < j < |eqs| :: eqs[i].column <= eqs[j].column)
            && (forall e :: e in eqs <==> e in selector.equalities)
            && |eqs| == |selector.equalities|
            && (DistinctColumns(eqs) <==> DistinctColumns(selector.equalities))
  {
    var eqs := Ordered(selector);
    SortSorted(selector.equalities, ByColumn());
    SameElements(eqs, selector.equalities);
    assert |multiset(eqs)| == |multiset(selector.equalities)|;
    if DistinctColumns(eqs) {
      RearrangedDistinct(eqs, selector.equalities, (e: Equality) => e.column);
    }
    if DistinctColumns(selector.equalities) {
      RearrangedDistinct(selector.equalities, eqs, (e: Equality) => e.column);
    }
  }

  /** What is wrong with one equality, next to the one before it. */
  predicate EqualityFault(codec: Codec, schema: Schema, eqs: seq<Equality>, i: nat, reason: Refusal)
    requires i < |eqs|
  {
    var column := eqs[i].column;
    if column >= |schema.columns| || schema.columns[column] != eqs[i].domain || (i > 0 && eqs[i - 1].column == column)
    then reason == BadColumn
    else if CheckCell(eqs[i].domain, eqs[i].value).Some?
    then reason == BadCell(CheckCell(eqs[i].domain, eqs[i].value).value)
    else !codec.canonical(eqs[i].value) && reason == NotCanonical
  }

  /** The equality is at fault, and none before it in column order is. */
  predicate FirstFaultAt(codec: Codec, schema: Schema, eqs: seq<Equality>, i: nat, reason: Refusal)
    requires i < |eqs|
  {
    && EqualityFault(codec, schema, eqs, i, reason)
    && (forall k | 0 <= k < i :: GoodEquality(codec, schema, eqs[k]))
    && DistinctColumns(eqs[..i])
  }

  /** The first thing wrong with a selector. */
  predicate SelectorFault(codec: Codec, selector: Selector, reason: Refusal) {
    if selector.relation >= |codec.registry| then reason == RelationUnknown
    else
      var schema := codec.registry[selector.relation];
      if |selector.equalities| > |schema.columns| then reason == TooManyEqualities
      else exists i: nat | i < |Ordered(selector)| :: FirstFaultAt(codec, schema, Ordered(selector), i, reason)
  }

  method CheckEquality(codec: Codec, schema: Schema, eqs: seq<Equality>, i: nat) returns (refusal: Option<Refusal>)
    requires i < |eqs|
    ensures refusal.None? <==>
            GoodEquality(codec, schema, eqs[i]) && (i > 0 ==> eqs[i - 1].column != eqs[i].column)
    ensures refusal.Some? ==> EqualityFault(codec, schema, eqs, i, refusal.value)
  {
    hide CheckCell;
    if eqs[i].column >= |schema.columns| || schema.columns[eqs[i].column] != eqs[i].domain {
      return Some(BadColumn);
    }
    if i != 0 && eqs[i - 1].column == eqs[i].column {
      return Some(BadColumn);
    }
    var cell := CheckCell(eqs[i].domain, eqs[i].value);
    if cell.Some? {
      return Some(BadCell(cell.value));
    }
    if !codec.canonical(eqs[i].value) {
      return Some(NotCanonical);
    }
    return None;
  }

  /** Checks every equality in column order; a repeated column shows as two neighbours. */
  method CheckSelector(codec: Codec, selector: Selector) returns (refusal: Option<Refusal>, eqs: seq<Equality>)
    ensures eqs == Ordered(selector)
    ensures refusal.None? <==> GoodSelector(codec, selector)
    ensures refusal.Some? ==> SelectorFault(codec, selector, refusal.value)
  {
    hide CheckCell, Sort, GoodEquality, EqualityFault;
    eqs := Sort(selector.equalities, ByColumn());
    OrderedColumns(selector);
    if selector.relation >= |codec.registry| {
      return Some(RelationUnknown), eqs;
    }
    var schema := codec.registry[selector.relation];
    if |selector.equalities| > |schema.columns| {
      return Some(TooManyEqualities), eqs;
    }
    for i := 0 to |eqs|
      invariant forall k | 0 <= k < i :: GoodEquality(codec, schema, eqs[k])
      invariant forall k | 0 < k < i :: eqs[k - 1].column != eqs[k].column
    {
      assert eqs[i] in eqs;
      refusal := CheckEquality(codec, schema, eqs, i);
      if refusal.Some? {
        NeighboursSuffice(eqs[..i]);
        assert FirstFaultAt(codec, schema, eqs, i, refusal.value);
        return;
      }
    }
    NeighboursSuffice(eqs);
    refusal := None;
  }

  lemma NeighboursSuffice(eqs: seq<Equality>)
    requires forall i, j | 0 <= i < j < |eqs| :: eqs[i].column <= eqs[j].column
    requires forall k | 0 < k < |eqs| :: eqs[k - 1].column != eqs[k].column
    ensures DistinctColumns(eqs)
  {
    forall i, j | 0 <= i < j < |eqs| ensures eqs[i].column != eqs[j].column {
      assert eqs[j - 1].column != eqs[j].column;
    }
  }

  // ----- The index -----

  /** The index rows of one fact: its relation, and each of its cells. */
  function EntriesOf(codec: Codec, run: string, id: string, row: Row): set<Entry>
    requires ValidRow(codec.registry, row)
  {
    var schema := codec.registry[row.relation];
    {Entry(run, schema.name, -1, "", id)}
    + (set i | 0 <= i < |schema.columns| ::
         Entry(run, schema.name, i, codec.digest(schema.columns[i], row.cells[i]), id))
  }

  /** Ids are canonical fact ids and rows are valid, as publication checked. */
  predicate SoundFacts(codec: Codec, facts: map<string, Stored>) {
    && IsRegistry(codec.registry)
    && forall id <- facts :: id != "" && codec.isFactId(id) && ValidRow(codec.registry, facts[id].row)
  }

  function Current(bindings: set<(string, string)>, run: string): set<string> {
    set b | b in bindings && b.0 == run :: b.1
  }

  /** The index rows of one run are exactly those of the run's current facts. */
  ghost predicate IndexExact(codec: Codec, facts: map<string, Stored>, bindings: set<(string, string)>,
                             index: set<Entry>, run: string)
    requires SoundFacts(codec, facts)
  {
    && (forall id <- Current(bindings, run) :: id in facts)
    && forall e: Entry | e.run == run ::
         e in index <==> e.id in Current(bindings, run) && e in EntriesOf(codec, run, e.id, facts[e.id].row)
  }

  predicate Matches(row: Row, equalities: seq<Equality>) {
    forall e <- equalities :: e.column < |row.cells| && row.cells[e.column] == e.value
  }

  /** What a selector asks for. */
  predicate Selected(facts: map<string, Stored>, bindings: set<(string, string)>, run: string,
                     selector: Selector, id: string) {
    && id in Current(bindings, run) && id in facts
    && facts[id].row.relation == selector.relation && Matches(facts[id].row, selector.equalities)
  }

  function DrivingColumn(eqs: seq<Equality>): int {
    if eqs == [] then -1 else eqs[0].column
  }

  function DrivingDigest(codec: Codec, eqs: seq<Equality>): string {
    if eqs == [] then "" else codec.digest(eqs[0].domain, eqs[0].value)
  }

  /** The ids the index offers for a selector. */
  function Candidates(codec: Codec, index: set<Entry>, run: string, relation: string, eqs: seq<Equality>)
    : set<string>
  {
    set e | e in index && e.run == run && e.relation == relation
            && e.column == DrivingColumn(eqs) && e.digest == DrivingDigest(codec, eqs) :: e.id
  }

  /** The index offers every selected fact, and only current facts of the selected relation. */
  lemma CandidatesCover(codec: Codec, facts: map<string, Stored>, bindings: set<(string, string)>,
                        index: set<Entry>, run: string, selector: Selector, id: string)
    requires SoundFacts(codec, facts) && IndexExact(codec, facts, bindings, index, run)
    requires GoodSelector(codec, selector)
    ensures var candidates := Candidates(codec, index, run, codec.registry[selector.relation].name, Ordered(selector));
            && (id in candidates ==> id in Current(bindings, run) && facts[id].row.relation == selector.relation)
            && (Selected(facts, bindings, run, selector, id) ==> id in candidates)
  {
    hide CheckCells, CheckRange, Sort;
    var eqs, schema := Ordered(selector), codec.registry[selector.relation];
    OrderedColumns(selector);
    if Selected(facts, bindings, run, selector, id) {
      var e := Entry(run, schema.name, DrivingColumn(eqs), DrivingDigest(codec, eqs), id);
      if eqs != [] {
        assert eqs[0] in eqs && eqs[0] in selector.equalities;
      }
      assert e in EntriesOf(codec, run, id, facts[id].row);
      assert e in index;
    }
    if e :| e in index && e.run == run && e.relation == schema.name && e.id == id {
      assert e in EntriesOf(codec, run, id, facts[id].row);
    }
  }

  /** What is read for a selector: the current facts of the relation whose first cell asked for has its digest. */
  lemma CandidatesExactly(codec: Codec, facts: map<string, Stored>, bindings: set<(string, string)>,
                          index: set<Entry>, run: string, selector: Selector, id: string)
    requires SoundFacts(codec, facts) && IndexExact(codec, facts, bindings, index, run)
    requires GoodSelector(codec, selector)
    ensures id in Candidates(codec, index, run, codec.registry[selector.relation].name, Ordered(selector))
            <==> && id in Current(bindings, run) && id in facts && facts[id].row.relation == selector.relation
                 && forall e <- selector.equalities :: LeastColumn(selector, e) ==> SameDigest(codec, facts[id].row, e)
  {
    hide CheckCells, CheckRange, Sort, SameDigest, Selected;
    CandidatesCover(codec, facts, bindings, index, run, selector, id);
    OrderedColumns(selector);
    var eqs, schema := Ordered(selector), codec.registry[selector.relation];
    if id in Current(bindings, run) && facts[id].row.relation == selector.relation {
      var row := facts[id].row;
      var e := Entry(run, schema.name, DrivingColumn(eqs), DrivingDigest(codec, eqs), id);
      assert id in Candidates(codec, index, run, schema.name, eqs) <==> e in index;
      assert e in index <==> e in EntriesOf(codec, run, id, row);
      if eqs == [] {
        assert selector.equalities == [];
      } else {
        FirstIsLeast(selector);
        CellEntry(codec, run, id, row, eqs[0]);
      }
    }
  }

  /** No other equality of the selector has a smaller column. */
  predicate LeastColumn(selector: Selector, e: Equality) {
    forall other <- selector.equalities :: e.column <= other.column
  }

  predicate SameDigest(codec: Codec, row: Row, e: Equality) {
    e.column < |row.cells| && codec.digest(e.domain, row.cells[e.column]) == codec.digest(e.domain, e.value)
  }

  lemma FirstIsLeast(selector: Selector)
    requires selector.equalities != [] && DistinctColumns(selector.equalities)
    ensures var eqs := Ordered(selector);
            eqs != [] && forall e <- selector.equalities :: LeastColumn(selector, e) <==> e == eqs[0]
  {
    hide Ordered;
    OrderedColumns(selector);
    var eqs := Ordered(selector);
    assert eqs[0] in eqs;
    forall e <- selector.equalities ensures eqs[0].column <= e.column && (e != eqs[0] ==> eqs[0].column != e.column) {
      var i :| 0 <= i < |eqs| && eqs[i] == e;
    }
  }

  lemma CellEntry(codec: Codec, run: string, id: string, row: Row, e: Equality)
    requires IsRegistry(codec.registry) && ValidRow(codec.registry, row)
    requires GoodEquality(codec, codec.registry[row.relation], e)
    ensures var entry := Entry(run, codec.registry[row.relation].name, e.column, codec.digest(e.domain, e.value), id);
            entry in EntriesOf(codec, run, id, row) <==> SameDigest(codec, row, e)
  {
    hide CheckCells, CheckRange;
  }

  /** The least id after `after`, as an ascending index scan with limit one gives it. */
  method Seek(ids: set<string>, after: string) returns (next: Option<string>)
    ensures next.None? ==> forall id <- ids :: !LexLess(after, id)
    ensures next.Some? ==> next.value in ids && LexLess(after, next.value)
    ensures next.Some? ==> forall id <- ids | LexLess(after, id) :: LexLeq(next.value, id)
  {
    hide LexLeq, LexLess;
    next := None;
    var rest := ids;
    while rest != {}
      invariant rest <= ids
      invariant next.None? ==> forall id <- ids - rest :: !LexLess(after, id)
      invariant next.Some? ==> next.value in ids && LexLess(after, next.value)
      invariant next.Some? ==> forall id <- ids - rest | LexLess(after, id) :: LexLeq(next.value, id)
      decreases |rest|
    {
      var id :| id in rest;
      if LexLess(after, id) {
        LexReflexive(id);
        if next.Some? {
          LexTotal(next.value, id);
        }
        if next.None? {
          next := Some(id);
        } else if LexLeq(id, next.value) {
          forall other <- ids - rest | LexLess(after, other) ensures LexLeq(id, other) {
            LexTransitive(id, next.value, other);
          }
          next := Some(id);
        }
      }
      rest := rest - {id};
    }
  }

  // ----- Pages -----

  predicate GoodRequest(codec: Codec, snapshot: string, selector: Selector, request: Request) {
    && snapshot != ""
    && 0 < request.limit <= MAX_PAGE_ROWS && request.maxExamined > 0 && request.maxBytes > 0
    && GoodSelector(codec, selector)
    && (request.after.Some? ==>
          && request.after.value.snapshot == snapshot
          && request.after.value.selector == codec.selectorDigest(selector.relation, Ordered(selector))
          && request.after.value.version == ORDERING_VERSION
          && codec.isFactId(request.after.value.last))
  }

  predicate GoodLimits(request: Request) {
    0 < request.limit <= MAX_PAGE_ROWS && request.maxExamined > 0 && request.maxBytes > 0
  }

  /** The first thing wrong with a request: its snapshot, its limits, its selector, its cursor. */
  predicate RequestFault(codec: Codec, snapshot: string, selector: Selector, request: Request, reason: Refusal) {
    if snapshot == "" then reason == NoSnapshot
    else if !GoodLimits(request) then reason == BadLimits
    else if !GoodSelector(codec, selector) then SelectorFault(codec, selector, reason)
    else
      && request.after.Some?
      && var cursor := request.after.value;
         if cursor.snapshot == snapshot && cursor.version == ORDERING_VERSION
            && cursor.selector == codec.selectorDigest(selector.relation, Ordered(selector))
         then !codec.isFactId(cursor.last) && reason == BadCursorKey
         else reason == CursorMismatch
  }

  function Start(request: Request): string {
    if request.after.Some? then request.after.value.last else ""
  }

  /** How far a page has read. */
  function Frontier(request: Request, page: Page): string {
    if page.continuation.Some? then page.continuation.value.last else Start(request)
  }

  /** The ids up to a frontier. */
  function Passed(ids: set<string>, frontier: string): set<string> {
    set id | id in ids && LexLeq(id, frontier)
  }

  /** The ids after `low`, up to `high`. */
  function Within(ids: set<string>, low: string, high: string): set<string> {
    set id | id in ids && LexLess(low, id) && LexLeq(id, high)
  }

  function Beyond(ids: set<string>, low: string): set<string> {
    set id | id in ids && LexLess(low, id)
  }

  lemma NoneWithin(ids: set<string>, low: string)
    ensures Within(ids, low, low) == {}
  {
    hide LexLeq;
    forall id <- ids ensures !(LexLess(low, id) && LexLeq(id, low)) {
      if LexLeq(low, id) && LexLeq(id, low) {
        LexAntisymmetric(low, id);
      }
    }
  }

  lemma WithinNext(ids: set<string>, low: string, after: string, id: string)
    requires id in ids && LexLeq(low, after) && LexLess(after, id)
    requires forall other <- ids | LexLess(after, other) :: LexLeq(id, other)
    ensures |Within(ids, low, id)| == |Within(ids, low, after)| + 1
  {
    hide LexLeq;
    LessEqualLess(low, after, id);
    LexReflexive(id);
    forall other <- ids
      ensures LexLess(low, other) && LexLeq(other, id) <==> other == id || (LexLess(low, other) && LexLeq(other, after))
    {
      Splits(low, after, id, other);
      if other != id && LexLess(after, other) && LexLeq(other, id) {
        LexAntisymmetric(other, id);
      }
    }
    assert id !in Within(ids, low, after) by {
      if LexLeq(id, after) {
        LexAntisymmetric(id, after);
      }
    }
    assert Within(ids, low, id) == Within(ids, low, after) + {id};
  }

  lemma WithinAll(ids: set<string>, low: string, after: string)
    requires forall id <- ids :: !LexLess(after, id)
    ensures Within(ids, low, after) == Beyond(ids, low)
  {
    hide LexLeq;
    forall id <- ids ensures LexLeq(id, after) {
      LexTotal(id, after);
      LexReflexive(id);
    }
  }

  /** Every candidate read counts as examined, and so does one that is held back. */
  predicate Counted(candidates: set<string>, request: Request, page: Page) {
    if page.exhausted then page.examined == |Beyond(candidates, Start(request))|
    else
      page.examined ==
      |Within(candidates, Start(request), Frontier(request, page))| + if page.workExhausted then 0 else 1
  }

  lemma PassedWithin(ids: set<string>, frontier: string)
    ensures |Passed(ids, frontier)| <= |ids|
  {
    SubsetSize(Passed(ids, frontier), ids);
  }

  lemma PassedGrows(ids: set<string>, frontier: string, next: string)
    requires LexLess(frontier, next) && next in ids
    ensures |Passed(ids, frontier)| < |Passed(ids, next)|
  {
    hide LexLeq;
    LexReflexive(next);
    var before := Passed(ids, frontier);
    forall id <- before ensures LexLeq(id, next) {
      LexTransitive(id, frontier, next);
    }
    assert next !in before by {
      if LexLeq(next, frontier) {
        LexAntisymmetric(next, frontier);
      }
    }
    SubsetSize(before + {next}, Passed(ids, next));
  }

  predicate Ascending(facts: seq<Found>) {
    forall i, j | 0 <= i < j < |facts| :: LexLess(facts[i].id, facts[j].id)
  }

  predicate Holds(facts: seq<Found>, id: string) {
    exists f <- facts :: f.id == id
  }

  /** In ascending order, exactly the wanted ids after `low` and up to `high`. */
  ghost predicate Lists(facts: seq<Found>, wanted: iset<string>, low: string, high: string) {
    && Ascending(facts)
    && forall id :: Holds(facts, id) <==> id in wanted && LexLess(low, id) && LexLeq(id, high)
  }

  /** In ascending order, exactly the wanted ids after `low`. */
  ghost predicate ListsAll(facts: seq<Found>, wanted: iset<string>, low: string) {
    Ascending(facts) && forall id :: Holds(facts, id) <==> id in wanted && LexLess(low, id)
  }

  /** Stepping over one candidate, which is listed when it is wanted. */
  lemma ListsNext(facts: seq<Found>, wanted: iset<string>, low: string, high: string, next: Found)
    requires Lists(facts, wanted, low, high) && LexLeq(low, high) && LexLess(high, next.id)
    requires forall id | id in wanted && LexLess(high, id) :: LexLeq(next.id, id)
    ensures next.id in wanted ==> Lists(facts + [next], wanted, low, next.id)
    ensures next.id !in wanted ==> Lists(facts, wanted, low, next.id)
  {
    hide LexLeq;
    forall id ensures (LexLess(low, id) && LexLeq(id, next.id) && id in wanted) <==>
                      (LexLess(low, id) && LexLeq(id, high) && id in wanted) || (id == next.id && id in wanted)
    {
      Between(low, high, next.id, id);
    }
    if next.id in wanted {
      var more := facts + [next];
      forall i | 0 <= i < |facts| ensures LexLess(facts[i].id, next.id) {
        assert Holds(facts, facts[i].id);
        LessEqualLess(facts[i].id, high, next.id);
      }
      forall id ensures Holds(more, id) <==> Holds(facts, id) || id == next.id {
        if id == next.id {
          assert more[|facts|].id == id;
        }
      }
    }
  }

  /** Where an id stands against a frontier that moves from `high` to `next`. */
  lemma Between(low: string, high: string, next: string, id: string)
    requires LexLeq(low, high) && LexLess(high, next)
    ensures LexLeq(id, high) ==> LexLeq(id, next)
    ensures LexLeq(id, next) && !LexLeq(id, high) ==> LexLess(high, id)
    ensures LexLeq(id, next) && LexLeq(next, id) ==> id == next
    ensures LexLess(low, next) && LexLeq(next, next)
  {
    LexReflexive(next);
    LexTotal(id, high);
    LessEqualLess(low, high, next);
    if LexLeq(id, high) {
      LexTransitive(id, high, next);
    }
    if LexLeq(id, next) && LexLeq(next, id) {
      LexAntisymmetric(id, next);
    }
    LexReflexive(high);
  }

  lemma ListsNothing(wanted: iset<string>, low: string)
    ensures Lists([], wanted, low, low)
  {
    forall id ensures !(LexLess(low, id) && LexLeq(id, low)) {
      if LexLeq(low, id) && LexLeq(id, low) {
        LexAntisymmetric(low, id);
      }
    }
  }

  /** With nothing wanted past the frontier, the listing is whole. */
  lemma ListsRest(facts: seq<Found>, wanted: iset<string>, low: string, high: string)
    requires Lists(facts, wanted, low, high) && forall id | id in wanted :: !LexLess(high, id)
    ensures ListsAll(facts, wanted, low)
  {
    forall id | id in wanted ensures LexLeq(id, high) {
      LexTotal(id, high);
      LexReflexive(high);
    }
  }

  /** Two listings that meet make one. */
  lemma ListsJoin(a: seq<Found>, b: seq<Found>, wanted: iset<string>, low: string, mid: string, high: string)
    requires Lists(a, wanted, low, mid) && LexLeq(low, mid) && LexLeq(mid, high)
    requires Lists(b, wanted, mid, high)
    ensures Lists(a + b, wanted, low, high)
  {
    hide LexLeq;
    AscendingJoin(a, b, wanted, low, mid, high);
    forall id ensures Holds(a + b, id) <==> id in wanted && LexLess(low, id) && LexLeq(id, high) {
      HoldsJoin(a, b, id);
      Splits(low, mid, high, id);
    }
  }

  lemma HoldsJoin(a: seq<Found>, b: seq<Found>, id: string)
    ensures Holds(a + b, id) <==> Holds(a, id) || Holds(b, id)
  {
    if f :| f in a && f.id == id {
      assert f in a + b;
    }
    if f :| f in b && f.id == id {
      assert f in a + b;
    }
  }

  lemma AscendingJoin(a: seq<Found>, b: seq<Found>, wanted: iset<string>, low: string, mid: string, high: string)
    requires Lists(a, wanted, low, mid) && Lists(b, wanted, mid, high)
    ensures Ascending(a + b)
  {
    hide LexLeq, LexLess;
    forall i, j | 0 <= i < |a| && 0 <= j < |b| ensures LexLess(a[i].id, b[j].id) {
      assert Holds(a, a[i].id) && Holds(b, b[j].id);
      LessEqualLess(a[i].id, mid, b[j].id);
    }
  }

  lemma Splits(low: string, mid: string, high: string, id: string)
    requires LexLeq(low, mid) && LexLeq(mid, high)
    ensures (LexLess(low, id) && LexLeq(id, high)) <==>
            (LexLess(low, id) && LexLeq(id, mid)) || (LexLess(mid, id) && LexLeq(id, high))
  {
    LexTotal(id, mid);
    LexReflexive(mid);
    if LexLeq(id, mid) {
      LexTransitive(id, mid, high);
    }
    if LexLess(mid, id) {
      LessEqualLess(low, mid, id);
    }
  }

  const UINT64_MAX := 0xFFFF_FFFF_FFFF_FFFF

  function BytesOf(facts: map<string, Stored>, page: seq<Found>): nat {
    if page == [] then 0
    else
      var last := page[|page| - 1];
      BytesOf(facts, page[..|page| - 1]) + (if last.id in facts then facts[last.id].bytes else 0)
  }

  /** Every limit of the request is kept, and the reported size is that of the facts returned. */
  predicate WithinLimits(facts: map<string, Stored>, request: Request, page: Page) {
    && |page.facts| <= request.limit && page.examined <= request.maxExamined
    && page.outputBytes == BytesOf(facts, page.facts) <= request.maxBytes
    && (forall f <- page.facts :: f.id in facts && facts[f.id].row == f.row)
  }

  lemma BytesOfNext(facts: map<string, Stored>, page: seq<Found>, next: Found)
    requires next.id in facts
    ensures BytesOf(facts, page + [next]) == BytesOf(facts, page) + facts[next.id].bytes
  {
    assert (page + [next])[..|page|] == page;
  }

  lemma MatchesOrdered(selector: Selector, row: Row)
    ensures Matches(row, Ordered(selector)) <==> Matches(row, selector.equalities)
  {
    hide Ordered;
    OrderedColumns(selector);
  }

  lemma CursorGood(codec: Codec, snapshot: string, selector: Selector, request: Request, id: string)
    requires GoodRequest(codec, snapshot, selector, request) && codec.isFactId(id)
    ensures var digest := codec.selectorDigest(selector.relation, Ordered(selector));
            GoodRequest(codec, snapshot, selector,
                        request.(after := Some(Cursor(snapshot, digest, ORDERING_VERSION, id))))
  {
    hide GoodSelector, Ordered;
  }

  /** What one candidate does to a page. */
  datatype Step = Advance(page: Page) | Stop(page: Page) | Fail(reason: Refusal)

  class FactStore {
    const codec: Codec
    var facts: map<string, Stored>
    var bindings: set<(string, string)>
    var index: set<Entry>

    ghost predicate Valid()
      reads this
    {
      SoundFacts(codec, facts) && forall b <- bindings :: b.1 != ""
    }

    ghost predicate Exact(run: string)
      requires Valid()
      reads this
    {
      IndexExact(codec, facts, bindings, index, run)
    }

    ghost function Wanted(run: string, selector: Selector): iset<string>
      reads this
    {
      iset id | Selected(facts, bindings, run, selector, id)
    }

    /** The checks made before any candidate is read. */
    method CheckRequest(snapshot: string, selector: Selector, request: Request)
      returns (refusal: Option<Refusal>, eqs: seq<Equality>)
      ensures eqs == Ordered(selector)
      ensures refusal.None? <==> GoodRequest(codec, snapshot, selector, request)
      ensures refusal.Some? ==> RequestFault(codec, snapshot, selector, request, refusal.value)
    {
      hide GoodSelector, Ordered, SelectorFault;
      refusal, eqs := CheckSelector(codec, selector);
      if snapshot == "" {
        return Some(NoSnapshot), eqs;
      }
      if request.limit == 0 || request.limit > MAX_PAGE_ROWS || request.maxExamined == 0 || request.maxBytes == 0 {
        return Some(BadLimits), eqs;
      }
      if refusal.Some? {
        return;
      }
      if request.after.Some? {
        var cursor := request.after.value;
        if cursor.snapshot != snapshot || cursor.version != ORDERING_VERSION
           || cursor.selector != codec.selectorDigest(selector.relation, eqs) {
          return Some(CursorMismatch), eqs;
        }
        if !codec.isFactId(cursor.last) {
          return Some(BadCursorKey), eqs;
        }
      }
    }

    /** Reads one candidate and checks it against the whole selector, the limits, and the run's bindings. */
    method TakeCandidate(run: string, selector: Selector, eqs: seq<Equality>, request: Request, page: Page,
                         id: string) returns (step: Step)
      requires eqs == Ordered(selector) && WithinLimits(facts, request, page)
      ensures id in Current(bindings, run) && id in facts && facts[id].row.relation == selector.relation ==>
                step.Fail? ==> step.reason == ByteOverflow
      ensures step == Fail(ByteOverflow) ==> id in facts && page.outputBytes + facts[id].bytes > UINT64_MAX
      ensures step == Fail(FactMissing) <==> id !in facts
      ensures step == Fail(RelationDisagrees) <==> id in facts && facts[id].row.relation != selector.relation
      ensures step.Fail? ==> step.reason in {FactMissing, RelationDisagrees, ByteOverflow, BindingMissing}
      ensures step == Fail(BindingMissing) ==> (run, id) !in bindings
      ensures step.Advance? ==>
                && WithinLimits(facts, request, step.page) && id in facts
                && step.page == page.(facts := step.page.facts, outputBytes := step.page.outputBytes)
                && step.page.facts == page.facts + if Selected(facts, bindings, run, selector, id)
                                                   then [Found(id, facts[id].row)] else []
      ensures step.Stop? ==>
                && id in facts && facts[id].row.relation == selector.relation
                && Matches(facts[id].row, selector.equalities)
                && step.page == page.(requiredBytes := step.page.requiredBytes)
                && (if |page.facts| == request.limit then step.page == page
                    else step.page.requiredBytes == page.outputBytes + facts[id].bytes > request.maxBytes)
    {
      hide Ordered, Matches, BytesOf;
      if id !in facts {
        return Fail(FactMissing);
      }
      var stored := facts[id];
      if stored.row.relation != selector.relation {
        return Fail(RelationDisagrees);
      }
      MatchesOrdered(selector, stored.row);
      if Matches(stored.row, eqs) {
        if |page.facts| == request.limit {
          return Stop(page);
        }
        if stored.bytes > request.maxBytes - page.outputBytes {
          if stored.bytes > UINT64_MAX - page.outputBytes {
            return Fail(ByteOverflow);
          }
          return Stop(page.(requiredBytes := page.outputBytes + stored.bytes));
        }
        if (run, id) !in bindings {
          return Fail(BindingMissing);
        }
        assert (run, id).1 in Current(bindings, run);
        var found := Found(id, stored.row);
        BytesOfNext(facts, page.facts, found);
        return Advance(page.(facts := page.facts + [found], outputBytes := page.outputBytes + stored.bytes));
      }
      return Advance(page);
    }

    /** The next wanted fact, which the row limit or the byte limit keeps off the page. */
    ghost predicate HeldBack(run: string, selector: Selector, request: Request, page: Page, id: string)
      reads this
    {
      && id in Wanted(run, selector) && LexLess(Frontier(request, page), id)
      && (forall other | other in Wanted(run, selector) && LexLess(Frontier(request, page), other) ::
            LexLeq(id, other))
      && if page.requiredBytes == 0 then |page.facts| == request.limit
         else page.requiredBytes == page.outputBytes + facts[id].bytes > request.maxBytes
    }

    /** What a page owes its reader, given an index that is exact for the run. */
    ghost predicate Delivers(run: string, selector: Selector, request: Request, page: Page)
      reads this
    {
      if page.exhausted then ListsAll(page.facts, Wanted(run, selector), Start(request))
      else
        && Lists(page.facts, Wanted(run, selector), Start(request), Frontier(request, page))
        && LexLeq(Start(request), Frontier(request, page))
        && (page.requiredBytes == 0 ==> LexLess(Start(request), Frontier(request, page)))
        && (request.after.Some? ==> page.continuation.Some?)
        && (Frontier(request, page) == Start(request) || Frontier(request, page) in Current(bindings, run))
        && if page.workExhausted then page.examined == request.maxExamined && page.requiredBytes == 0
           else exists id :: HeldBack(run, selector, request, page, id)
    }

    /** Every wanted id is a candidate, and every candidate is readable. */
    ghost predicate Offers(run: string, selector: Selector, candidates: set<string>)
      reads this
    {
      && (forall id | id in Wanted(run, selector) :: id in candidates)
      && (forall id <- candidates ::
            && id in Current(bindings, run) && id in facts && codec.isFactId(id)
            && facts[id].row.relation == selector.relation)
    }

    lemma IndexOffers(run: string, selector: Selector)
      requires Valid() && Exact(run) && GoodSelector(codec, selector)
      ensures Offers(run, selector,
                     Candidates(codec, index, run, codec.registry[selector.relation].name, Ordered(selector)))
    {
      hide Candidates, EntriesOf, Ordered, Selected;
      var name := codec.registry[selector.relation].name;
      forall id
        ensures id in Wanted(run, selector) ==> id in Candidates(codec, index, run, name, Ordered(selector))
        ensures id in Candidates(codec, index, run, name, Ordered(selector)) ==>
                  id in Current(bindings, run) && facts[id].row.relation == selector.relation
      {
        CandidatesCover(codec, facts, bindings, index, run, selector, id);
      }
    }

    lemma OffersRest(run: string, selector: Selector, candidates: set<string>, facts: seq<Found>, low: string,
                     after: string)
      requires Offers(run, selector, candidates) && Lists(facts, Wanted(run, selector), low, after)
      requires forall id <- candidates :: !LexLess(after, id)
      ensures ListsAll(facts, Wanted(run, selector), low)
    {
      hide Lists, ListsAll, LexLess, Selected;
      ListsRest(facts, Wanted(run, selector), low, after);
    }

    lemma OffersReadable(run: string, selector: Selector, candidates: set<string>, id: string)
      requires Offers(run, selector, candidates) && id in candidates
      ensures id in Current(bindings, run) && id in facts && codec.isFactId(id)
      ensures facts[id].row.relation == selector.relation
    {}

    /** Stepping over the least candidate after the frontier. */
    lemma StepDelivers(run: string, selector: Selector, candidates: set<string>, before: seq<Found>,
                       facts: seq<Found>, low: string, after: string, id: string)
      requires Offers(run, selector, candidates) && id in candidates
      requires Lists(before, Wanted(run, selector), low, after) && LexLeq(low, after) && LexLess(after, id)
      requires forall other <- candidates | LexLess(after, other) :: LexLeq(id, other)
      requires facts == before + if Selected(this.facts, bindings, run, selector, id)
                                 then [Found(id, this.facts[id].row)] else []
      ensures Lists(facts, Wanted(run, selector), low, id) && LexLess(low, id)
    {
      hide Lists, LexLeq, Selected;
      LessEqualLess(low, after, id);
      ListsNext(before, Wanted(run, selector), low, after, Found(id, this.facts[id].row));
      assert before + [] == before;
    }

    /** The state between two candidates. */
    ghost predicate Reading(run: string, snapshot: string, selector: Selector, request: Request,
                            candidates: set<string>, page: Page, after: string)
      reads this
    {
      && WithinLimits(facts, request, page) && |page.facts| <= page.examined
      && page.examined == |Within(candidates, Start(request), after)|
      && !page.exhausted && !page.workExhausted && page.requiredBytes == 0 && after == Frontier(request, page)
      && LexLeq(Start(request), after) && (request.after.Some? ==> page.continuation.Some?)
      && (Offers(run, selector, candidates) ==>
            && (page.examined > 0 ==> LexLess(Start(request), after))
            && (after == Start(request) || after in Current(bindings, run))
            && Lists(page.facts, Wanted(run, selector), Start(request), after)
            && GoodRequest(codec, snapshot, selector, request.(after := page.continuation)))
    }

    /** What a finished page satisfies. */
    ghost predicate Answers(run: string, snapshot: string, selector: Selector, request: Request,
                            candidates: set<string>, page: Page)
      reads this
    {
      && WithinLimits(facts, request, page) && Counted(candidates, request, page)
      && (Offers(run, selector, candidates) ==>
            && Delivers(run, selector, request, page)
            && GoodRequest(codec, snapshot, selector, request.(after := page.continuation)))
    }

    lemma ReadingStarts(run: string, snapshot: string, selector: Selector, request: Request,
                        candidates: set<string>)
      requires GoodRequest(codec, snapshot, selector, request)
      ensures Reading(run, snapshot, selector, request, candidates,
                      Page([], request.after, false, false, 0, 0, 0), Start(request))
    {
      hide Lists, Offers, Wanted, GoodSelector, Ordered;
      ListsNothing(Wanted(run, selector), Start(request));
      NoneWithin(candidates, Start(request));
      LexReflexive(Start(request));
      assert request.(after := request.after) == request;
    }

    lemma ReadingEnds(run: string, snapshot: string, selector: Selector, request: Request,
                      candidates: set<string>, page: Page, after: string)
      requires GoodRequest(codec, snapshot, selector, request)
      requires Reading(run, snapshot, selector, request, candidates, page, after)
      requires forall id <- candidates :: !LexLess(after, id)
      ensures Answers(run, snapshot, selector, request, candidates, page.(exhausted := true, continuation := None))
    {
      hide Lists, ListsAll, Offers, Wanted, GoodSelector, Ordered, LexLeq;
      WithinAll(candidates, Start(request), after);
      if Offers(run, selector, candidates) {
        OffersRest(run, selector, candidates, page.facts, Start(request), after);
      }
    }

    /** Stopping at the work limit. */
    lemma ReadingSpent(run: string, snapshot: string, selector: Selector, request: Request,
                       candidates: set<string>, page: Page, after: string)
      requires Reading(run, snapshot, selector, request, candidates, page, after)
      requires 0 < request.maxExamined == page.examined
      ensures Answers(run, snapshot, selector, request, candidates, page.(workExhausted := true))
    {
      hide Lists, Offers, Wanted, GoodSelector, Ordered, LexLeq, BytesOf, HeldBack;
    }

    /** Stopping at a match that a limit holds back. */
    lemma ReadingStops(run: string, snapshot: string, selector: Selector, request: Request,
                       candidates: set<string>, page: Page, after: string, stopped: Page, id: string)
      requires Reading(run, snapshot, selector, request, candidates, page, after)
      requires id in candidates && LexLess(after, id) && id in facts
      requires forall other <- candidates | LexLess(after, other) :: LexLeq(id, other)
      requires stopped == page.(examined := page.examined + 1, requiredBytes := stopped.requiredBytes)
      requires stopped.examined <= request.maxExamined && 0 < request.limit
      requires facts[id].row.relation == selector.relation && Matches(facts[id].row, selector.equalities)
      requires if stopped.requiredBytes == 0 then |page.facts| == request.limit
               else stopped.requiredBytes == page.outputBytes + facts[id].bytes > request.maxBytes
      ensures Answers(run, snapshot, selector, request, candidates, stopped)
    {
      hide Lists, Offers, Wanted, GoodSelector, Ordered, LexLeq, BytesOf, Matches;
      if Offers(run, selector, candidates) {
        OffersReadable(run, selector, candidates, id);
        NextWanted(run, selector, candidates, after, id);
        assert HeldBack(run, selector, request, stopped, id);
      }
    }

    /** The least candidate after the frontier, when it matches, is the next wanted fact. */
    lemma NextWanted(run: string, selector: Selector, candidates: set<string>, after: string, id: string)
      requires Offers(run, selector, candidates) && id in candidates
      requires Matches(facts[id].row, selector.equalities)
      requires forall other <- candidates | LexLess(after, other) :: LexLeq(id, other)
      ensures id in Wanted(run, selector)
      ensures forall other | other in Wanted(run, selector) && LexLess(after, other) :: LexLeq(id, other)
    {
      hide LexLess, LexLeq, Matches;
    }

    lemma ReadingAdvances(run: string, snapshot: string, selector: Selector, request: Request,
                          candidates: set<string>, page: Page, after: string, advanced: Page, id: string)
      requires GoodRequest(codec, snapshot, selector, request)
      requires Reading(run, snapshot, selector, request, candidates, page, after)
      requires id in candidates && LexLess(after, id) && id in facts
      requires forall other <- candidates | LexLess(after, other) :: LexLeq(id, other)
      requires advanced == page.(examined := page.examined + 1, facts := advanced.facts,
                                 outputBytes := advanced.outputBytes)
      requires WithinLimits(facts, request, advanced)
      requires advanced.facts == page.facts + if Selected(facts, bindings, run, selector, id)
                                              then [Found(id, facts[id].row)] else []
      ensures var digest := codec.selectorDigest(selector.relation, Ordered(selector));
              var cursor := Cursor(snapshot, digest, ORDERING_VERSION, id);
              Reading(run, snapshot, selector, request, candidates, advanced.(continuation := Some(cursor)), id)
    {
      hide Lists, Offers, Wanted, GoodSelector, Ordered, LexLeq, BytesOf, Selected;
      LessEqualLess(Start(request), after, id);
      WithinNext(candidates, Start(request), after, id);
      if Offers(run, selector, candidates) {
        OffersReadable(run, selector, candidates, id);
        CursorGood(codec, snapshot, selector, request, id);
        StepDelivers(run, selector, candidates, page.facts, advanced.facts, Start(request), after, id);
      }
    }

    /** Reads candidates in ascending order until a limit or the end. */
    method Scan(run: string, snapshot: string, selector: Selector, eqs: seq<Equality>, request: Request,
                candidates: set<string>) returns (answer: Answer)
      requires GoodRequest(codec, snapshot, selector, request) && eqs == Ordered(selector)
      ensures Offers(run, selector, candidates) ==> answer.Read? || answer.reason == ByteOverflow
      ensures answer.Read? ==> Answers(run, snapshot, selector, request, candidates, answer.page)
    {
      hide LexLeq, LexLess, Selected, Ordered, Offers, Wanted, Answers, GoodSelector, Lists, BytesOf, Delivers;
      var selectorDigest := codec.selectorDigest(selector.relation, eqs);
      var after := Start(request);
      var page := Page([], request.after, false, false, 0, 0, 0);
      ReadingStarts(run, snapshot, selector, request, candidates);
      while page.examined < request.maxExamined
        invariant Reading(run, snapshot, selector, request, candidates, page, after)
        decreases request.maxExamined - page.examined
      {
        var next := Seek(candidates, after);
        if next.None? {
          ReadingEnds(run, snapshot, selector, request, candidates, page, after);
          return Read(page.(exhausted := true, continuation := None));
        }
        var id := next.value;
        if Offers(run, selector, candidates) {
          OffersReadable(run, selector, candidates, id);
        }
        var step := TakeCandidate(run, selector, eqs, request, page.(examined := page.examined + 1), id);
        match step {
          case Fail(reason) => return Refused(reason);
          case Stop(stopped) =>
            ReadingStops(run, snapshot, selector, request, candidates, page, after, stopped, id);
            return Read(stopped);
          case Advance(advanced) =>
            ReadingAdvances(run, snapshot, selector, request, candidates, page, after, advanced, id);
            after := id;
            page := advanced.(continuation := Some(Cursor(snapshot, selectorDigest, ORDERING_VERSION, id)));
        }
      }
      ReadingSpent(run, snapshot, selector, request, candidates, page, after);
      answer := Read(page.(workExhausted := true));
    }

    /**
     * One page: candidates in ascending order of id, each checked against the whole selector. It stops at the
     * first match it may not return, at the work limit, or at the end.
     */
    method ReadFacts(run: string, snapshot: string, selector: Selector, request: Request) returns (answer: Answer)
      requires Valid()
      ensures !GoodRequest(codec, snapshot, selector, request) ==>
                answer.Refused? && RequestFault(codec, snapshot, selector, request, answer.reason)
      ensures GoodRequest(codec, snapshot, selector, request) && Exact(run) ==>
                answer.Read? || answer.reason == ByteOverflow
      ensures answer.Read? ==> WithinLimits(facts, request, answer.page)
      ensures answer.Read? ==>
                && selector.relation < |codec.registry|
                && Counted(Candidates(codec, index, run, codec.registry[selector.relation].name, Ordered(selector)),
                           request, answer.page)
      ensures answer.Read? && Exact(run) ==>
                && Delivers(run, selector, request, answer.page)
                && GoodRequest(codec, snapshot, selector, request.(after := answer.page.continuation))
    {
      hide SoundFacts, IndexExact, WithinLimits, Delivers, Offers;
      var refusal, eqs := CheckRequest(snapshot, selector, request);
      if refusal.Some? {
        return Refused(refusal.value);
      }
      var name := codec.registry[selector.relation].name;
      if Exact(run) {
        IndexOffers(run, selector);
      }
      answer := Scan(run, snapshot, selector, eqs, request, Candidates(codec, index, run, name, eqs));
    }

    /**
     * A chain of pages, each taking up where the one before left off, with whatever limits each asks for.
     * Read to the end it returns every wanted fact once, in ascending order, and unless the byte limit stops
     * a page, a page for each current fact and one more is enough to get there.
     */
    method ReadChain(run: string, snapshot: string, selector: Selector, requests: seq<Request>)
      returns (found: seq<Found>, refusal: Option<Refusal>, exhausted: bool, stalled: bool, frontier: string)
      requires Valid() && Exact(run)
      requires forall r <- requests :: GoodRequest(codec, snapshot, selector, r)
      ensures refusal.None? || refusal == Some(ByteOverflow)
      ensures exhausted ==> Ascending(found) && forall id :: Holds(found, id) <==> id in Wanted(run, selector)
      ensures !exhausted ==> Lists(found, Wanted(run, selector), "", frontier)
      ensures refusal.None? && !stalled && |requests| > |Current(bindings, run)| ==> exhausted
    {
      hide SoundFacts, IndexExact, Lists, ListsAll, GoodSelector, LexLeq, WithinLimits, Holds, Selected, Ordered;
      hide Ascending, HeldBack, Passed;
      found, refusal, exhausted, stalled, frontier := [], None, false, false, "";
      ListsNothing(Wanted(run, selector), "");
      LexReflexive("");
      var cursor: Option<Cursor> := None;
      for i := 0 to |requests|
        invariant refusal.None? && !exhausted
        invariant Lists(found, Wanted(run, selector), "", frontier) && LexLeq("", frontier)
        invariant frontier == if cursor.Some? then cursor.value.last else ""
        invariant forall r <- requests :: GoodRequest(codec, snapshot, selector, r.(after := cursor))
        invariant stalled || i <= |Passed(Current(bindings, run), frontier)|
      {
        var request := requests[i].(after := cursor);
        assert requests[i] in requests;
        var answer := ReadFacts(run, snapshot, selector, request);
        if answer.Refused? {
          refusal := Some(answer.reason);
          return;
        }
        var page := answer.page;
        if page.exhausted {
          ListsAllJoin(found, page.facts, Wanted(run, selector), "", frontier);
          WantedNamed(run, selector);
          ListsAllNamed(found + page.facts, Wanted(run, selector));
          found, exhausted := found + page.facts, true;
          return;
        }
        ListsJoin(found, page.facts, Wanted(run, selector), "", frontier, Frontier(request, page));
        LexTransitive("", frontier, Frontier(request, page));
        if page.requiredBytes > 0 {
          stalled := true;
        } else {
          PassedGrows(Current(bindings, run), frontier, Frontier(request, page));
        }
        found, frontier, cursor := found + page.facts, Frontier(request, page), page.continuation;
        forall r <- requests ensures GoodRequest(codec, snapshot, selector, r.(after := cursor)) {
          SameCursor(codec, snapshot, selector, request.(after := cursor), r);
        }
      }
      PassedWithin(Current(bindings, run), frontier);
    }

    // ----- Building the index -----

    /** Adds the index rows of one validated fact. */
    method AppendLookupFact(run: string, id: string, row: Row)
      requires ValidRow(codec.registry, row)
      modifies this`index
      ensures index == old(index) + EntriesOf(codec, run, id, row)
    {
      hide CheckCells, CheckRange;
      var schema := codec.registry[row.relation];
      index := index + {Entry(run, schema.name, -1, "", id)};
      ghost var base := index;
      for i := 0 to |schema.columns|
        invariant index == base + (set k | 0 <= k < i ::
                    Entry(run, schema.name, k, codec.digest(schema.columns[k], row.cells[k]), id))
      {
        index := index + {Entry(run, schema.name, i, codec.digest(schema.columns[i], row.cells[i]), id)};
      }
    }

    method ClearFactLookup(run: string)
      modifies this`index
      ensures forall e :: e in index <==> e in old(index) && e.run != run
    {
      index := set e | e in index && e.run != run;
    }

    /** The next current ids in ascending order, at most a page of them. */
    method CurrentFactKeys(run: string, after: string) returns (keys: seq<string>)
      ensures forall key <- keys :: key in Current(bindings, run) && LexLess(after, key)
      ensures forall i | 0 <= i < |keys| - 1 :: LexLess(keys[i], keys[i + 1])
      ensures keys == [] ==> forall id <- Current(bindings, run) :: !LexLess(after, id)
      ensures keys != [] ==> LexLess(after, keys[0])
      ensures keys != [] ==>
                forall id <- Current(bindings, run) | LexLess(after, id) && LexLeq(id, keys[|keys| - 1]) :: id in keys
      ensures |keys| <= MAX_PAGE_ROWS
      ensures |keys| < MAX_PAGE_ROWS ==> forall id <- Current(bindings, run) | LexLess(after, id) :: id in keys
    {
      hide LexLeq, LexLess;
      keys := [];
      var last := after;
      LexReflexive(after);
      NoneBetween(after);
      while |keys| < MAX_PAGE_ROWS
        invariant last == if keys == [] then after else keys[|keys| - 1]
        invariant forall key <- keys :: key in Current(bindings, run) && LexLess(after, key)
        invariant forall i | 0 <= i < |keys| - 1 :: LexLess(keys[i], keys[i + 1])
        invariant keys != [] ==> LexLess(after, keys[0])
        invariant LexLeq(after, last) && |keys| <= MAX_PAGE_ROWS
        invariant forall id <- Current(bindings, run) | LexLess(after, id) && LexLeq(id, last) :: id in keys
        decreases MAX_PAGE_ROWS - |keys|
      {
        var next := Seek(Current(bindings, run), last);
        if next.None? {
          NothingAfter(Current(bindings, run), last);
          return;
        }
        var id := next.value;
        forall other | LexLess(after, other) && LexLeq(other, id) && other in Current(bindings, run)
          ensures other in keys + [id]
        {
          Between(after, last, id, other);
        }
        Between(after, last, id, id);
        LessIsLeq(after, id);
        keys, last := keys + [id], id;
      }
    }

    /** The rows of `run` indexed so far are those of the ids in `done`; other runs are as they were. */
    ghost predicate Indexed(run: string, done: set<string>, before: set<Entry>)
      requires Valid() && forall id <- done :: id in facts
      reads this
    {
      && (forall e: Entry | e.run == run ::
            e in index <==> e.id in done && e in EntriesOf(codec, run, e.id, facts[e.id].row))
      && (forall e: Entry | e.run != run :: e in index <==> e in before)
    }

    /** Indexes one page of ids. A bound fact that cannot be read stops the rebuild. */
    method IndexPage(run: string, keys: seq<string>, ghost done: set<string>, ghost before: set<Entry>)
      returns (ok: bool)
      requires Valid() && (forall id <- done :: id in facts) && Indexed(run, done, before)
      modifies this`index
      ensures ok <==> forall key <- keys :: key in facts
      ensures ok ==> Indexed(run, done + Members(keys), before)
    {
      hide SoundFacts, EntriesOf, CheckRow;
      ok := true;
      assert done + Members(keys[..0]) == done;
      for i := 0 to |keys|
        invariant ok && forall k | 0 <= k < i :: keys[k] in facts
        invariant Indexed(run, done + Members(keys[..i]), before)
      {
        if keys[i] !in facts {
          return false;
        }
        ghost var indexed := done + Members(keys[..i]);
        StoredValid(keys[i]);
        AppendLookupFact(run, keys[i], facts[keys[i]].row);
        EntriesNamed(codec, run, keys[i], facts[keys[i]].row);
        assert keys[..i + 1] == keys[..i] + [keys[i]];
        assert done + Members(keys[..i + 1]) == indexed + {keys[i]};
      }
      assert keys[..|keys|] == keys;
    }

    lemma IndexedIsExact(run: string, before: set<Entry>)
      requires Valid() && (forall id <- Current(bindings, run) :: id in facts)
      requires Indexed(run, Current(bindings, run), before)
      ensures Exact(run) && forall e: Entry | e.run != run :: e in index <==> e in before
    {
      hide EntriesOf, SoundFacts;
    }

    lemma StoredValid(id: string)
      requires Valid() && id in facts
      ensures ValidRow(codec.registry, facts[id].row)
    {}

    /**
     * Rebuilds one run's index from its current bindings, page by page, inside a transaction: the result is
     * exact, or nothing changes.
     */
    method RebuildFactLookup(run: string, sealed: bool) returns (ok: bool)
      requires Valid()
      modifies this`index
      ensures Valid() && (ok <==> sealed && forall id <- Current(bindings, run) :: id in facts)
      ensures ok ==> Exact(run) && forall e: Entry | e.run != run :: e in index <==> e in old(index)
      ensures !ok ==> index == old(index)
    {
      hide SoundFacts, EntriesOf, LexLeq, LexLess, CheckRow;
      if !sealed {
        return false;
      }
      var saved := index;
      ClearFactLookup(run);
      var after := "";
      ghost var done: set<string> := {};
      ghost var current := Current(bindings, run);
      assert Indexed(run, done, saved);
      assert "" !in current;
      hide Indexed, Current;
      assert forall id <- current :: id in done <==> LexLeq(id, after) by { NamedAfterNothing(current); }
      while true
        invariant Valid() && done <= current && (forall id <- done :: id in facts) && Indexed(run, done, saved)
        invariant forall id <- current :: id in done <==> LexLeq(id, after)
        decreases current - done
      {
        var keys := CurrentFactKeys(run, after);
        if keys == [] {
          break;
        }
        ok := IndexPage(run, keys, done, saved);
        if !ok {
          index := saved;
          return;
        }
        PageAdvances(current, done, after, keys);
        ghost var rest := current - (done + Members(keys));
        assert keys[0] in keys && keys[0] in Members(keys) && keys[0] in current - done && keys[0] !in rest;
        assert rest < current - done;
        done := done + Members(keys);
        after := keys[|keys| - 1];
      }
      assert done == current by { AllDone(current, done, after); }
      IndexedIsExact(run, saved);
      ok := true;
    }

    lemma WantedNamed(run: string, selector: Selector)
      requires Valid()
      ensures forall id | id in Wanted(run, selector) :: id != "" && id in facts
    {}
  }

  lemma NothingAfter(ids: set<string>, last: string)
    requires forall id <- ids :: !LexLess(last, id)
    ensures forall id <- ids :: LexLeq(id, last)
  {
    hide LexLeq;
    forall id <- ids ensures LexLeq(id, last) {
      LexTotal(id, last);
      LexReflexive(id);
    }
  }

  lemma LessIsLeq(a: string, b: string)
    requires LexLess(a, b)
    ensures LexLeq(a, b)
  {}

  lemma NoneBetween(after: string)
    ensures forall id :: !(LexLess(after, id) && LexLeq(id, after))
  {
    forall id | LexLess(after, id) && LexLeq(id, after) ensures false {
      LexAntisymmetric(after, id);
    }
  }

  lemma NamedAfterNothing(ids: set<string>)
    requires "" !in ids
    ensures forall id <- ids :: !LexLeq(id, "")
  {}

  lemma AllDone(current: set<string>, done: set<string>, after: string)
    requires done <= current && forall id <- current :: id in done <==> LexLeq(id, after)
    requires forall id <- current :: !LexLess(after, id)
    ensures done == current
  {
    forall id <- current ensures id in done {
      LexTotal(id, after);
      LexReflexive(after);
    }
  }

  /** An ascending run of ids stays below its last. */
  lemma {:induction false} BelowLast(keys: seq<string>, i: nat)
    requires i < |keys| && forall k | 0 <= k < |keys| - 1 :: LexLess(keys[k], keys[k + 1])
    ensures LexLeq(keys[i], keys[|keys| - 1])
    decreases |keys| - i
  {
    LexReflexive(keys[i]);
    if i < |keys| - 1 {
      BelowLast(keys, i + 1);
      LexTransitive(keys[i], keys[i + 1], keys[|keys| - 1]);
    }
  }

  /** One page of ids moves the frontier from `after` to the page's last id. */
  lemma PageAdvances(current: set<string>, done: set<string>, after: string, keys: seq<string>)
    requires forall id <- current :: id in done <==> LexLeq(id, after)
    requires keys != [] && forall key <- keys :: key in current && LexLess(after, key)
    requires forall k | 0 <= k < |keys| - 1 :: LexLess(keys[k], keys[k + 1])
    requires forall id <- current | LexLess(after, id) && LexLeq(id, keys[|keys| - 1]) :: id in keys
    ensures forall id <- current :: id in done || id in keys <==> LexLeq(id, keys[|keys| - 1])
    ensures keys[0] !in done
  {
    hide LexLeq;
    var last := keys[|keys| - 1];
    assert keys[|keys| - 1] in keys && keys[0] in keys;
    forall id <- current ensures id in done || id in keys <==> LexLeq(id, last) {
      LexTotal(id, after);
      LexReflexive(after);
      if id in done {
        LexTransitive(id, after, last);
      } else if id in keys {
        var i :| 0 <= i < |keys| && keys[i] == id;
        BelowLast(keys, i);
      }
    }
    if LexLeq(keys[0], after) {
      LexAntisymmetric(keys[0], after);
    }
  }

  lemma EntriesNamed(codec: Codec, run: string, id: string, row: Row)
    requires ValidRow(codec.registry, row)
    ensures forall e <- EntriesOf(codec, run, id, row) :: e.run == run && e.id == id
  {}

  lemma SameCursor(codec: Codec, snapshot: string, selector: Selector, a: Request, b: Request)
    requires GoodRequest(codec, snapshot, selector, a) && GoodRequest(codec, snapshot, selector, b)
    ensures GoodRequest(codec, snapshot, selector, b.(after := a.after))
  {
    hide GoodSelector, Ordered;
  }

  lemma ListsAllNamed(facts: seq<Found>, wanted: iset<string>)
    requires ListsAll(facts, wanted, "") && forall id | id in wanted :: id != ""
    ensures Ascending(facts) && forall id :: Holds(facts, id) <==> id in wanted
  {}

  lemma ListsAllJoin(a: seq<Found>, b: seq<Found>, wanted: iset<string>, low: string, mid: string)
    requires Lists(a, wanted, low, mid) && ListsAll(b, wanted, mid) && LexLeq(low, mid)
    ensures ListsAll(a + b, wanted, low)
  {
    hide LexLeq;
    forall i, j | 0 <= i < |a| && 0 <= j < |b| ensures LexLess(a[i].id, b[j].id) {
      assert Holds(a, a[i].id) && Holds(b, b[j].id);
      LessEqualLess(a[i].id, mid, b[j].id);
    }
    forall id ensures Holds(a + b, id) <==> id in wanted && LexLess(low, id) {
      HoldsJoin(a, b, id);
      LexTotal(id, mid);
      LexReflexive(mid);
      if LexLess(mid, id) {
        LessEqualLess(low, mid, id);
      }
    }
  }
}
