/** The bounded union of several selectors' facts. */
module FactSelection {
  import opened Basics
  import opened Orders
  import opened FactIdentity
  import opened FactLookup

  datatype Reason = MaxFacts | MaxFactWork | MaxFactBytes

  const MAX_WORK := 100_000
  const MAX_BYTES := 1_048_576

  // ----- The smallest ids -----

  ghost function All(ids: set<string>): iset<string> {
    iset id | id in ids
  }

  /** Nothing of `all` below a member of `part` is left out. */
  ghost predicate Lowest(part: set<string>, all: iset<string>) {
    && (forall id <- part :: id in all)
    && forall id, other | id in part && other in all && LexLeq(other, id) :: other in part
  }

  /** The `limit` smallest of `all`, or all of them. */
  ghost predicate Smallest(part: set<string>, all: iset<string>, limit: nat) {
    && Lowest(part, all) && |part| <= limit
    && (|part| < limit ==> forall id | id in all :: id in part)
  }

  /** A part with `limit` members leaves out only larger ids. */
  lemma LeavesOutLarger(part: set<string>, all: iset<string>, limit: nat, out: string, member: string)
    requires Smallest(part, all, limit) && out in all && out !in part && member in part
    ensures |part| == limit && LexLess(member, out)
  {
    LexTotal(member, out);
  }

  /** `limit` members below `id` keep it out of the smallest. */
  lemma CrowdedOut(part: set<string>, all: iset<string>, limit: nat, crowd: set<string>, id: string)
    requires Smallest(part, all, limit) && |crowd| == limit
    requires forall c <- crowd :: c in all && LexLess(c, id)
    ensures id !in part
  {
    hide LexLeq;
    if id in part {
      assert forall c <- crowd :: LexLeq(c, id);
      assert crowd <= part - {id};
      SubsetSize(crowd, part - {id});
    }
  }

  /** The smallest of two unions can be taken from the smallest of each. */
  lemma SmallestOfUnion(f: set<string>, u: iset<string>, p: set<string>, w: iset<string>,
                        part: set<string>, limit: nat)
    requires Smallest(f, u, limit) && Smallest(p, w, limit)
    requires Smallest(part, All(f + p), limit)
    ensures Smallest(part, u + w, limit)
  {
    hide LexLeq;
    var both := All(f + p);
    forall id, other | id in part && other in u + w && LexLeq(other, id) ensures other in part {
      assert id in both;
      if other !in f + p {
        if other in u {
          KeptBelow(f, u, f + p, part, limit, id, other);
        } else {
          KeptBelow(p, w, f + p, part, limit, id, other);
        }
      } else {
        assert other in both;
      }
    }
    if |part| < limit {
      assert f + p <= part by {
        forall id <- f + p ensures id in part { assert id in both; }
      }
      SubsetSize(f, part);
      SubsetSize(p, part);
    }
  }

  /** An id left out of a full part lies above `limit` members, so nothing above it is kept. */
  lemma KeptBelow(f: set<string>, u: iset<string>, pool: set<string>, part: set<string>, limit: nat,
                  id: string, other: string)
    requires Smallest(f, u, limit) && f <= pool && Smallest(part, All(pool), limit)
    requires other in u && other !in f && LexLeq(other, id)
    ensures id !in part
  {
    hide LexLeq;
    forall member <- f ensures LexLess(member, id) {
      LeavesOutLarger(f, u, limit, other, member);
      LessLessEqual(member, other, id);
    }
    CrowdedOut(part, All(pool), limit, f, id);
  }

  function IdsOf(facts: seq<Found>): set<string> {
    set f | f in facts :: f.id
  }

  lemma {:induction false} AscendingSize(facts: seq<Found>)
    requires Ascending(facts)
    ensures |IdsOf(facts)| == |facts|
  {
    hide LexLeq;
    if facts == [] {
      assert IdsOf(facts) == {};
    } else {
      var rest, last := facts[..|facts| - 1], facts[|facts| - 1];
      assert facts == rest + [last];
      AscendingSize(rest);
      forall f <- rest ensures f.id != last.id {
        var i :| 0 <= i < |rest| && rest[i] == f;
        assert LexLess(facts[i].id, facts[|rest|].id);
      }
      assert IdsOf(facts) == IdsOf(rest) + {last.id};
    }
  }

  /** A page that is exhausted or full holds the smallest wanted ids. */
  lemma PageHoldsSmallest(facts: seq<Found>, wanted: iset<string>, limit: nat, high: string, exhausted: bool)
    requires |facts| <= limit && forall id | id in wanted :: id != ""
    requires exhausted ==> ListsAll(facts, wanted, "")
    requires !exhausted ==> Lists(facts, wanted, "", high) && |facts| == limit
    ensures Smallest(IdsOf(facts), wanted, limit)
    ensures forall id :: id in IdsOf(facts) <==> Holds(facts, id)
  {
    hide LexLeq;
    AscendingSize(facts);
    forall id | id in wanted && exhausted ensures id in IdsOf(facts) {
      EmptyBelow(id);
      assert Holds(facts, id);
    }
    forall id <- IdsOf(facts) ensures id in wanted {
      assert Holds(facts, id);
    }
    forall id, other | id in IdsOf(facts) && other in wanted && LexLeq(other, id) ensures other in IdsOf(facts) {
      assert Holds(facts, id);
      EmptyBelow(other);
      if !exhausted {
        LexTransitive(other, id, high);
      }
      assert Holds(facts, other);
    }
  }

  lemma EmptyBelow(id: string)
    ensures LexLeq("", id)
  {}

  /** Erases everything from the `limit`-th entry on, in key order. */
  method KeepSmallest(all: map<string, Row>, limit: nat) returns (kept: map<string, Row>)
    ensures Smallest(kept.Keys, All(all.Keys), limit)
    ensures |kept| == if |all| <= limit then |all| else limit
    ensures forall id <- kept :: id in all && kept[id] == all[id]
  {
    kept := map[];
    var left := all.Keys;
    while |kept| < limit && left != {}
      invariant left == all.Keys - kept.Keys && kept.Keys <= all.Keys && |kept| <= limit
      invariant forall id <- kept :: kept[id] == all[id]
      invariant forall id <- kept, other <- left :: LexLess(id, other)
      decreases left
    {
      hide LexLeq, LexLess;
      var least := Least(left);
      forall id <- kept.Keys + {least}, other <- left - {least} ensures LexLess(id, other) {}
      kept := kept[least := all[least]];
      left := left - {least};
    }
    KeptIsSmallest(kept.Keys, all.Keys, left, limit);
    assert left != {} ==> |kept| == limit && |all| > limit by {
      SubsetSize(kept.Keys, all.Keys);
    }
    if left == {} {
      assert kept.Keys == all.Keys;
    }
  }

  lemma KeptIsSmallest(kept: set<string>, all: set<string>, left: set<string>, limit: nat)
    requires left == all - kept && kept <= all && |kept| <= limit && (|kept| < limit ==> left == {})
    requires forall id <- kept, other <- left :: LexLess(id, other)
    ensures Smallest(kept, All(all), limit)
  {
    hide LexLeq;
    forall id, other | id in kept && other in All(all) && LexLeq(other, id) ensures other in kept {
      if other in left {
        LexAntisymmetric(id, other);
      }
    }
    if |kept| < limit {
      assert forall id <- all :: id in kept || id in left;
    }
  }

  // ----- The selection -----

  /** The ids one selector contributes. */
  ghost function Accepted(stored: map<string, Stored>, wanted: iset<string>, admits: Found -> bool): iset<string> {
    iset id | id in wanted && id in stored && admits(Found(id, stored[id].row))
  }

  function AcceptedIds(page: seq<Found>, admits: Found -> bool): set<string> {
    set f | f in page && admits(f) :: f.id
  }

  /** What has been collected is accepted, has the stored rows, and fits the row limit. */
  ghost predicate Collected(stored: map<string, Stored>, facts: map<string, Row>, union: iset<string>, limit: nat) {
    |facts| <= limit && forall id <- facts :: id in union && id in stored && facts[id] == stored[id].row
  }

  /** The promise of a selection cut for the given reasons. */
  ghost predicate Kept(facts: set<string>, union: iset<string>, limit: nat, reasons: set<Reason>, acceptsAll: bool) {
    && (reasons == {} ==> forall id | id in union :: id in facts)
    && (acceptsAll && reasons <= {MaxFacts} ==> Smallest(facts, union, limit))
  }

  /** A page's facts are wanted, and are all that is wanted when the page is exhausted. */
  ghost predicate PageOf(stored: map<string, Stored>, wanted: iset<string>, limit: nat, page: Page) {
    && (forall id | id in wanted :: id != "" && id in stored)
    && (forall f <- page.facts :: f.id in stored && stored[f.id].row == f.row)
    && |page.facts| <= limit
    && (page.exhausted ==> ListsAll(page.facts, wanted, ""))
    && (!page.exhausted ==> exists high :: Lists(page.facts, wanted, "", high))
    && (!page.exhausted ==> page.workExhausted || page.requiredBytes > 0 || |page.facts| == limit)
  }

  ghost predicate AdmitsEvery(admits: Found -> bool) {
    forall f :: admits(f)
  }

  /** Why a page that is not exhausted stopped. */
  function PageReason(page: Page): set<Reason> {
    if page.exhausted then {}
    else if page.workExhausted then {MaxFactWork}
    else if page.requiredBytes > 0 then {MaxFactBytes}
    else {MaxFacts}
  }

  predicate AllIn(some: set<string>, ids: iset<string>) {
    forall id <- some :: id in ids
  }

  ghost predicate MoreThan(ids: iset<string>, limit: nat) {
    exists some :: AllIn(some, ids) && |some| > limit
  }

  /** A reason for a page to stop is a limit it came up against. */
  ghost predicate PageHonest(stored: map<string, Stored>, wanted: iset<string>, limit: nat, work: nat, bytes: nat,
                             page: Page) {
    && (MaxFactWork in PageReason(page) ==> page.examined == work)
    && (MaxFactBytes in PageReason(page) ==>
          exists id | id in wanted && id in stored :: page.outputBytes + stored[id].bytes > bytes)
    && (MaxFacts in PageReason(page) ==> MoreThan(wanted, limit))
  }

  /** Every reason is an allowance used up, or one that the next fact would exceed. */
  ghost predicate Honest(stored: map<string, Stored>, asked: iset<string>, limit: nat, reasons: set<Reason>,
                         work: nat, bytes: nat, selectors: nat) {
    && (MaxFactWork in reasons ==> work == 0 || selectors == 0)
    && (MaxFactBytes in reasons ==> bytes == 0 || exists id | id in asked && id in stored :: stored[id].bytes > bytes)
    && (MaxFacts in reasons ==> MoreThan(asked, limit))
  }

  lemma MoreStays(ids: iset<string>, others: iset<string>, limit: nat)
    requires MoreThan(ids, limit) && ids <= others
    ensures MoreThan(others, limit)
  {
    var some :| AllIn(some, ids) && |some| > limit;
    assert AllIn(some, others);
  }

  lemma StaysHonest(stored: map<string, Stored>, asked: iset<string>, limit: nat, reasons: set<Reason>, work: nat,
                    bytes: nat, selectors: nat, wanted: iset<string>, page: Page, why: set<Reason>)
    requires Honest(stored, asked, limit, reasons, work, bytes, selectors)
    requires PageHonest(stored, wanted, limit, work, bytes, page)
    requires page.examined <= work && page.outputBytes <= bytes
    requires why <= reasons + PageReason(page) + {MaxFacts}
    requires MaxFacts in why ==> MaxFacts in reasons + PageReason(page) || MoreThan(asked + wanted, limit)
    ensures Honest(stored, asked + wanted, limit, why, work - page.examined, bytes - page.outputBytes, selectors)
  {
    hide MoreThan;
    if MaxFacts in reasons {
      MoreStays(asked, asked + wanted, limit);
    }
    if MaxFacts in PageReason(page) {
      MoreStays(wanted, asked + wanted, limit);
    }
  }

  lemma SkipsHonestly(stored: map<string, Stored>, asked: iset<string>, limit: nat, reasons: set<Reason>, work: nat,
                      bytes: nat, selectors: nat, wanted: iset<string>, cause: Reason)
    requires Honest(stored, asked, limit, reasons, work, bytes, selectors) && cause != MaxFacts
    requires if cause == MaxFactWork then work == 0 || selectors == 0 else bytes == 0
    ensures Honest(stored, asked + wanted, limit, reasons + {cause}, work, bytes, selectors)
  {
    hide MoreThan;
    if MaxFacts in reasons {
      MoreStays(asked, asked + wanted, limit);
    }
  }

  lemma AcceptedWithin(stored: map<string, Stored>, union: iset<string>, asked: iset<string>, wanted: iset<string>,
                       admits: Found -> bool)
    requires union <= asked
    ensures union + Accepted(stored, wanted, admits) <= asked + wanted
  {}

  /** Takes over the accepted facts of a page; a fact already held stays. */
  method Absorb(facts: map<string, Row>, page: seq<Found>, admits: Found -> bool) returns (merged: map<string, Row>)
    ensures merged.Keys == facts.Keys + AcceptedIds(page, admits)
    ensures forall id <- merged :: (id in facts && merged[id] == facts[id]) || Found(id, merged[id]) in page
  {
    merged := facts;
    for i := 0 to |page|
      invariant merged.Keys == facts.Keys + AcceptedIds(page[..i], admits)
      invariant forall id <- merged :: (id in facts && merged[id] == facts[id]) || Found(id, merged[id]) in page
    {
      var f := page[i];
      assert page[..i + 1] == page[..i] + [f];
      assert AcceptedIds(page[..i + 1], admits) == AcceptedIds(page[..i], admits) + if admits(f) then {f.id} else {};
      if admits(f) && f.id !in merged {
        assert Found(f.id, f.row) in page;
        merged := merged[f.id := f.row];
      }
    }
    assert page[..|page|] == page;
  }

  lemma PageIdsAccepted(stored: map<string, Stored>, wanted: iset<string>, limit: nat, page: Page,
                        admits: Found -> bool, id: string)
    requires PageOf(stored, wanted, limit, page)
    ensures id in AcceptedIds(page.facts, admits) ==> id in Accepted(stored, wanted, admits)
    ensures page.exhausted && id in Accepted(stored, wanted, admits) ==> id in AcceptedIds(page.facts, admits)
  {
    hide LexLeq;
    if f :| f in page.facts && admits(f) && f.id == id {
      assert Holds(page.facts, id);
      assert f == Found(id, stored[id].row);
    }
    if page.exhausted && id in Accepted(stored, wanted, admits) {
      EmptyBelow(id);
      assert Holds(page.facts, id);
      var f :| f in page.facts && f.id == id;
      assert f == Found(id, stored[id].row);
    }
  }

  lemma CollectedMore(stored: map<string, Stored>, facts: map<string, Row>, union: iset<string>, limit: nat,
                      wanted: iset<string>, page: Page, admits: Found -> bool,
                      merged: map<string, Row>, kept: map<string, Row>)
    requires Collected(stored, facts, union, limit) && PageOf(stored, wanted, limit, page)
    requires merged.Keys == facts.Keys + AcceptedIds(page.facts, admits)
    requires forall id <- merged :: (id in facts && merged[id] == facts[id]) || Found(id, merged[id]) in page.facts
    requires |kept| <= limit && forall id <- kept :: id in merged && kept[id] == merged[id]
    ensures Collected(stored, kept, union + Accepted(stored, wanted, admits), limit)
  {
    hide Accepted, AcceptedIds;
    forall id <- kept
      ensures id in union + Accepted(stored, wanted, admits) && id in stored && kept[id] == stored[id].row
    {
      PageIdsAccepted(stored, wanted, limit, page, admits, id);
    }
  }

  lemma MergedIsAccepted(stored: map<string, Stored>, facts: map<string, Row>, union: iset<string>, limit: nat,
                         wanted: iset<string>, page: Page, admits: Found -> bool, merged: set<string>)
    requires Collected(stored, facts, union, limit) && PageOf(stored, wanted, limit, page)
    requires merged == facts.Keys + AcceptedIds(page.facts, admits)
    ensures |merged| > limit ==> MoreThan(union + Accepted(stored, wanted, admits), limit)
  {
    hide Accepted, AcceptedIds;
    forall id <- merged ensures id in union + Accepted(stored, wanted, admits) {
      PageIdsAccepted(stored, wanted, limit, page, admits, id);
    }
    assert AllIn(merged, union + Accepted(stored, wanted, admits));
  }

  lemma KeptMore(stored: map<string, Stored>, facts: set<string>, union: iset<string>, limit: nat,
                 reasons: set<Reason>, acceptsAll: bool, wanted: iset<string>, page: Page, admits: Found -> bool,
                 kept: set<string>, cut: set<Reason>)
    requires Kept(facts, union, limit, reasons, acceptsAll) && PageOf(stored, wanted, limit, page)
    requires Smallest(kept, All(facts + AcceptedIds(page.facts, admits)), limit)
    requires cut == if |facts + AcceptedIds(page.facts, admits)| > limit then {MaxFacts} else {}
    ensures Kept(kept, union + Accepted(stored, wanted, admits), limit, reasons + PageReason(page) + cut,
                 acceptsAll && AdmitsEvery(admits))
  {
    hide LexLeq, Lists, ListsAll, Accepted, AcceptedIds, Smallest;
    var merged := facts + AcceptedIds(page.facts, admits);
    var after := reasons + PageReason(page) + cut;
    if after == {} {
      forall id | id in union + Accepted(stored, wanted, admits) ensures id in kept {
        assert reasons == {} && page.exhausted && |merged| <= limit;
        PageIdsAccepted(stored, wanted, limit, page, admits, id);
        AllKept(kept, merged, limit);
      }
    }
    if acceptsAll && (AdmitsEvery(admits)) && after <= {MaxFacts} {
      PageAcceptsAll(stored, wanted, limit, page, admits);
      assert MaxFactWork !in PageReason(page) && MaxFactBytes !in PageReason(page);
      var high := if page.exhausted then "" else HighOf(page.facts, wanted);
      PageHoldsSmallest(page.facts, wanted, limit, high, page.exhausted);
      assert reasons <= {MaxFacts};
      SmallestOfUnion(facts, union, IdsOf(page.facts), wanted, kept, limit);
    }
  }

  ghost function HighOf(facts: seq<Found>, wanted: iset<string>): (high: string)
    requires exists high :: Lists(facts, wanted, "", high)
    ensures Lists(facts, wanted, "", high)
  {
    var high :| Lists(facts, wanted, "", high); high
  }

  lemma AllKept(kept: set<string>, merged: set<string>, limit: nat)
    requires Smallest(kept, All(merged), limit) && |merged| <= limit
    ensures kept == merged
  {
    hide LexLeq;
    assert kept <= merged;
    SubsetSize(kept, merged);
    if |kept| < limit {
      assert forall id <- merged :: id in All(merged);
    }
  }

  lemma PageAcceptsAll(stored: map<string, Stored>, wanted: iset<string>, limit: nat, page: Page,
                       admits: Found -> bool)
    requires PageOf(stored, wanted, limit, page) && AdmitsEvery(admits)
    ensures Accepted(stored, wanted, admits) == wanted
    ensures AcceptedIds(page.facts, admits) == IdsOf(page.facts)
  {}

  /** The state of a selection, with what is left of its allowances. */
  ghost predicate Sound(stored: map<string, Stored>, facts: map<string, Row>, union: iset<string>,
                        asked: iset<string>, limit: nat, reasons: set<Reason>, admitsAll: bool, work: nat, bytes: nat,
                        selectors: nat) {
    && Collected(stored, facts, union, limit) && Kept(facts.Keys, union, limit, reasons, admitsAll) && union <= asked
    && Honest(stored, asked, limit, reasons, work, bytes, selectors)
  }

  /** The facts held once a page is taken over, and the reasons they may not be all. */
  method Combine(ghost stored: map<string, Stored>, facts: map<string, Row>, ghost union: iset<string>,
                 ghost asked: iset<string>, limit: nat, reasons: set<Reason>, ghost admitsAll: bool, ghost work: nat,
                 ghost bytes: nat, ghost selectors: nat, ghost wanted: iset<string>, page: Page,
                 admits: Found -> bool) returns (kept: map<string, Row>, why: set<Reason>)
    requires Sound(stored, facts, union, asked, limit, reasons, admitsAll, work, bytes, selectors)
    requires PageOf(stored, wanted, limit, page) && PageHonest(stored, wanted, limit, work, bytes, page)
    requires page.examined <= work && page.outputBytes <= bytes
    ensures Sound(stored, kept, union + Accepted(stored, wanted, admits), asked + wanted, limit, why,
                  admitsAll && AdmitsEvery(admits), work - page.examined, bytes - page.outputBytes, selectors)
    ensures reasons + PageReason(page) <= why <= reasons + PageReason(page) + {MaxFacts}
  {
    hide Collected, Kept, Accepted, Smallest, AcceptedIds, PageOf, MoreThan, Honest, PageHonest, PageReason;
    var merged := Absorb(facts, page.facts, admits);
    MergedIsAccepted(stored, facts, union, limit, wanted, page, admits, merged.Keys);
    kept := KeepSmallest(merged, limit);
    CollectedMore(stored, facts, union, limit, wanted, page, admits, merged, kept);
    var cut := if |merged| > limit then {MaxFacts} else {};
    assert |merged| == |merged.Keys|;
    KeptMore(stored, facts.Keys, union, limit, reasons, admitsAll, wanted, page, admits, kept.Keys, cut);
    why := reasons + PageReason(page) + cut;
    AcceptedWithin(stored, union, asked, wanted, admits);
    if |merged| > limit {
      MoreStays(union + Accepted(stored, wanted, admits), asked + wanted, limit);
    }
    StaysHonest(stored, asked, limit, reasons, work, bytes, selectors, wanted, page, why);
  }

  /** Distinct facts that a selector asks for. */
  ghost predicate AskedOnce(store: FactStore, run: string, selector: Selector, facts: seq<Found>)
    reads store
  {
    && (forall i, j | 0 <= i < j < |facts| :: facts[i].id != facts[j].id)
    && (forall f <- facts :: f.id in store.Wanted(run, selector))
  }

  /** Facts weigh so much together, each counted once for every selector that asks for it. */
  ghost predicate Weighs(store: FactStore, run: string, selectors: seq<Selector>, bytes: nat)
    reads store
  {
    if selectors == [] then bytes == 0
    else
      exists facts ::
        && AskedOnce(store, run, selectors[|selectors| - 1], facts) && BytesOf(store.facts, facts) <= bytes
        && Weighs(store, run, selectors[..|selectors| - 1], bytes - BytesOf(store.facts, facts))
  }

  lemma WeighsNext(store: FactStore, run: string, selectors: seq<Selector>, next: Selector, weight: nat,
                   cost: seq<Found>)
    requires Weighs(store, run, selectors, weight) && AskedOnce(store, run, next, cost)
    ensures Weighs(store, run, selectors + [next], weight + BytesOf(store.facts, cost))
  {
    hide AskedOnce, BytesOf;
    assert (selectors + [next])[..|selectors|] == selectors;
  }

  lemma AsksNothing(store: FactStore, run: string, selector: Selector)
    ensures AskedOnce(store, run, selector, []) && BytesOf(store.facts, []) == 0
  {}

  lemma ListedOnce(facts: seq<Found>)
    requires Ascending(facts)
    ensures forall i, j | 0 <= i < j < |facts| :: facts[i].id != facts[j].id
  {}

  /** Beyond the frontier comes another fact. */
  lemma BeyondFrontier(facts: seq<Found>, frontier: string, id: string)
    requires (forall f <- facts :: LexLeq(f.id, frontier)) && LexLess(frontier, id)
    ensures forall f <- facts :: f.id != id
  {
    hide LexLeq;
    forall f <- facts ensures f.id != id {
      if f.id == id {
        LexAntisymmetric(id, frontier);
      }
    }
  }

  /** The candidates of a selector that are there to be examined. */
  function Work(store: FactStore, run: string, selector: Selector): nat
    reads store
  {
    if selector.relation >= |store.codec.registry| then 0
    else
      var name := store.codec.registry[selector.relation].name;
      |Beyond(Candidates(store.codec, store.index, run, name, Ordered(selector)), "")|
  }

  function TotalWork(store: FactStore, run: string, selectors: seq<Selector>): nat
    reads store
  {
    if selectors == [] then 0
    else TotalWork(store, run, selectors[..|selectors| - 1]) + Work(store, run, selectors[|selectors| - 1])
  }

  lemma TotalWorkNext(store: FactStore, run: string, selectors: seq<Selector>, next: Selector)
    ensures TotalWork(store, run, selectors + [next]) == TotalWork(store, run, selectors) + Work(store, run, next)
  {
    hide Work;
    assert (selectors + [next])[..|selectors|] == selectors;
  }

  datatype Outcome = Outcome(facts: seq<Found>, complete: bool, reasons: set<Reason>, examined: nat)

  /** Collects several selectors' facts under one allowance of rows, work, bytes and selectors. */
  class FactSelection {
    const store: FactStore
    const run: string
    const snapshot: string
    const limit: nat
    var remainingWork: nat
    var remainingBytes: nat
    var remainingSelectors: nat
    var facts: map<string, Row>
    var reasons: set<Reason>
    /** Everything the selectors added so far admit, and whether every predicate admits everything. */
    ghost var union: iset<string>
    ghost var admitsAll: bool
    /** Everything the selectors ask for, admitted or not. */
    ghost var asked: iset<string>
    /** What the pages read so far cost. */
    ghost var work: nat
    ghost var bytes: nat

    ghost predicate Valid()
      reads this, store
    {
      && store.Valid() && store.Exact(run) && limit <= MAX_PAGE_ROWS
      && work + remainingWork == MAX_WORK && bytes + remainingBytes == MAX_BYTES
      && remainingSelectors <= MAX_PAGE_ROWS
      && Sound(store.facts, facts, union, asked, limit, reasons, admitsAll, remainingWork, remainingBytes,
               remainingSelectors)
    }

    constructor (store: FactStore, run: string, snapshot: string, maxFacts: nat)
      requires store.Valid() && store.Exact(run)
      ensures Valid() && this.store == store && this.run == run && this.snapshot == snapshot
      ensures limit == if maxFacts <= MAX_PAGE_ROWS then maxFacts else MAX_PAGE_ROWS
      ensures union == asked == iset{} && admitsAll && reasons == {} && work == 0 && bytes == 0
      ensures remainingSelectors == MAX_PAGE_ROWS
    {
      this.store, this.run, this.snapshot := store, run, snapshot;
      limit := if maxFacts <= MAX_PAGE_ROWS then maxFacts else MAX_PAGE_ROWS;
      remainingWork, remainingBytes, remainingSelectors := MAX_WORK, MAX_BYTES, MAX_PAGE_ROWS;
      facts, reasons, union, asked, admitsAll, work, bytes := map[], {}, iset{}, iset{}, true, 0, 0;
    }

    /** Notes a selector that an allowance left unread. */
    method Skip(ghost wanted: iset<string>, admits: Found -> bool, cause: Reason)
      requires Valid() && cause != MaxFacts
      requires if cause == MaxFactWork then remainingWork == 0 || remainingSelectors == 0 else remainingBytes == 0
      modifies this`reasons, this`union, this`asked, this`admitsAll
      ensures Valid() && reasons == old(reasons) + {cause} && asked == old(asked) + wanted
      ensures union == old(union) + Accepted(store.facts, wanted, admits)
      ensures admitsAll <==> old(admitsAll) && AdmitsEvery(admits)
    {
      hide SoundFacts, IndexExact, Sound, Accepted;
      CutShort(store.facts, facts, union, asked, limit, reasons, admitsAll, remainingWork, remainingBytes,
               remainingSelectors, wanted, admits, cause);
      reasons := reasons + {cause};
      asked := asked + wanted;
      union := union + Accepted(store.facts, wanted, admits);
      admitsAll := admitsAll && AdmitsEvery(admits);
    }

    /** Takes over one page and keeps the smallest ids that fit. */
    method TakePage(ghost wanted: iset<string>, page: Page, admits: Found -> bool)
      requires Valid() && PageOf(store.facts, wanted, limit, page)
      requires page.examined <= remainingWork && page.outputBytes <= remainingBytes
      requires PageHonest(store.facts, wanted, limit, remainingWork, remainingBytes, page)
      modifies this
      ensures Valid() && remainingSelectors == old(remainingSelectors) && bytes == old(bytes) + page.outputBytes
      ensures work == old(work) + page.examined
      ensures old(reasons) + PageReason(page) <= reasons <= old(reasons) + PageReason(page) + {MaxFacts}
      ensures asked == old(asked) + wanted
      ensures union == old(union) + Accepted(store.facts, wanted, admits)
      ensures admitsAll <==> old(admitsAll) && AdmitsEvery(admits)
    {
      hide PageOf, PageHonest, Accepted, PageReason, Sound, AdmitsEvery, FactStore.Valid, FactStore.Exact;
      var kept, why := Combine(store.facts, facts, union, asked, limit, reasons, admitsAll, remainingWork,
                               remainingBytes, remainingSelectors, wanted, page, admits);
      remainingWork, remainingBytes, facts, reasons, work, bytes, asked, union, admitsAll :=
        remainingWork - page.examined, remainingBytes - page.outputBytes, kept, why, work + page.examined,
        bytes + page.outputBytes, asked + wanted, union + Accepted(store.facts, wanted, admits),
        admitsAll && AdmitsEvery(admits);
    }

    /**
     * Adds one selector's facts, as far as the allowances go. A refusal leaves the selection as it was. The bytes
     * spent went to facts the selector asks for, and with one more of them they would exceed the allowance when
     * that becomes a reason.
     */
    method Add(selector: Selector, admits: Found -> bool) returns (refusal: Option<Refusal>, ghost cost: seq<Found>)
      requires Valid()
      modifies this
      ensures Valid() && remainingSelectors + 1 >= old(remainingSelectors)
      ensures refusal.Some? ==> union == old(union) && reasons == old(reasons) && facts == old(facts)
      ensures refusal.None? ==>
                && asked == old(asked) + store.Wanted(run, selector)
                && union == old(union) + Accepted(store.facts, store.Wanted(run, selector), admits)
                && (admitsAll <==> old(admitsAll) && AdmitsEvery(admits))
                && old(reasons) <= reasons
                && AskedOnce(store, run, selector, cost) && bytes <= old(bytes) + BytesOf(store.facts, cost)
                && (MaxFactBytes in reasons - old(reasons) ==> old(bytes) + BytesOf(store.facts, cost) >= MAX_BYTES)
                && (reasons == {} ==> work == old(work) + Work(store, run, selector))
      ensures snapshot != "" && limit > 0 && GoodSelector(store.codec, selector) ==>
                refusal.None? || refusal == Some(ByteOverflow)
    {
      hide Sound, Accepted, SoundFacts, IndexExact, GoodSelector, WithinLimits, PageOf, PageHonest, AskedOnce, BytesOf;
      hide PageReason, Counted, Work;
      refusal, cost := None, [];
      AsksNothing(store, run, selector);
      if remainingWork == 0 || remainingSelectors == 0 {
        Skip(store.Wanted(run, selector), admits, MaxFactWork);
        return;
      }
      if remainingBytes == 0 {
        Skip(store.Wanted(run, selector), admits, MaxFactBytes);
        return;
      }
      FewerSelectors(store.facts, facts, union, asked, limit, reasons, admitsAll, remainingWork, remainingBytes,
                     remainingSelectors);
      remainingSelectors := remainingSelectors - 1;
      var request := Request(limit, remainingWork, remainingBytes, None);
      var answer := store.ReadFacts(run, snapshot, selector, request);
      if answer.Refused? {
        return Some(answer.reason), [];
      }
      cost := PageWeighs(selector, request, answer.page);
      PageIsOf(selector, request, answer.page);
      PageIsHonest(selector, request, answer.page);
      PageCosts(store.facts, request, answer.page);
      PageWorks(request, selector, answer.page);
      TakePage(store.Wanted(run, selector), answer.page, admits);
    }

    lemma PageWorks(request: Request, selector: Selector, page: Page)
      requires request.after.None? && selector.relation < |store.codec.registry|
      requires Counted(Candidates(store.codec, store.index, run, store.codec.registry[selector.relation].name,
                                  Ordered(selector)), request, page)
      ensures PageReason(page) == {} ==> page.examined == Work(store, run, selector)
    {
      hide Candidates, Ordered, Beyond, FactLookup.Within;
    }

    lemma PageIsOf(selector: Selector, request: Request, page: Page)
      requires store.Valid() && request.after.None? && request.limit == limit
      requires store.Delivers(run, selector, request, page) && WithinLimits(store.facts, request, page)
      ensures PageOf(store.facts, store.Wanted(run, selector), limit, page)
    {
      hide Lists, ListsAll, LexLeq, Matches, BytesOf, ValidRow;
      forall id | id in store.Wanted(run, selector) ensures id != "" && id in store.facts {
        store.WantedNamed(run, selector);
      }
    }

    lemma PageIsHonest(selector: Selector, request: Request, page: Page)
      requires store.Valid() && request.after.None? && request.limit == limit
      requires store.Delivers(run, selector, request, page)
      ensures PageHonest(store.facts, store.Wanted(run, selector), limit, request.maxExamined, request.maxBytes, page)
    {
      hide Lists, ListsAll, LexLeq, LexLess, Matches, SoundFacts, MoreThan;
      if !page.exhausted && !page.workExhausted {
        var id :| store.HeldBack(run, selector, request, page, id);
        store.WantedNamed(run, selector);
        assert id in store.Wanted(run, selector) && id in store.facts;
        if page.requiredBytes == 0 {
          OneMore(page.facts, store.Wanted(run, selector), Frontier(request, page), id);
        }
      }
    }

    /** The facts of a page, with the one the byte limit holds back. */
    lemma PageWeighs(selector: Selector, request: Request, page: Page) returns (cost: seq<Found>)
      requires store.Valid() && request.after.None?
      requires store.Delivers(run, selector, request, page) && WithinLimits(store.facts, request, page)
      ensures AskedOnce(store, run, selector, cost) && page.outputBytes <= BytesOf(store.facts, cost)
      ensures MaxFactBytes in PageReason(page) ==> BytesOf(store.facts, cost) > request.maxBytes
    {
      hide LexLeq, LexLess, Matches, SoundFacts, BytesOf, FactStore.Wanted;
      cost := page.facts;
      ListedOnce(page.facts);
      assert forall f <- page.facts :: Holds(page.facts, f.id);
      if MaxFactBytes in PageReason(page) {
        var id :| store.HeldBack(run, selector, request, page, id);
        store.WantedNamed(run, selector);
        var next := Found(id, store.facts[id].row);
        BytesOfNext(store.facts, page.facts, next);
        BeyondFrontier(page.facts, Frontier(request, page), id);
        cost := page.facts + [next];
      }
    }

    /** What the selection amounts to. */
    method Finish() returns (outcome: Outcome)
      requires Valid()
      ensures Ascending(outcome.facts) && (forall id :: Holds(outcome.facts, id) <==> id in facts)
      ensures |outcome.facts| <= limit && outcome.examined == work <= MAX_WORK && bytes <= MAX_BYTES
      ensures outcome.reasons == reasons && (outcome.complete <==> reasons == {})
      ensures forall f <- outcome.facts :: f.id in union && f.id in store.facts && f.row == store.facts[f.id].row
      ensures outcome.complete ==> forall id :: Holds(outcome.facts, id) <==> id in union
      ensures admitsAll && reasons <= {MaxFacts} ==> Smallest(facts.Keys, union, limit)
      ensures Honest(store.facts, asked, limit, outcome.reasons, MAX_WORK - outcome.examined, MAX_BYTES - bytes,
                     remainingSelectors)
    {
      hide LexLeq, Smallest, SoundFacts, IndexExact, Honest;
      var listed := InOrder(facts);
      AscendingSize(listed);
      assert IdsOf(listed) == facts.Keys;
      outcome := Outcome(listed, reasons == {}, reasons, MAX_WORK - remainingWork);
    }
  }

  lemma FewerSelectors(stored: map<string, Stored>, facts: map<string, Row>, union: iset<string>,
                       asked: iset<string>, limit: nat, reasons: set<Reason>, admitsAll: bool, work: nat, bytes: nat,
                       selectors: nat)
    requires Sound(stored, facts, union, asked, limit, reasons, admitsAll, work, bytes, selectors)
    requires work > 0 && selectors > 0
    ensures Sound(stored, facts, union, asked, limit, reasons, admitsAll, work, bytes, selectors - 1)
  {
    hide Collected, Kept, MoreThan;
  }

  /** The ids listed up to a frontier, and one more beyond it. */
  lemma OneMore(facts: seq<Found>, wanted: iset<string>, frontier: string, id: string)
    requires Lists(facts, wanted, "", frontier) && id in wanted && LexLess(frontier, id)
    ensures MoreThan(wanted, |facts|)
  {
    hide LexLeq;
    var ids := IdsOf(facts);
    AscendingSize(facts);
    forall other <- ids ensures other in wanted && other != id {
      assert Holds(facts, other);
      if other == id {
        LexAntisymmetric(id, frontier);
      }
    }
    assert AllIn(ids + {id}, wanted) && |ids + {id}| == |ids| + 1;
  }

  lemma PageCosts(stored: map<string, Stored>, request: Request, page: Page)
    requires WithinLimits(stored, request, page)
    ensures page.examined <= request.maxExamined && page.outputBytes <= request.maxBytes
  {}

  /** Reading nothing leaves a selection that says so. */
  lemma CutShort(stored: map<string, Stored>, facts: map<string, Row>, union: iset<string>, asked: iset<string>,
                 limit: nat, reasons: set<Reason>, admitsAll: bool, work: nat, bytes: nat, selectors: nat,
                 wanted: iset<string>, admits: Found -> bool, cause: Reason)
    requires Sound(stored, facts, union, asked, limit, reasons, admitsAll, work, bytes, selectors)
    requires cause != MaxFacts
    requires if cause == MaxFactWork then work == 0 || selectors == 0 else bytes == 0
    ensures Sound(stored, facts, union + Accepted(stored, wanted, admits), asked + wanted, limit, reasons + {cause},
                  admitsAll && AdmitsEvery(admits), work, bytes, selectors)
  {
    hide Accepted, Smallest, Honest;
    AcceptedWithin(stored, union, asked, wanted, admits);
    SkipsHonestly(stored, asked, limit, reasons, work, bytes, selectors, wanted, cause);
    assert cause in reasons + {cause};
  }

  /** A map's entries in ascending key order. */
  method InOrder(facts: map<string, Row>) returns (listed: seq<Found>)
    ensures Ascending(listed) && (forall id :: Holds(listed, id) <==> id in facts)
    ensures forall f <- listed :: f.id in facts && facts[f.id] == f.row
  {
    listed := [];
    var left := facts.Keys;
    while left != {}
      invariant left <= facts.Keys && Ascending(listed)
      invariant forall id :: Holds(listed, id) <==> id in facts && id !in left
      invariant forall f <- listed :: f.id in facts && facts[f.id] == f.row
      invariant forall f <- listed, other <- left :: LexLess(f.id, other)
      decreases left
    {
      hide LexLeq, LexLess;
      var least := Least(left);
      var next := Found(least, facts[least]);
      forall id ensures Holds(listed + [next], id) <==> Holds(listed, id) || id == least {
        HoldsJoin(listed, [next], id);
        assert Holds([next], id) <==> id == least by { assert next in [next]; }
      }
      forall f <- listed + [next], other <- left - {least} ensures LexLess(f.id, other) {}
      listed, left := listed + [next], left - {least};
    }
  }

  ghost predicate AnyAsks(store: FactStore, run: string, selectors: seq<Selector>, id: string)
    reads store
  {
    exists selector <- selectors :: id in store.Wanted(run, selector)
  }

  /** Everything some selector asks for. */
  ghost function AskedFor(store: FactStore, run: string, selectors: seq<Selector>): iset<string>
    reads store
  {
    iset id | AnyAsks(store, run, selectors, id)
  }

  lemma AskedForNext(store: FactStore, run: string, selectors: seq<Selector>, next: Selector)
    requires store.Valid()
    ensures AskedFor(store, run, selectors + [next]) ==
            AskedFor(store, run, selectors) + Accepted(store.facts, store.Wanted(run, next), _ => true)
    ensures AskedFor(store, run, selectors + [next]) == AskedFor(store, run, selectors) + store.Wanted(run, next)
  {
    hide SoundFacts, Matches, Current;
    forall id ensures id in AskedFor(store, run, selectors + [next]) <==>
                      id in AskedFor(store, run, selectors) || id in store.Wanted(run, next)
    {
      if id in store.Wanted(run, next) {
        assert next in selectors + [next];
      }
      if selector :| selector in selectors && id in store.Wanted(run, selector) {
        assert selector in selectors + [next];
      }
    }
  }

  lemma NoneAsks(store: FactStore, run: string)
    ensures AskedFor(store, run, []) == iset{}
  {}

  lemma NothingWeighs(store: FactStore, run: string)
    ensures Weighs(store, run, [], 0)
  {}

  /** A query over several selectors: complete means all of their facts, and a pure row cut the smallest. */
  method RunFactQuery(store: FactStore, run: string, snapshot: string, selectors: seq<Selector>, maxFacts: nat)
    returns (refusal: Option<Refusal>, outcome: Outcome)
    requires store.Valid() && store.Exact(run)
    ensures refusal.None? ==> Ascending(outcome.facts) && |outcome.facts| <= maxFacts
    ensures refusal.None? ==>
              forall f <- outcome.facts ::
                AnyAsks(store, run, selectors, f.id) && f.id in store.facts && f.row == store.facts[f.id].row
    ensures refusal.None? ==> outcome.examined <= MAX_WORK && (outcome.complete <==> outcome.reasons == {})
    ensures refusal.None? && outcome.complete ==> outcome.examined == TotalWork(store, run, selectors)
    ensures refusal.None? && outcome.complete ==>
              forall id :: Holds(outcome.facts, id) <==> id in AskedFor(store, run, selectors)
    ensures refusal.None? && outcome.reasons <= {MaxFacts} && maxFacts <= MAX_PAGE_ROWS ==>
              Smallest(IdsOf(outcome.facts), AskedFor(store, run, selectors), maxFacts)
    ensures refusal.None? && MaxFacts in outcome.reasons ==>
              MoreThan(AskedFor(store, run, selectors), if maxFacts <= MAX_PAGE_ROWS then maxFacts else MAX_PAGE_ROWS)
    ensures refusal.None? && MaxFactWork in outcome.reasons ==>
              outcome.examined == MAX_WORK || |selectors| >= MAX_PAGE_ROWS
    ensures refusal.None? && MaxFactBytes in outcome.reasons ==>
              exists weight: nat | weight >= MAX_BYTES :: Weighs(store, run, selectors, weight)
    ensures snapshot != "" && maxFacts > 0 && (forall s <- selectors :: GoodSelector(store.codec, s)) ==>
              refusal.None? || refusal == Some(ByteOverflow)
  {
    hide SoundFacts, IndexExact, GoodSelector, Smallest, LexLeq, Accepted, Collected, Kept, MoreThan, Sound, BytesOf;
    hide Weighs, AskedOnce, AnyAsks, Work;
    var selection := new FactSelection(store, run, snapshot, maxFacts);
    outcome := Outcome([], true, {}, 0);
    refusal := None;
    assert AskedFor(store, run, []) == iset{} by { NoneAsks(store, run); }
    ghost var weight: nat := 0;
    assert Weighs(store, run, selectors[..0], 0) by { NothingWeighs(store, run); }
    for i := 0 to |selectors|
      invariant fresh(selection) && selection.store == store && selection.run == run
      invariant selection.snapshot == snapshot && selection.Valid() && selection.admitsAll
      invariant selection.limit == if maxFacts <= MAX_PAGE_ROWS then maxFacts else MAX_PAGE_ROWS
      invariant selection.union == selection.asked == AskedFor(store, run, selectors[..i])
      invariant i + selection.remainingSelectors >= MAX_PAGE_ROWS
      invariant Weighs(store, run, selectors[..i], weight) && selection.bytes <= weight
      invariant MaxFactBytes in selection.reasons ==> weight >= MAX_BYTES
      invariant selection.reasons == {} ==> selection.work == TotalWork(store, run, selectors[..i])
    {
      assert selectors[i] in selectors;
      assert selectors[..i + 1] == selectors[..i] + [selectors[i]];
      AskedForNext(store, run, selectors[..i], selectors[i]);
      TotalWorkNext(store, run, selectors[..i], selectors[i]);
      ghost var cost;
      refusal, cost := selection.Add(selectors[i], _ => true);
      if refusal.Some? {
        return;
      }
      WeighsNext(store, run, selectors[..i], selectors[i], weight, cost);
      weight := weight + BytesOf(store.facts, cost);
    }
    assert selectors[..|selectors|] == selectors;
    refusal := None;
    outcome := selection.Finish();
    assert Weighs(store, run, selectors, weight);
    assert IdsOf(outcome.facts) == selection.facts.Keys;
  }
}
