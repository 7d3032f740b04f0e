/** The l0 projection of a case: what it keeps, and how it accounts for what it drops. */
module CaseProjection {
  import opened Basics
  import opened Numerals
  import opened Orders
  import opened Expressions
  import opened CaseLinks

  // ----- Handles -----

  /** The candidates after the base itself: a suffix counted from two. */
  function Suffixed(base: string, suffix: nat): string {
    base + "_" + Decimal(suffix)
  }

  /** A handle starts with what it was asked for. */
  lemma StartsWith(base: string, id: string)
    requires id == base || exists k: nat :: id == Suffixed(base, k)
    ensures base <= id && (id == base || base + "_" <= id)
  {}

  lemma SuffixedDiffer(base: string, i: nat, j: nat)
    requires Suffixed(base, i) == Suffixed(base, j)
    ensures i == j
  {
    hide Decimal;
    assert Suffixed(base, i)[|base| + 1..] == Decimal(i);
    assert Suffixed(base, j)[|base| + 1..] == Decimal(j);
    DecimalValue(i);
    DecimalValue(j);
  }

  /** Hands out each handle once. */
  class IdAllocator {
    var used: set<string>

    constructor ()
      ensures used == {}
    {
      used := {};
    }

    /** The base itself when it is free, else its first free suffix. */
    method Allocate(base: string) returns (id: string)
      modifies this
      ensures id !in old(used) && used == old(used) + {id}
      ensures base !in old(used) ==> id == base
      ensures base in old(used) ==>
                exists k: nat | k >= 2 ::
                  id == Suffixed(base, k) && forall i | 2 <= i < k :: Suffixed(base, i) in old(used)
    {
      hide Suffixed;
      if base !in used {
        used := used + {base};
        return base;
      }
      var suffix := 2;
      ghost var tried: set<string> := {};
      while Suffixed(base, suffix) in used
        invariant suffix >= 2 && used == old(used)
        invariant forall i | 2 <= i < suffix :: Suffixed(base, i) in used
        invariant tried <= used && |tried| == suffix - 2
        invariant forall t <- tried :: exists i: nat | 2 <= i < suffix :: t == Suffixed(base, i)
        decreases |used| + 2 - suffix
      {
        var candidate := Suffixed(base, suffix);
        forall t <- tried ensures t != candidate {
          var i: nat :| 2 <= i < suffix && t == Suffixed(base, i);
          if t == candidate {
            SuffixedDiffer(base, i, suffix);
          }
        }
        tried := tried + {candidate};
        SubsetSize(tried, used);
        suffix := suffix + 1;
      }
      id := Suffixed(base, suffix);
      used := used + {id};
    }
  }

  // ----- References -----

  predicate Mentions(e: Expression, id: string)
    decreases e
  {
    (e.kind == Reference && e.text == id) || exists operand <- e.operands :: Mentions(operand, id)
  }

  function References(e: Expression): set<string>
    decreases e, |e.operands|
  {
    (if e.kind == Reference then {e.text} else {}) + ReferencesOf(e.operands)
  }

  function ReferencesOf(es: seq<Expression>): set<string>
    decreases es, |es|
  {
    if es == [] then {} else References(es[0]) + ReferencesOf(es[1..])
  }

  // ----- The case -----

  datatype Entity = Entity(id: string, isFunction: bool)

  /** A path is stated under conditions. */
  datatype Chain = Chain(id: string, segments: seq<string>, conditions: seq<Expression>, provenance: string)

  datatype Epistemic = NotStated | Must | May | MustNot | Inferred | Assumed | Undetermined

  datatype Statement = Statement(id: string, formula: Expression, epistemic: Epistemic, provenance: string)

  datatype Unknown = Unknown(id: string, property: Expression)

  datatype Record = Record(id: string, inputs: seq<string>)

  datatype Omission = Omission(id: string, kind: string, subject: string, reason: string)

  datatype Case = Case(entities: seq<Entity>, links: seq<Link>, paths: seq<Chain>, facts: seq<Statement>,
                       unknowns: seq<Unknown>, constraints: seq<string>, records: seq<Record>,
                       omissions: seq<Omission>)

  /**
   * What the projection is about: the claim and its two ends, the entities its selected summaries and its sink
   * name, the unknowns that carry coverage, and the texts it writes.
   */
  datatype Frame = Frame(claim: string, subject: string, source: string, named: set<string>,
                         coverage: set<string>, sanitize: string -> string, inputText: string -> string)

  const LEVEL_PROJECTION := "level_projection"
  const PROVENANCE_PREMISE := "provenance_premise"

  // ----- What is retained -----

  /** The primary path's segments. */
  function Segments(c: Case): seq<string> {
    if c.paths == [] then [] else c.paths[0].segments
  }

  predicate KeepsFact(frame: Frame, f: Statement) {
    Mentions(f.formula, frame.subject) || Mentions(f.formula, frame.source)
  }

  predicate KeepsUnknown(frame: Frame, c: Case, u: Unknown) {
    c.unknowns != [] && (u.id == c.unknowns[0].id || u.id in frame.coverage)
  }

  /** The link joins two consecutive segments of the primary path. */
  predicate KeepsLink(c: Case, l: Link) {
    exists i | 0 < i < |Segments(c)| :: l.from == Segments(c)[i - 1] && l.to == Segments(c)[i]
  }

  function RetainedEntities(frame: Frame, c: Case): set<string> {
    {frame.subject, frame.source} + frame.named
    + (set e | e in c.entities && e.isFunction :: e.id)
    + (set id | id in Segments(c))
    + (set u, id | u in c.unknowns && KeepsUnknown(frame, c, u) && id in References(u.property) :: id)
    + (set f, id | f in c.facts && KeepsFact(frame, f) && id in References(f.formula) :: id)
  }

  predicate KeepsEntity(frame: Frame, c: Case, e: Entity) {
    e.id in RetainedEntities(frame, c)
  }

  /**
   * An id is held for its own sake: it is an end of the claim, named by a summary or the sink, a function, on the
   * primary path, or mentioned by an unknown or a fact that is kept. The conditions of the path hold nothing.
   */
  predicate Held(frame: Frame, c: Case, id: string) {
    || id == frame.subject || id == frame.source || id in frame.named || id in Segments(c)
    || (exists e <- c.entities :: e.isFunction && e.id == id)
    || (exists u <- c.unknowns :: KeepsUnknown(frame, c, u) && id in References(u.property))
    || (exists f <- c.facts :: KeepsFact(frame, f) && id in References(f.formula))
  }

  lemma HeldExactly(frame: Frame, c: Case, id: string)
    ensures Held(frame, c, id) <==> id in RetainedEntities(frame, c)
  {
    hide References, KeepsUnknown, KeepsFact;
  }

  // ----- Keeping and withholding -----

  function Kept<T>(s: seq<T>, keep: T -> bool): (r: seq<T>)
    ensures forall x <- r :: x in s && keep(x)
    ensures forall x <- s :: keep(x) ==> x in r
  {
    if s == [] then []
    else Kept(s[..|s| - 1], keep) + (if keep(s[|s| - 1]) then [s[|s| - 1]] else [])
  }

  /** The ids of the members that are not kept. */
  function Withheld<T>(s: seq<T>, keep: T -> bool, id: T -> string): seq<string> {
    if s == [] then []
    else Withheld(s[..|s| - 1], keep, id) + (if keep(s[|s| - 1]) then [] else [id(s[|s| - 1])])
  }

  method Split<T>(s: seq<T>, keep: T -> bool, id: T -> string) returns (kept: seq<T>, withheld: seq<string>)
    ensures kept == Kept(s, keep) && withheld == Withheld(s, keep, id)
  {
    kept, withheld := [], [];
    for i := 0 to |s|
      invariant kept == Kept(s[..i], keep) && withheld == Withheld(s[..i], keep, id)
    {
      assert s[..i + 1][..i] == s[..i];
      if keep(s[i]) {
        kept := kept + [s[i]];
      } else {
        withheld := withheld + [id(s[i])];
      }
    }
    assert s[..|s|] == s;
  }

  function IdsOf<T>(s: seq<T>, id: T -> string): (ids: seq<string>)
    ensures |ids| == |s| && forall i | 0 <= i < |s| :: ids[i] == id(s[i])
  {
    seq(|s|, i requires 0 <= i < |s| => id(s[i]))
  }

  /** An id is withheld once for each member that carries it and is not kept. */
  lemma {:induction false} WithheldCounts<T>(s: seq<T>, keep: T -> bool, id: T -> string, x: string)
    ensures multiset(Withheld(s, keep, id))[x] <= multiset(IdsOf(s, id))[x]
    ensures multiset(IdsOf(s, id))[x] <= 1 ==>
              forall m <- s :: id(m) == x ==> multiset(Withheld(s, keep, id))[x] == if keep(m) then 0 else 1
    decreases |s|
  {
    if s != [] {
      var rest, last := s[..|s| - 1], s[|s| - 1];
      assert s == rest + [last];
      WithheldCounts(rest, keep, id, x);
      CountsStep(rest, last, keep, id, x);
      hide Withheld, IdsOf;
      if multiset(IdsOf(s, id))[x] <= 1 {
        forall m <- s | id(m) == x ensures multiset(Withheld(s, keep, id))[x] == if keep(m) then 0 else 1 {
          if m in rest {
            Carried(rest, id, m);
          } else {
            assert m == last;
          }
        }
      }
    }
  }

  lemma CountsStep<T>(rest: seq<T>, last: T, keep: T -> bool, id: T -> string, x: string)
    ensures multiset(IdsOf(rest + [last], id))[x] == multiset(IdsOf(rest, id))[x] + if id(last) == x then 1 else 0
    ensures multiset(Withheld(rest + [last], keep, id))[x] ==
            multiset(Withheld(rest, keep, id))[x] + if !keep(last) && id(last) == x then 1 else 0
  {
    assert (rest + [last])[..|rest|] == rest;
    assert IdsOf(rest + [last], id) == IdsOf(rest, id) + [id(last)];
  }

  lemma Carried<T>(s: seq<T>, id: T -> string, m: T)
    requires m in s
    ensures id(m) in IdsOf(s, id) && multiset(IdsOf(s, id))[id(m)] >= 1
  {
    var i :| 0 <= i < |s| && s[i] == m;
    assert IdsOf(s, id)[i] == id(m);
  }

  // ----- Accounting -----

  function WithheldReason(member: string): string {
    "the member " + member + " is withheld at l0; a higher level can recover it"
  }

  lemma ReasonNames(a: string, b: string)
    requires WithheldReason(a) == WithheldReason(b)
    ensures a == b
  {
    var prefix, suffix := "the member ", " is withheld at l0; a higher level can recover it";
    assert WithheldReason(a)[|prefix|..|WithheldReason(a)| - |suffix|] == a;
    assert WithheldReason(b)[|prefix|..|WithheldReason(b)| - |suffix|] == b;
  }

  predicate Names(o: Omission, member: string) {
    o.kind == LEVEL_PROJECTION && o.reason == WithheldReason(member)
  }

  /** How many level-projection omissions name a member. */
  function NamedCount(omissions: seq<Omission>, member: string): nat {
    if omissions == [] then 0
    else
      NamedCount(omissions[..|omissions| - 1], member)
      + (if Names(omissions[|omissions| - 1], member) then 1 else 0)
  }

  lemma {:induction false} NoneNamed(omissions: seq<Omission>, member: string)
    requires forall o <- omissions :: o.kind != LEVEL_PROJECTION
    ensures NamedCount(omissions, member) == 0
  {
    if omissions != [] {
      assert omissions[|omissions| - 1] in omissions;
      NoneNamed(omissions[..|omissions| - 1], member);
    }
  }

  /** Each member survives unnamed, or is gone and named by exactly one omission. */
  ghost predicate Accounts<T>(before: seq<T>, survives: T -> bool, id: T -> string, omissions: seq<Omission>) {
    forall m <- before :: NamedCount(omissions, id(m)) == if survives(m) then 0 else 1
  }

  const ENTITY_ID: Entity -> string := (e: Entity) => e.id
  const LINK_ID: Link -> string := (l: Link) => l.id
  const CHAIN_ID: Chain -> string := (p: Chain) => p.id
  const FACT_ID: Statement -> string := (f: Statement) => f.id
  const UNKNOWN_ID: Unknown -> string := (u: Unknown) => u.id
  const CONSTRAINT_ID: string -> string := (c: string) => c
  const RECORD_ID: Record -> string := (r: Record) => r.id
  const OMISSION_ID: Omission -> string := (o: Omission) => o.id

  function AllIds(c: Case): seq<string> {
    IdsOf(c.entities, ENTITY_ID) + IdsOf(c.links, LINK_ID) + IdsOf(c.paths, CHAIN_ID) + IdsOf(c.facts, FACT_ID)
    + IdsOf(c.unknowns, UNKNOWN_ID) + c.constraints + IdsOf(c.records, RECORD_ID)
    + IdsOf(c.omissions, OMISSION_ID)
  }

  // ----- The projection -----

  function RetainedFacts(frame: Frame, c: Case): set<string> {
    set f | f in c.facts && KeepsFact(frame, f) :: f.id
  }

  /** The records that a surviving fact, path or link names. */
  function Referenced(frame: Frame, c: Case): set<string> {
    (set f | f in c.facts && KeepsFact(frame, f) :: f.provenance)
    + (if c.paths == [] then {} else {c.paths[0].provenance})
    + (set l | l in c.links && KeepsLink(c, l) :: l.provenance)
  }

  predicate KeepsRecord(frame: Frame, c: Case, r: Record) {
    r.id in Referenced(frame, c)
  }

  predicate KeepsPath(c: Case, p: Chain) {
    c.paths != [] && p == c.paths[0]
  }

  /** Everything an omission of the projected case may be about. */
  function Surviving(frame: Frame, c: Case): set<string> {
    {frame.claim}
    + (set e | e in c.entities && KeepsEntity(frame, c, e) :: e.id)
    + (set l | l in c.links && KeepsLink(c, l) :: l.id)
    + (if c.paths == [] then {} else {c.paths[0].id})
    + RetainedFacts(frame, c)
    + (set u | u in c.unknowns && KeepsUnknown(frame, c, u) :: u.id)
    + (set r | r in c.records && KeepsRecord(frame, c, r) :: r.id)
  }

  predicate KeepsOmission(frame: Frame, c: Case, o: Omission) {
    o.subject in Surviving(frame, c)
  }

  /** The ids withheld, in the order they are found. */
  function AllWithheld(frame: Frame, c: Case): seq<string> {
    Withheld(c.entities, (e: Entity) => KeepsEntity(frame, c, e), ENTITY_ID)
    + Withheld(c.links, (l: Link) => KeepsLink(c, l), LINK_ID)
    + Withheld(c.paths, (p: Chain) => KeepsPath(c, p), CHAIN_ID)
    + Withheld(c.facts, (f: Statement) => KeepsFact(frame, f), FACT_ID)
    + Withheld(c.unknowns, (u: Unknown) => KeepsUnknown(frame, c, u), UNKNOWN_ID)
    + c.constraints
    + Withheld(c.records, (r: Record) => KeepsRecord(frame, c, r), RECORD_ID)
    + Withheld(c.omissions, (o: Omission) => KeepsOmission(frame, c, o), OMISSION_ID)
  }

  lemma AtMostOnce(s: seq<string>, x: string)
    requires NoRepeat(s)
    ensures multiset(s)[x] <= 1
  {
    if s != [] {
      var rest, last := s[..|s| - 1], s[|s| - 1];
      assert s == rest + [last];
      AtMostOnce(rest, x);
      if last == x {
        assert x !in rest;
      }
    }
  }

  /** Each kind's share of an id: how many of its members carry it, and how many of those are withheld. */
  datatype Shares = Shares(entities: nat, links: nat, paths: nat, facts: nat, unknowns: nat, constraints: nat,
                           records: nat, omissions: nat)
  {
    function Sum(): nat {
      entities + links + paths + facts + unknowns + constraints + records + omissions
    }

    predicate Within(other: Shares) {
      && entities <= other.entities && links <= other.links && paths <= other.paths && facts <= other.facts
      && unknowns <= other.unknowns && constraints <= other.constraints && records <= other.records
      && omissions <= other.omissions
    }
  }

  function Carriers(c: Case, x: string): Shares {
    Shares(multiset(IdsOf(c.entities, ENTITY_ID))[x], multiset(IdsOf(c.links, LINK_ID))[x],
           multiset(IdsOf(c.paths, CHAIN_ID))[x], multiset(IdsOf(c.facts, FACT_ID))[x],
           multiset(IdsOf(c.unknowns, UNKNOWN_ID))[x], multiset(c.constraints)[x],
           multiset(IdsOf(c.records, RECORD_ID))[x], multiset(IdsOf(c.omissions, OMISSION_ID))[x])
  }

  function WithheldShares(frame: Frame, c: Case, x: string): Shares {
    Shares(multiset(Withheld(c.entities, (e: Entity) => KeepsEntity(frame, c, e), ENTITY_ID))[x],
           multiset(Withheld(c.links, (l: Link) => KeepsLink(c, l), LINK_ID))[x],
           multiset(Withheld(c.paths, (p: Chain) => KeepsPath(c, p), CHAIN_ID))[x],
           multiset(Withheld(c.facts, (f: Statement) => KeepsFact(frame, f), FACT_ID))[x],
           multiset(Withheld(c.unknowns, (u: Unknown) => KeepsUnknown(frame, c, u), UNKNOWN_ID))[x],
           multiset(c.constraints)[x],
           multiset(Withheld(c.records, (r: Record) => KeepsRecord(frame, c, r), RECORD_ID))[x],
           multiset(Withheld(c.omissions, (o: Omission) => KeepsOmission(frame, c, o), OMISSION_ID))[x])
  }

  lemma CarriersSum(c: Case, x: string)
    ensures multiset(AllIds(c))[x] == Carriers(c, x).Sum()
  {}

  lemma WithheldSum(frame: Frame, c: Case, x: string)
    ensures multiset(AllWithheld(frame, c))[x] == WithheldShares(frame, c, x).Sum()
  {
    hide Withheld, KeepsEntity, KeepsLink, KeepsPath, KeepsFact, KeepsUnknown, KeepsRecord, KeepsOmission;
  }

  lemma WithheldWithin(frame: Frame, c: Case, x: string)
    ensures WithheldShares(frame, c, x).Within(Carriers(c, x))
  {
    hide Withheld, IdsOf, KeepsEntity, KeepsLink, KeepsPath, KeepsFact, KeepsUnknown, KeepsRecord, KeepsOmission;
    WithheldCounts(c.entities, (e: Entity) => KeepsEntity(frame, c, e), ENTITY_ID, x);
    WithheldCounts(c.links, (l: Link) => KeepsLink(c, l), LINK_ID, x);
    WithheldCounts(c.paths, (p: Chain) => KeepsPath(c, p), CHAIN_ID, x);
    WithheldCounts(c.facts, (f: Statement) => KeepsFact(frame, f), FACT_ID, x);
    WithheldCounts(c.unknowns, (u: Unknown) => KeepsUnknown(frame, c, u), UNKNOWN_ID, x);
    WithheldCounts(c.records, (r: Record) => KeepsRecord(frame, c, r), RECORD_ID, x);
    WithheldCounts(c.omissions, (o: Omission) => KeepsOmission(frame, c, o), OMISSION_ID, x);
  }

  /** With distinct ids, an id is withheld as often as the one kind that carries it withholds it. */
  lemma OneKind(frame: Frame, c: Case, x: string)
    requires NoRepeat(AllIds(c))
    ensures var carriers, withheld := Carriers(c, x), WithheldShares(frame, c, x);
            && withheld.Within(carriers) && carriers.Sum() <= 1
            && multiset(AllWithheld(frame, c))[x] == withheld.Sum()
  {
    hide AllIds, AllWithheld, Carriers, WithheldShares;
    AtMostOnce(AllIds(c), x);
    CarriersSum(c, x);
    WithheldSum(frame, c, x);
    WithheldWithin(frame, c, x);
  }

  /** Every member of the case survives unnamed or is named by exactly one omission. */
  ghost predicate AllAccounted(frame: Frame, c: Case, omissions: seq<Omission>) {
    && Accounts(c.entities, (e: Entity) => KeepsEntity(frame, c, e), ENTITY_ID, omissions)
    && Accounts(c.links, (l: Link) => KeepsLink(c, l), LINK_ID, omissions)
    && Accounts(c.paths, (p: Chain) => KeepsPath(c, p), CHAIN_ID, omissions)
    && Accounts(c.facts, (f: Statement) => KeepsFact(frame, f), FACT_ID, omissions)
    && Accounts(c.unknowns, (u: Unknown) => KeepsUnknown(frame, c, u), UNKNOWN_ID, omissions)
    && Accounts(c.constraints, _ => false, CONSTRAINT_ID, omissions)
    && Accounts(c.records, (r: Record) => KeepsRecord(frame, c, r), RECORD_ID, omissions)
    && Accounts(c.omissions, (o: Omission) => KeepsOmission(frame, c, o), OMISSION_ID, omissions)
  }

  ghost predicate NamesWithheld(frame: Frame, c: Case, omissions: seq<Omission>) {
    forall x :: NamedCount(omissions, x) == multiset(AllWithheld(frame, c))[x]
  }

  /** One of the eight shares: where a total of at most one falls to it, it falls to no other. */
  ghost predicate IsShare(share: Shares -> nat) {
    forall whole: Shares, part: Shares ::
      part.Within(whole) && whole.Sum() <= 1 && share(whole) > 0 ==> share(part) == part.Sum() && share(whole) == 1
  }

  /** The members of one kind are accounted for, by the share of the ids that falls to the kind. */
  lemma AccountsKind<T>(frame: Frame, c: Case, omissions: seq<Omission>, s: seq<T>, keep: T -> bool, id: T -> string,
                        share: Shares -> nat)
    requires NoRepeat(AllIds(c)) && NamesWithheld(frame, c, omissions) && IsShare(share)
    requires forall x :: share(Carriers(c, x)) == multiset(IdsOf(s, id))[x]
    requires forall x :: share(WithheldShares(frame, c, x)) == multiset(Withheld(s, keep, id))[x]
    ensures Accounts(s, keep, id, omissions)
  {
    hide NoRepeat, AllIds, AllWithheld, NamedCount, Withheld, Carriers, WithheldShares;
    forall m <- s ensures NamedCount(omissions, id(m)) == if keep(m) then 0 else 1 {
      OneKind(frame, c, id(m));
      Carried(s, id, m);
      WithheldCounts(s, keep, id, id(m));
    }
  }

  lemma EachKindAccounted(frame: Frame, c: Case, omissions: seq<Omission>)
    requires NoRepeat(AllIds(c)) && NamesWithheld(frame, c, omissions)
    ensures AllAccounted(frame, c, omissions)
  {
    hide NoRepeat, AllIds, NamesWithheld, Accounts, Withheld;
    AccountsKind(frame, c, omissions, c.entities, (e: Entity) => KeepsEntity(frame, c, e), ENTITY_ID,
                 (s: Shares) => s.entities);
    AccountsKind(frame, c, omissions, c.links, (l: Link) => KeepsLink(c, l), LINK_ID, (s: Shares) => s.links);
    AccountsKind(frame, c, omissions, c.paths, (p: Chain) => KeepsPath(c, p), CHAIN_ID, (s: Shares) => s.paths);
    AccountsKind(frame, c, omissions, c.facts, (f: Statement) => KeepsFact(frame, f), FACT_ID,
                 (s: Shares) => s.facts);
    AccountsKind(frame, c, omissions, c.unknowns, (u: Unknown) => KeepsUnknown(frame, c, u), UNKNOWN_ID,
                 (s: Shares) => s.unknowns);
    ConstraintsAccounted(frame, c, omissions);
    AccountsKind(frame, c, omissions, c.records, (r: Record) => KeepsRecord(frame, c, r), RECORD_ID,
                 (s: Shares) => s.records);
    AccountsKind(frame, c, omissions, c.omissions, (o: Omission) => KeepsOmission(frame, c, o), OMISSION_ID,
                 (s: Shares) => s.omissions);
  }

  lemma ConstraintsAccounted(frame: Frame, c: Case, omissions: seq<Omission>)
    requires NoRepeat(AllIds(c)) && NamesWithheld(frame, c, omissions)
    ensures Accounts(c.constraints, _ => false, CONSTRAINT_ID, omissions)
  {
    hide NoRepeat, AllIds, AllWithheld, NamedCount, Withheld;
    forall m <- c.constraints ensures NamedCount(omissions, m) == 1 {
      OneKind(frame, c, m);
      assert m in multiset(c.constraints);
    }
  }

  // ----- Writing omissions -----

  /** Omissions have distinct ids, all of them handed out. */
  predicate Handed(omissions: seq<Omission>, used: set<string>) {
    NoRepeat(IdsOf(omissions, OMISSION_ID)) && forall o <- omissions :: o.id in used
  }

  lemma HandedNext(omissions: seq<Omission>, used: set<string>, next: Omission)
    requires Handed(omissions, used) && next.id !in used
    ensures Handed(omissions + [next], used + {next.id})
  {
    var ids := IdsOf(omissions + [next], OMISSION_ID);
    assert ids == IdsOf(omissions, OMISSION_ID) + [next.id];
    forall i | 0 <= i < |omissions| ensures ids[i] != next.id {
      assert omissions[i] in omissions && ids[i] == omissions[i].id;
    }
  }

  function LevelOmission(frame: Frame, id: string, member: string): Omission {
    Omission(id, LEVEL_PROJECTION, frame.claim, WithheldReason(member))
  }

  lemma NamedNext(omissions: seq<Omission>, frame: Frame, id: string, member: string, x: string)
    ensures NamedCount(omissions + [LevelOmission(frame, id, member)], x) ==
            NamedCount(omissions, x) + if member == x then 1 else 0
  {
    var next := LevelOmission(frame, id, member);
    assert (omissions + [next])[..|omissions|] == omissions;
    if Names(next, x) {
      ReasonNames(member, x);
    }
  }

  /** The omissions from `start` on say of the claim that the members are withheld, in the order given. */
  predicate LevelNotes(frame: Frame, members: seq<string>, omissions: seq<Omission>, start: nat) {
    && |omissions| == start + |members|
    && forall i | 0 <= i < |members| ::
         && omissions[start + i] == LevelOmission(frame, omissions[start + i].id, members[i])
         && "OM_level_projection_" + frame.sanitize(members[i]) <= omissions[start + i].id
  }

  /** Adds one level-projection omission for each withheld member. */
  method NameWithheld(frame: Frame, ids: IdAllocator, kept: seq<Omission>, withheld: seq<string>)
    returns (omissions: seq<Omission>)
    requires Handed(kept, ids.used) && forall o <- kept :: o.kind != LEVEL_PROJECTION
    modifies ids
    ensures Handed(omissions, ids.used)
    ensures forall x :: NamedCount(omissions, x) == multiset(withheld)[x]
    ensures kept <= omissions
    ensures LevelNotes(frame, withheld, omissions, |kept|)
  {
    hide NamedCount, Handed, WithheldReason;
    omissions := kept;
    forall x ensures NamedCount(kept, x) == 0 {
      NoneNamed(kept, x);
    }
    for i := 0 to |withheld|
      invariant Handed(omissions, ids.used)
      invariant forall x :: NamedCount(omissions, x) == multiset(withheld[..i])[x]
      invariant kept <= omissions
      invariant LevelNotes(frame, withheld[..i], omissions, |kept|)
    {
      var member := withheld[i];
      assert withheld[..i + 1] == withheld[..i] + [member];
      ghost var used := ids.used;
      var id := ids.Allocate("OM_level_projection_" + frame.sanitize(member));
      var next := LevelOmission(frame, id, member);
      StartsWith("OM_level_projection_" + frame.sanitize(member), id);
      HandedNext(omissions, used, next);
      forall x ensures NamedCount(omissions + [next], x) == multiset(withheld[..i + 1])[x] {
        NamedNext(omissions, frame, id, member, x);
      }
      omissions := omissions + [next];
    }
    assert withheld[..|withheld|] == withheld;
  }

  function PremiseReason(frame: Frame, input: string, record: string): string {
    "l0 withholds input " + frame.inputText(input) + " of " + record
  }

  /** The premise of a record is withheld, and some omission on that record says so. */
  predicate PremiseNoted(frame: Frame, premises: seq<Omission>, record: string, input: string) {
    exists o <- premises ::
      o.kind == PROVENANCE_PREMISE && o.subject == record && o.reason == PremiseReason(frame, input, record)
  }

  /** The omission says of a record that one of its inputs is withheld, and it is. */
  predicate IsPremiseNote(frame: Frame, records: seq<Record>, retained: set<string>, o: Omission) {
    && o.kind == PROVENANCE_PREMISE
    && exists r <- records, input <- r.inputs ::
         && input !in retained && o.subject == r.id && o.reason == PremiseReason(frame, input, r.id)
         && "OM_premise_l0_" + frame.sanitize(r.id) + "_" + frame.sanitize(input) <= o.id
  }

  lemma NotedStays(frame: Frame, premises: seq<Omission>, next: Omission, record: string, input: string)
    requires PremiseNoted(frame, premises, record, input)
    ensures PremiseNoted(frame, premises + [next], record, input)
  {
    var o :| o in premises && o.kind == PROVENANCE_PREMISE && o.subject == record
             && o.reason == PremiseReason(frame, input, record);
    assert o in premises + [next];
  }

  /** Notes every input of one record that names a withheld fact. */
  method NotePremises(frame: Frame, ids: IdAllocator, retained: set<string>, record: Record, before: seq<Omission>)
    returns (premises: seq<Omission>)
    requires Handed(before, ids.used)
    modifies ids
    ensures Handed(premises, ids.used) && before <= premises
    ensures forall o <- premises[|before|..] :: IsPremiseNote(frame, [record], retained, o)
    ensures forall input <- record.inputs :: input in retained || PremiseNoted(frame, premises, record.id, input)
  {
    hide Handed, PremiseNoted;
    premises := before;
    for i := 0 to |record.inputs|
      invariant Handed(premises, ids.used) && before <= premises
      invariant forall o <- premises[|before|..] :: IsPremiseNote(frame, [record], retained, o)
      invariant forall k | 0 <= k < i ::
                  record.inputs[k] in retained || PremiseNoted(frame, premises, record.id, record.inputs[k])
    {
      var input := record.inputs[i];
      if input !in retained {
        ghost var used := ids.used;
        var id := ids.Allocate("OM_premise_l0_" + frame.sanitize(record.id) + "_" + frame.sanitize(input));
        var next := Omission(id, PROVENANCE_PREMISE, record.id, PremiseReason(frame, input, record.id));
        StartsWith("OM_premise_l0_" + frame.sanitize(record.id) + "_" + frame.sanitize(input), id);
        HandedNext(premises, used, next);
        forall k | 0 <= k < i && record.inputs[k] !in retained
          ensures PremiseNoted(frame, premises + [next], record.id, record.inputs[k])
        {
          NotedStays(frame, premises, next, record.id, record.inputs[k]);
        }
        assert PremiseNoted(frame, premises + [next], record.id, input) by {
          JustNoted(frame, premises, next, record.id, input);
        }
        assert (premises + [next])[|before|..] == premises[|before|..] + [next];
        assert record in [record] && input in record.inputs;
        premises := premises + [next];
      }
    }
  }

  lemma NoteOfOne(frame: Frame, records: seq<Record>, r: Record, retained: set<string>, o: Omission)
    requires r in records && IsPremiseNote(frame, [r], retained, o)
    ensures IsPremiseNote(frame, records, retained, o) && o.subject in IdsOf(records, RECORD_ID)
  {
    var i :| 0 <= i < |records| && records[i] == r;
    assert IdsOf(records, RECORD_ID)[i] == r.id;
  }

  lemma JustNoted(frame: Frame, premises: seq<Omission>, next: Omission, record: string, input: string)
    requires next.kind == PROVENANCE_PREMISE && next.subject == record
    requires next.reason == PremiseReason(frame, input, record)
    ensures PremiseNoted(frame, premises + [next], record, input)
  {
    assert next in premises + [next];
  }

  /** Each record with only the inputs that are still there. */
  function Trimmed(records: seq<Record>, retained: set<string>): (r: seq<Record>)
    ensures |r| == |records| && forall i | 0 <= i < |r| :: r[i].id == records[i].id
  {
    seq(|records|, i requires 0 <= i < |records| =>
      records[i].(inputs := Kept(records[i].inputs, (input: string) => input in retained)))
  }

  /** Every withheld input of every record is noted. */
  predicate AllNoted(frame: Frame, premises: seq<Omission>, records: seq<Record>, retained: set<string>) {
    forall r <- records, input <- r.inputs :: input in retained || PremiseNoted(frame, premises, r.id, input)
  }

  lemma NotedInMore(frame: Frame, premises: seq<Omission>, more: seq<Omission>, record: string, input: string)
    requires PremiseNoted(frame, premises, record, input) && premises <= more
    ensures PremiseNoted(frame, more, record, input)
  {
    var o :| o in premises && o.kind == PROVENANCE_PREMISE && o.subject == record
             && o.reason == PremiseReason(frame, input, record);
    assert o in more;
  }

  method TrimRecords(frame: Frame, ids: IdAllocator, retained: set<string>, records: seq<Record>,
                     before: seq<Omission>) returns (trimmed: seq<Record>, omissions: seq<Omission>)
    requires Handed(before, ids.used)
    modifies ids
    ensures trimmed == Trimmed(records, retained) && before <= omissions && Handed(omissions, ids.used)
    ensures AllNoted(frame, omissions, records, retained)
    ensures forall o <- omissions[|before|..] ::
              IsPremiseNote(frame, records, retained, o) && o.subject in IdsOf(records, RECORD_ID)
  {
    hide Handed, PremiseNoted, IsPremiseNote;
    trimmed, omissions := Trimmed(records, retained), before;
    for i := 0 to |records|
      invariant before <= omissions && Handed(omissions, ids.used)
      invariant AllNoted(frame, omissions, records[..i], retained)
      invariant forall o <- omissions[|before|..] ::
                  IsPremiseNote(frame, records, retained, o) && o.subject in IdsOf(records, RECORD_ID)
    {
      var more := NotePremises(frame, ids, retained, records[i], omissions);
      forall r <- records[..i], input <- r.inputs
        ensures input in retained || PremiseNoted(frame, more, r.id, input)
      {
        if input !in retained {
          NotedInMore(frame, omissions, more, r.id, input);
        }
      }
      assert records[..i + 1] == records[..i] + [records[i]];
      forall o <- more[|omissions|..]
        ensures IsPremiseNote(frame, records, retained, o) && o.subject in IdsOf(records, RECORD_ID)
      {
        NoteOfOne(frame, records, records[i], retained, o);
      }
      assert more[|before|..] == omissions[|before|..] + more[|omissions|..];
      omissions := more;
    }
    assert records[..|records|] == records;
  }

  lemma {:induction false} WithheldJoin<T>(a: seq<T>, b: seq<T>, keep: T -> bool, id: T -> string)
    requires forall x <- b :: keep(x)
    ensures Withheld(a + b, keep, id) == Withheld(a, keep, id)
    decreases |b|
  {
    if b == [] {
      assert a + b == a;
    } else {
      var rest := b[..|b| - 1];
      assert (a + b)[..|a + b| - 1] == a + rest && (a + b)[|a + b| - 1] == b[|b| - 1];
      assert b[|b| - 1] in b;
      WithheldJoin(a, rest, keep, id);
    }
  }

  lemma {:induction false} KeptHanded(omissions: seq<Omission>, used: set<string>, keep: Omission -> bool)
    requires Handed(omissions, used)
    ensures Handed(Kept(omissions, keep), used)
    decreases |omissions|
  {
    if omissions != [] {
      var rest, last := omissions[..|omissions| - 1], omissions[|omissions| - 1];
      assert IdsOf(rest, OMISSION_ID) == IdsOf(omissions, OMISSION_ID)[..|rest|];
      KeptHanded(rest, used, keep);
      if keep(last) {
        var kept := Kept(rest, keep);
        forall o <- kept ensures o.id != last.id {
          var i :| 0 <= i < |rest| && rest[i] == o;
          assert IdsOf(omissions, OMISSION_ID)[i] == o.id;
        }
        HandedNext(kept, used - {last.id}, last);
        assert last in omissions;
        assert used == (used - {last.id}) + {last.id};
      }
    }
  }

  /**
   * The omissions still about something come first and as they were, then notes of inputs that are withheld, and
   * then the withheld members in ascending order.
   */
  ghost predicate OmissionsFollow(frame: Frame, c: Case, omissions: seq<Omission>) {
    var kept := Kept(c.omissions, (o: Omission) => KeepsOmission(frame, c, o));
    var records := Kept(c.records, (r: Record) => KeepsRecord(frame, c, r));
    var withheld := Sort(AllWithheld(frame, c), LexLeq);
    exists notes: seq<Omission> ::
      && kept + notes <= omissions
      && LevelNotes(frame, withheld, omissions, |kept + notes|)
      && forall o <- notes :: IsPremiseNote(frame, records, RetainedFacts(frame, c), o)
  }

  lemma {:induction false} KeptJoin<T>(a: seq<T>, b: seq<T>, keep: T -> bool)
    requires forall x <- b :: keep(x)
    ensures Kept(a + b, keep) == Kept(a, keep) + b
    decreases |b|
  {
    if b == [] {
      assert a + b == a;
    } else {
      var rest, last := b[..|b| - 1], b[|b| - 1];
      assert (a + b)[..|a + b| - 1] == a + rest && (a + b)[|a + b| - 1] == last && rest + [last] == b;
      KeptJoin(a, rest, keep);
    }
  }

  /** What the projection promises. */
  ghost predicate Projected(frame: Frame, before: Case, after: Case) {
    && after.entities == Kept(before.entities, (e: Entity) => KeepsEntity(frame, before, e))
    && after.links == Kept(before.links, (l: Link) => KeepsLink(before, l))
    && after.paths == (if before.paths == [] then [] else [before.paths[0]])
    && after.facts == Kept(before.facts, (f: Statement) => KeepsFact(frame, f))
    && after.unknowns == Kept(before.unknowns, (u: Unknown) => KeepsUnknown(frame, before, u))
    && after.constraints == []
    && after.records == Trimmed(Kept(before.records, (r: Record) => KeepsRecord(frame, before, r)),
                                RetainedFacts(frame, before))
    && AllAccounted(frame, before, after.omissions)
    && NoRepeat(IdsOf(after.omissions, OMISSION_ID))
    && (forall o <- after.omissions :: o.subject in Surviving(frame, before))
    && OmissionsFollow(frame, before, after.omissions)
    && AllNoted(frame, after.omissions, Kept(before.records, (r: Record) => KeepsRecord(frame, before, r)),
                RetainedFacts(frame, before))
  }

  /** The primary path's entities survive, and so does every link that joins two of its segments. */
  lemma PathSurvives(frame: Frame, before: Case, after: Case)
    requires Projected(frame, before, after) && before.paths != []
    ensures before.paths[0] in after.paths
    ensures forall e <- before.entities :: e.id in before.paths[0].segments ==> e in after.entities
    ensures forall l <- before.links, i | 0 < i < |before.paths[0].segments| ::
              l.from == before.paths[0].segments[i - 1] && l.to == before.paths[0].segments[i] ==> l in after.links
  {
    hide OmissionsFollow, AllAccounted, Mentions, References;
    forall e <- before.entities | e.id in before.paths[0].segments ensures e in after.entities {
      assert e.id in Segments(before);
      assert KeepsEntity(frame, before, e);
    }
    forall l <- before.links, i | 0 < i < |before.paths[0].segments|
      ensures l.from == before.paths[0].segments[i - 1] && l.to == before.paths[0].segments[i] ==> l in after.links
    {
      assert l.from == Segments(before)[i - 1] && l.to == Segments(before)[i] ==> KeepsLink(before, l);
    }
  }

  /** No condition of a surviving path names an entity of the case that does not survive. */
  predicate ConditionsResolve(before: Case, after: Case) {
    forall p <- after.paths, k <- p.conditions, e <- before.entities :: e.id in References(k) ==> e in after.entities
  }

  /** Every entity that a condition of the primary path names is held for its own sake. */
  predicate ConditionsHeld(frame: Frame, c: Case) {
    c.paths != [] ==>
      forall k <- c.paths[0].conditions, e <- c.entities :: e.id in References(k) ==> Held(frame, c, e.id)
  }

  /** The conditions of the surviving path do not count for what is kept, so they can be left dangling. */
  lemma ConditionsResolveExactly(frame: Frame, before: Case, after: Case)
    requires Projected(frame, before, after)
    ensures ConditionsResolve(before, after) <==> ConditionsHeld(frame, before)
  {
    hide OmissionsFollow, AllAccounted, AllNoted, References, Held, RetainedEntities, Surviving;
    forall e <- before.entities ensures e in after.entities <==> Held(frame, before, e.id) {
      HeldExactly(frame, before, e.id);
    }
  }

  /**
   * No surviving fact, unknown, link or record refers to an entity, a record or a fact of the case that does not
   * survive, nor does a surviving path by its provenance; by its conditions it does not exactly when everything
   * they name is held for its own sake.
   */
  lemma NothingDangles(frame: Frame, before: Case, after: Case)
    requires Projected(frame, before, after) && NoRepeat(IdsOf(before.facts, FACT_ID))
    ensures forall f <- after.facts, e <- before.entities :: e.id in References(f.formula) ==> e in after.entities
    ensures forall u <- after.unknowns, e <- before.entities :: e.id in References(u.property) ==> e in after.entities
    ensures forall l <- after.links, e <- before.entities :: e.id == l.from || e.id == l.to ==> e in after.entities
    ensures forall f <- after.facts, r <- before.records :: r.id == f.provenance ==> SurvivesTrimmed(after, r)
    ensures forall l <- after.links, r <- before.records :: r.id == l.provenance ==> SurvivesTrimmed(after, r)
    ensures forall p <- after.paths, r <- before.records :: r.id == p.provenance ==> SurvivesTrimmed(after, r)
    ensures forall r <- after.records, f <- before.facts :: f.id in r.inputs ==> f in after.facts
    ensures ConditionsResolve(before, after) <==> ConditionsHeld(frame, before)
  {
    hide OmissionsFollow, AllAccounted, Mentions, References, AllNoted, ConditionsResolve, ConditionsHeld;
    ConditionsResolveExactly(frame, before, after);
    forall l <- after.links, e <- before.entities | e.id == l.from || e.id == l.to ensures e in after.entities {
      assert KeepsLink(before, l);
      assert e.id in Segments(before);
      assert KeepsEntity(frame, before, e);
    }
    forall f <- after.facts, e <- before.entities | e.id in References(f.formula) ensures e in after.entities {
      assert KeepsEntity(frame, before, e);
    }
    forall u <- after.unknowns, e <- before.entities | e.id in References(u.property) ensures e in after.entities {
      assert KeepsEntity(frame, before, e);
    }
    forall r <- before.records | KeepsRecord(frame, before, r) ensures SurvivesTrimmed(after, r) {
      RecordStays(frame, before, after, r);
    }
    forall r <- after.records, f <- before.facts | f.id in r.inputs ensures f in after.facts {
      InputKept(frame, before, after, r, f);
    }
  }

  predicate SurvivesTrimmed(c: Case, r: Record) {
    exists kept <- c.records :: kept.id == r.id
  }

  lemma RecordStays(frame: Frame, before: Case, after: Case, r: Record)
    requires Projected(frame, before, after) && r in before.records && KeepsRecord(frame, before, r)
    ensures SurvivesTrimmed(after, r)
  {
    hide OmissionsFollow, AllAccounted, AllNoted, Referenced;
    var kept := Kept(before.records, (x: Record) => KeepsRecord(frame, before, x));
    var i :| 0 <= i < |kept| && kept[i] == r;
    assert after.records[i].id == r.id;
  }

  lemma InputKept(frame: Frame, before: Case, after: Case, r: Record, f: Statement)
    requires Projected(frame, before, after) && NoRepeat(IdsOf(before.facts, FACT_ID))
    requires r in after.records && f in before.facts && f.id in r.inputs
    ensures f in after.facts
  {
    hide OmissionsFollow, AllAccounted, AllNoted, Referenced, KeepsFact, Trimmed, NoRepeat;
    TrimmedInputs(Kept(before.records, (x: Record) => KeepsRecord(frame, before, x)), RetainedFacts(frame, before), r,
                  f.id);
    var g :| g in before.facts && KeepsFact(frame, g) && g.id == f.id;
    OneFact(before.facts, f, g);
  }

  lemma TrimmedInputs(records: seq<Record>, retained: set<string>, r: Record, input: string)
    requires r in Trimmed(records, retained) && input in r.inputs
    ensures input in retained
  {
    var i :| 0 <= i < |records| && Trimmed(records, retained)[i] == r;
  }

  lemma OneFact(facts: seq<Statement>, f: Statement, g: Statement)
    requires NoRepeat(IdsOf(facts, FACT_ID)) && f in facts && g in facts && f.id == g.id
    ensures f == g
  {
    var a :| 0 <= a < |facts| && facts[a] == f;
    var b :| 0 <= b < |facts| && facts[b] == g;
    assert IdsOf(facts, FACT_ID)[a] == IdsOf(facts, FACT_ID)[b];
  }

  lemma FirstPathOnly(c: Case)
    requires NoRepeat(IdsOf(c.paths, CHAIN_ID)) && c.paths != []
    ensures Withheld(c.paths, (p: Chain) => KeepsPath(c, p), CHAIN_ID) == IdsOf(c.paths[1..], CHAIN_ID)
  {
    WithheldTail(c.paths, (p: Chain) => KeepsPath(c, p), CHAIN_ID, |c.paths|);
    assert c.paths[..|c.paths|] == c.paths;
  }

  /** When only the first member is kept, the rest are withheld in order. */
  lemma {:induction false} WithheldTail<T>(s: seq<T>, keep: T -> bool, id: T -> string, n: nat)
    requires 0 < n <= |s| && keep(s[0]) && NoRepeat(IdsOf(s, id)) && forall x <- s :: keep(x) ==> x == s[0]
    ensures Withheld(s[..n], keep, id) == IdsOf(s[1..n], id)
    decreases n
  {
    assert s[..n][..n - 1] == s[..n - 1];
    if n > 1 {
      WithheldTail(s, keep, id, n - 1);
      assert IdsOf(s, id)[0] != IdsOf(s, id)[n - 1];
      assert IdsOf(s[1..n], id) == IdsOf(s[1..n - 1], id) + [id(s[n - 1])];
      assert s[n - 1] in s;
    } else {
      assert Withheld(s[..0], keep, id) == [];
    }
  }

  lemma PathIdsDistinct(c: Case)
    requires NoRepeat(AllIds(c))
    ensures NoRepeat(IdsOf(c.paths, CHAIN_ID)) && NoRepeat(IdsOf(c.omissions, OMISSION_ID))
  {
    var ids := AllIds(c);
    var start := |c.entities| + |c.links|;
    forall i, j | 0 <= i < j < |c.paths| ensures IdsOf(c.paths, CHAIN_ID)[i] != IdsOf(c.paths, CHAIN_ID)[j] {
      assert ids[start + i] == IdsOf(c.paths, CHAIN_ID)[i] && ids[start + j] == IdsOf(c.paths, CHAIN_ID)[j];
    }
    var last := |ids| - |c.omissions|;
    forall i, j | 0 <= i < j < |c.omissions|
      ensures IdsOf(c.omissions, OMISSION_ID)[i] != IdsOf(c.omissions, OMISSION_ID)[j]
    {
      assert ids[last + i] == IdsOf(c.omissions, OMISSION_ID)[i];
      assert ids[last + j] == IdsOf(c.omissions, OMISSION_ID)[j];
    }
  }

  /** The builder's case and the omission handles it has given out. */
  class CaseBuilder {
    var value: Case
    const omissionIds: IdAllocator

    /** Members have distinct ids, and no omission is a level projection's yet. */
    ghost predicate Valid()
      reads this, omissionIds
    {
      && NoRepeat(AllIds(value))
      && (forall o <- value.omissions :: o.id in omissionIds.used && o.kind != LEVEL_PROJECTION)
    }

    constructor (value: Case, ids: IdAllocator)
      requires NoRepeat(AllIds(value))
      requires forall o <- value.omissions :: o.id in ids.used && o.kind != LEVEL_PROJECTION
      ensures Valid() && this.value == value && omissionIds == ids
    {
      this.value, omissionIds := value, ids;
    }

    /** Cuts the members down to what the claim's own question needs, and names everything cut. */
    method Project(frame: Frame, isL0: bool)
      requires Valid()
      modifies this, omissionIds
      ensures !isL0 ==> value == old(value)
      ensures isL0 ==> Projected(frame, old(value), value)
    {
      if !isL0 {
        return;
      }
      hide Projected, NoRepeat, AllIds;
      var c := value;
      var members, withheld := WithholdMembers(frame, c);
      assert Handed(c.omissions, omissionIds.used) by {
        PathIdsDistinct(c);
        StartHanded(c.omissions, omissionIds.used);
      }
      var trimmed, omissions := ProjectOmissions(frame, omissionIds, c, members.records, withheld);
      value := members.(records := trimmed, omissions := omissions);
      Concludes(frame, c, members, value);
    }
  }

  /** Every member but the omissions, kept or withheld. */
  ghost predicate MembersKept(frame: Frame, before: Case, after: Case) {
    && after.entities == Kept(before.entities, (e: Entity) => KeepsEntity(frame, before, e))
    && after.links == Kept(before.links, (l: Link) => KeepsLink(before, l))
    && after.paths == (if before.paths == [] then [] else [before.paths[0]])
    && after.facts == Kept(before.facts, (f: Statement) => KeepsFact(frame, f))
    && after.unknowns == Kept(before.unknowns, (u: Unknown) => KeepsUnknown(frame, before, u))
    && after.constraints == []
    && after.records == Kept(before.records, (r: Record) => KeepsRecord(frame, before, r))
  }

  function MembersWithheld(frame: Frame, c: Case): seq<string> {
    Withheld(c.entities, (e: Entity) => KeepsEntity(frame, c, e), ENTITY_ID)
    + Withheld(c.links, (l: Link) => KeepsLink(c, l), LINK_ID)
    + Withheld(c.paths, (p: Chain) => KeepsPath(c, p), CHAIN_ID)
    + Withheld(c.facts, (f: Statement) => KeepsFact(frame, f), FACT_ID)
    + Withheld(c.unknowns, (u: Unknown) => KeepsUnknown(frame, c, u), UNKNOWN_ID)
    + c.constraints
    + Withheld(c.records, (r: Record) => KeepsRecord(frame, c, r), RECORD_ID)
  }

  method WithholdMembers(frame: Frame, c: Case) returns (members: Case, withheld: seq<string>)
    requires NoRepeat(AllIds(c))
    ensures MembersKept(frame, c, members) && withheld == MembersWithheld(frame, c)
  {
    hide NoRepeat, AllIds, Withheld, Kept, KeepsEntity, KeepsLink, KeepsFact, KeepsUnknown, KeepsRecord;
    PathIdsDistinct(c);
    var entities, w1 := Split(c.entities, (e: Entity) => KeepsEntity(frame, c, e), ENTITY_ID);
    var links, w2 := Split(c.links, (l: Link) => KeepsLink(c, l), LINK_ID);
    var paths, w3: seq<string> := c.paths, [];
    if c.paths != [] {
      FirstPathOnly(c);
      paths, w3 := [c.paths[0]], IdsOf(c.paths[1..], CHAIN_ID);
    } else {
      NothingWithheld((p: Chain) => KeepsPath(c, p), CHAIN_ID);
    }
    var facts, w4 := Split(c.facts, (f: Statement) => KeepsFact(frame, f), FACT_ID);
    var unknowns, w5 := Split(c.unknowns, (u: Unknown) => KeepsUnknown(frame, c, u), UNKNOWN_ID);
    var records, w6 := Split(c.records, (r: Record) => KeepsRecord(frame, c, r), RECORD_ID);
    members := Case(entities, links, paths, facts, unknowns, [], records, c.omissions);
    withheld := w1 + w2 + w3 + w4 + w5 + c.constraints + w6;
  }

  /** The omissions of the projected case: those still about something, the premises cut, the members withheld. */
  method ProjectOmissions(frame: Frame, ids: IdAllocator, c: Case, records: seq<Record>, withheld: seq<string>)
    returns (trimmed: seq<Record>, omissions: seq<Omission>)
    requires Handed(c.omissions, ids.used) && forall o <- c.omissions :: o.kind != LEVEL_PROJECTION
    requires records == Kept(c.records, (r: Record) => KeepsRecord(frame, c, r))
    requires withheld == MembersWithheld(frame, c)
    modifies ids
    ensures trimmed == Trimmed(records, RetainedFacts(frame, c))
    ensures Handed(omissions, ids.used) && NamesWithheld(frame, c, omissions)
    ensures forall o <- omissions :: o.subject in Surviving(frame, c)
    ensures AllNoted(frame, omissions, records, RetainedFacts(frame, c)) && OmissionsFollow(frame, c, omissions)
  {
    hide Withheld, Kept, Surviving, Handed, NamedCount, RetainedFacts, Trimmed, PremiseNoted, KeepsRecord;
    hide IsPremiseNote, OmissionsFollow, LevelNotes;
    var all;
    trimmed, all := TrimRecords(frame, ids, RetainedFacts(frame, c), records, c.omissions);
    assert all == c.omissions + all[|c.omissions|..];
    forall o <- all[|c.omissions|..] ensures KeepsOmission(frame, c, o) && o.kind != LEVEL_PROJECTION {
      RecordSurvives(frame, c, o.subject);
      NoteKind(frame, records, RetainedFacts(frame, c), o);
    }
    WithheldJoin(c.omissions, all[|c.omissions|..], (o: Omission) => KeepsOmission(frame, c, o), OMISSION_ID);
    KeptJoin(c.omissions, all[|c.omissions|..], (o: Omission) => KeepsOmission(frame, c, o));
    var kept, gone := Split(all, (o: Omission) => KeepsOmission(frame, c, o), OMISSION_ID);
    KeptHanded(all, ids.used, (o: Omission) => KeepsOmission(frame, c, o));
    KeptOmissions(frame, c, all);
    omissions := NameWithheld(frame, ids, kept, Sort(withheld + gone, LexLeq));
    assert withheld + gone == AllWithheld(frame, c);
    NotedAfterKeeping(frame, c, all, kept, omissions, records);
    Following(frame, c, all[|c.omissions|..], omissions);
    AllAbout(frame, c, kept, Sort(withheld + gone, LexLeq), omissions);
  }

  lemma KeptOmissions(frame: Frame, c: Case, all: seq<Omission>)
    ensures forall o <- Kept(all, (o: Omission) => KeepsOmission(frame, c, o)) :: o in all && KeepsOmission(frame, c, o)
  {
    hide Surviving;
  }

  lemma NoteKind(frame: Frame, records: seq<Record>, retained: set<string>, o: Omission)
    requires IsPremiseNote(frame, records, retained, o)
    ensures o.kind == PROVENANCE_PREMISE
  {}

  lemma Following(frame: Frame, c: Case, notes: seq<Omission>, omissions: seq<Omission>)
    requires var kept := Kept(c.omissions, (o: Omission) => KeepsOmission(frame, c, o));
             && kept + notes <= omissions
             && LevelNotes(frame, Sort(AllWithheld(frame, c), LexLeq), omissions, |kept + notes|)
    requires var records := Kept(c.records, (r: Record) => KeepsRecord(frame, c, r));
             forall o <- notes :: IsPremiseNote(frame, records, RetainedFacts(frame, c), o)
    ensures OmissionsFollow(frame, c, omissions)
  {
    hide Kept, KeepsRecord, KeepsOmission, RetainedFacts, IsPremiseNote, AllWithheld, LevelNotes, Sort;
  }

  /** What the level notes are about, the claim, survives. */
  lemma AllAbout(frame: Frame, c: Case, kept: seq<Omission>, members: seq<string>, omissions: seq<Omission>)
    requires kept <= omissions && LevelNotes(frame, members, omissions, |kept|)
    requires forall o <- kept :: o.subject in Surviving(frame, c)
    ensures forall o <- omissions :: o.subject in Surviving(frame, c)
  {
    assert frame.claim in Surviving(frame, c);
    hide Surviving;
    forall i | 0 <= i < |omissions| ensures omissions[i].subject in Surviving(frame, c) {
      if i < |kept| {
        assert kept[i] in kept;
      } else {
        var k := i - |kept|;
        assert omissions[|kept| + k] == LevelOmission(frame, omissions[|kept| + k].id, members[k]);
      }
    }
  }

  /** A premise's omission is about a surviving record, so it stays. */
  lemma NotedAfterKeeping(frame: Frame, c: Case, all: seq<Omission>, kept: seq<Omission>, omissions: seq<Omission>,
                          records: seq<Record>)
    requires records == Kept(c.records, (r: Record) => KeepsRecord(frame, c, r))
    requires AllNoted(frame, all, records, RetainedFacts(frame, c))
    requires kept == Kept(all, (o: Omission) => KeepsOmission(frame, c, o)) && kept <= omissions
    ensures AllNoted(frame, omissions, records, RetainedFacts(frame, c))
  {
    hide Surviving, RetainedFacts, KeepsRecord;
    forall r <- records, input <- r.inputs | input !in RetainedFacts(frame, c)
      ensures PremiseNoted(frame, omissions, r.id, input)
    {
      var o :| o in all && o.kind == PROVENANCE_PREMISE && o.subject == r.id
               && o.reason == PremiseReason(frame, input, r.id);
      var i :| 0 <= i < |records| && records[i] == r;
      assert IdsOf(records, RECORD_ID)[i] == r.id;
      RecordSurvives(frame, c, r.id);
      assert o in kept;
    }
  }

  lemma Concludes(frame: Frame, before: Case, members: Case, after: Case)
    requires NoRepeat(AllIds(before)) && MembersKept(frame, before, members)
    requires after == members.(records := after.records, omissions := after.omissions)
    requires after.records == Trimmed(members.records, RetainedFacts(frame, before))
    requires NoRepeat(IdsOf(after.omissions, OMISSION_ID)) && NamesWithheld(frame, before, after.omissions)
    requires forall o <- after.omissions :: o.subject in Surviving(frame, before)
    requires AllNoted(frame, after.omissions, members.records, RetainedFacts(frame, before))
    requires OmissionsFollow(frame, before, after.omissions)
    ensures Projected(frame, before, after)
  {
    hide NoRepeat, AllIds, Kept, Trimmed, RetainedFacts, NamesWithheld, Surviving, AllNoted, AllAccounted;
    hide OmissionsFollow;
    EachKindAccounted(frame, before, after.omissions);
  }

  lemma NothingWithheld<T>(keep: T -> bool, id: T -> string)
    ensures Withheld([], keep, id) == []
  {}

  lemma StartHanded(omissions: seq<Omission>, used: set<string>)
    requires NoRepeat(IdsOf(omissions, OMISSION_ID)) && forall o <- omissions :: o.id in used
    ensures Handed(omissions, used)
  {}

  lemma RecordSurvives(frame: Frame, c: Case, id: string)
    requires id in IdsOf(Kept(c.records, (r: Record) => KeepsRecord(frame, c, r)), RECORD_ID)
    ensures id in Surviving(frame, c)
  {
    hide KeepsRecord;
    var kept := Kept(c.records, (r: Record) => KeepsRecord(frame, c, r));
    var i :| 0 <= i < |kept| && IdsOf(kept, RECORD_ID)[i] == id;
    assert kept[i] in kept;
  }
}
