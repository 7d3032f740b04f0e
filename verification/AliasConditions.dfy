/**
 * Aliases the analysis could not establish: each is a condition of the stated path, and the projection keeps the
 * path but not always what its conditions name.
 */
module AliasConditions {
  import opened Expressions
  import opened CaseProjection

  datatype AliasLink = AliasLink(left: string, right: string, epistemic: Epistemic)

  /** The formula joins two references by `alias`. */
  predicate IsAlias(e: Expression) {
    && e.kind == Call && e.text == "alias" && |e.operands| == 2
    && e.operands[0].kind == Reference && e.operands[1].kind == Reference
  }

  function LinkOf(f: Statement): AliasLink
    requires IsAlias(f.formula)
  {
    AliasLink(f.formula.operands[0].text, f.formula.operands[1].text, f.epistemic)
  }

  function AliasCall(left: string, right: string): Expression {
    Make(Call, "alias", [Make(Reference, left, []), Make(Reference, right, [])])
  }

  /** The alias links of the facts, in order. */
  function Aliases(facts: seq<Statement>): seq<AliasLink> {
    if facts == [] then []
    else
      var last := facts[|facts| - 1];
      Aliases(facts[..|facts| - 1]) + (if IsAlias(last.formula) then [LinkOf(last)] else [])
  }

  /** One condition for each alias that is not certain, in order. */
  function Conditions(links: seq<AliasLink>): seq<Expression> {
    if links == [] then []
    else
      var last := links[|links| - 1];
      Conditions(links[..|links| - 1]) + (if last.epistemic == Must then [] else [AliasCall(last.left, last.right)])
  }

  method CollectAliases(facts: seq<Statement>) returns (links: seq<AliasLink>)
    ensures links == Aliases(facts)
  {
    links := [];
    for i := 0 to |facts|
      invariant links == Aliases(facts[..i])
    {
      assert facts[..i + 1][..i] == facts[..i];
      if IsAlias(facts[i].formula) {
        links := links + [LinkOf(facts[i])];
      }
    }
    assert facts[..|facts|] == facts;
  }

  method StateConditions(links: seq<AliasLink>) returns (conditions: seq<Expression>)
    ensures conditions == Conditions(links)
  {
    conditions := [];
    for i := 0 to |links|
      invariant conditions == Conditions(links[..i])
    {
      assert links[..i + 1][..i] == links[..i];
      if links[i].epistemic != Must {
        conditions := conditions + [AliasCall(links[i].left, links[i].right)];
      }
    }
    assert links[..|links|] == links;
  }

  /** An alias fact that is not certain. */
  predicate Uncertain(f: Statement) {
    IsAlias(f.formula) && f.epistemic != Must
  }

  function Ends(f: Statement): set<string>
    requires IsAlias(f.formula)
  {
    {LinkOf(f).left, LinkOf(f).right}
  }

  /** The condition is the one an uncertain alias fact gives rise to. */
  predicate GivesRise(f: Statement, k: Expression) {
    Uncertain(f) && k == AliasCall(LinkOf(f).left, LinkOf(f).right)
  }

  /** The conditions are those of the uncertain alias facts, and no others. */
  lemma {:induction false} ConditionsExactly(facts: seq<Statement>, k: Expression)
    ensures k in Conditions(Aliases(facts)) <==> exists f <- facts :: GivesRise(f, k)
    decreases |facts|
  {
    hide GivesRise;
    if facts != [] {
      var rest, last := facts[..|facts| - 1], facts[|facts| - 1];
      assert facts == rest + [last];
      ConditionsExactly(rest, k);
      LastCondition(rest, last, k);
    }
  }

  lemma LastCondition(rest: seq<Statement>, last: Statement, k: Expression)
    ensures k in Conditions(Aliases(rest + [last])) <==> k in Conditions(Aliases(rest)) || GivesRise(last, k)
  {
    assert (rest + [last])[..|rest|] == rest;
    if IsAlias(last.formula) {
      assert (Aliases(rest) + [LinkOf(last)])[..|Aliases(rest)|] == Aliases(rest);
    } else {
      assert Aliases(rest) + [] == Aliases(rest);
    }
  }

  lemma ReferenceNames(text: string)
    ensures References(Make(Reference, text, [])) == {text}
    ensures forall id :: Mentions(Make(Reference, text, []), id) <==> id == text
  {
    assert ReferencesOf([]) == {};
  }

  lemma AliasCallNames(left: string, right: string)
    ensures References(AliasCall(left, right)) == {left, right}
    ensures forall id :: Mentions(AliasCall(left, right), id) <==> id == left || id == right
  {
    var l, r := Make(Reference, left, []), Make(Reference, right, []);
    ReferenceNames(left);
    ReferenceNames(right);
    assert [l, r][1..] == [r] && [r][1..] == [];
    assert ReferencesOf([r]) == {right} && ReferencesOf([l, r]) == {left, right};
    forall id ensures Mentions(AliasCall(left, right), id) <==> Mentions(l, id) || Mentions(r, id) {
      assert AliasCall(left, right).operands == [l, r] && l in [l, r] && r in [l, r];
    }
  }

  /** A formula refers to all its ends. */
  lemma EndsNamed(f: Statement)
    requires IsAlias(f.formula)
    ensures Ends(f) <= References(f.formula) && forall id <- Ends(f) :: Mentions(f.formula, id)
  {
    var operands := f.formula.operands;
    assert operands[1..][0] == operands[1];
    assert operands[0].text in References(operands[0]) && operands[1].text in References(operands[1]);
    assert References(operands[1]) <= ReferencesOf(operands[1..]) <= ReferencesOf(operands);
    assert Mentions(operands[0], operands[0].text) && Mentions(operands[1], operands[1].text);
  }

  /** The primary path carries the conditions of the case's own facts, as the builder states it. */
  predicate StatedUnder(c: Case) {
    c.paths != [] && c.paths[0].conditions == Conditions(Aliases(c.facts))
  }

  /** Every uncertain alias about neither end of the claim joins entities that are held for their own sake. */
  predicate UncertainHeld(frame: Frame, c: Case) {
    forall f <- c.facts, e <- c.entities ::
      Uncertain(f) && !KeepsFact(frame, f) && e.id in Ends(f) ==> Held(frame, c, e.id)
  }

  lemma ConditionHolds(frame: Frame, c: Case, k: Expression, e: Entity)
    requires UncertainHeld(frame, c) && k in Conditions(Aliases(c.facts)) && e in c.entities && e.id in References(k)
    ensures Held(frame, c, e.id)
  {
    hide Conditions, References, KeepsFact, KeepsUnknown, Segments;
    ConditionsExactly(c.facts, k);
    var f :| f in c.facts && GivesRise(f, k);
    AliasCallNames(LinkOf(f).left, LinkOf(f).right);
    if KeepsFact(frame, f) {
      EndsNamed(f);
    }
  }

  lemma EndHolds(frame: Frame, c: Case, f: Statement, e: Entity)
    requires StatedUnder(c) && ConditionsHeld(frame, c)
    requires f in c.facts && e in c.entities && Uncertain(f) && e.id in Ends(f)
    ensures Held(frame, c, e.id)
  {
    hide Conditions, References, Held;
    var k := AliasCall(LinkOf(f).left, LinkOf(f).right);
    ConditionsExactly(c.facts, k);
    AliasCallNames(LinkOf(f).left, LinkOf(f).right);
    assert GivesRise(f, k) && k in c.paths[0].conditions;
  }

  /**
   * The path of a built case keeps all that its conditions name, exactly when every uncertain alias about neither
   * the subject nor the source joins entities that are held for their own sake.
   */
  lemma ConditionsKeptExactly(frame: Frame, before: Case, after: Case)
    requires Projected(frame, before, after) && StatedUnder(before)
    ensures ConditionsResolve(before, after) <==> UncertainHeld(frame, before)
  {
    hide Projected, Held, KeepsFact, Conditions, References, ConditionsResolve;
    ConditionsResolveExactly(frame, before, after);
    if UncertainHeld(frame, before) {
      forall k <- before.paths[0].conditions, e <- before.entities | e.id in References(k)
        ensures Held(frame, before, e.id)
      {
        ConditionHolds(frame, before, k, e);
      }
    }
    if ConditionsHeld(frame, before) {
      forall f <- before.facts, e <- before.entities | Uncertain(f) && !KeepsFact(frame, f) && e.id in Ends(f)
        ensures Held(frame, before, e.id)
      {
        EndHolds(frame, before, f, e);
      }
    }
  }

  /** It is enough that every uncertain alias is about the subject or the source of the claim. */
  lemma AliasesOfTheClaimKept(frame: Frame, before: Case, after: Case)
    requires Projected(frame, before, after) && StatedUnder(before)
    requires forall f <- before.facts ::
               Uncertain(f) ==> Mentions(f.formula, frame.subject) || Mentions(f.formula, frame.source)
    ensures ConditionsResolve(before, after)
  {
    hide Projected, ConditionsResolve, Mentions, Conditions, Held;
    ConditionsKeptExactly(frame, before, after);
  }
}
