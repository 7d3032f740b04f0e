/** What the first-owner merge keeps, and when the merged proof passes the bus's checks. */
module FactMerge {
  import opened Basics
  import opened FactIdentity
  import opened FactBatch
  import opened FactAssembly

  // ----- Who owns what -----

  predicate Derives(component: Completion, row: Row) {
    exists f <- component.facts :: f.row == row
  }

  /** Some component before `n` publishes a fact with this id. */
  predicate Provided(components: seq<Completion>, n: nat, id: StableId)
    requires n <= |components|
  {
    exists i | 0 <= i < n :: exists f <- components[i].facts :: f.id == id
  }

  /** Each component's facts have distinct ids. */
  predicate EachDistinct(components: seq<Completion>) {
    forall i | 0 <= i < |components| :: NoRepeat(Ids(components[i].facts))
  }

  function IdSet(facts: seq<Fact>): set<StableId> {
    set f | f in facts :: f.id
  }

  /** A fact with this key belongs to someone earlier. */
  predicate Overrides(rowKey: Row -> string, facts: seq<Fact>, owned: set<StableId>, key: string) {
    exists f <- facts :: f.id in owned && rowKey(f.row) == key
  }

  lemma DistinctInit(facts: seq<Fact>)
    requires facts != [] && NoRepeat(Ids(facts))
    ensures var rest, last := facts[..|facts| - 1], facts[|facts| - 1];
            facts == rest + [last] && NoRepeat(Ids(rest)) && last.id !in IdSet(rest)
  {
    var rest, last := facts[..|facts| - 1], facts[|facts| - 1];
    assert Ids(rest) == Ids(facts)[..|rest|];
    assert forall i | 0 <= i < |rest| :: Ids(facts)[i] != Ids(facts)[|rest|];
  }

  lemma {:induction false} ClaimOwns(rowKey: Row -> string, facts: seq<Fact>, owned: set<StableId>)
    ensures Claim(rowKey, facts, owned).owned == owned + IdSet(facts)
    decreases |facts|
  {
    if facts != [] {
      var rest, last := facts[..|facts| - 1], facts[|facts| - 1];
      assert facts == rest + [last];
      ClaimOwns(rowKey, rest, owned);
      assert IdSet(facts) == IdSet(rest) + {last.id};
    }
  }

  lemma {:induction false} ClaimKeeps(rowKey: Row -> string, facts: seq<Fact>, owned: set<StableId>, f: Fact)
    requires NoRepeat(Ids(facts))
    ensures f in Claim(rowKey, facts, owned).kept <==> f in facts && f.id !in owned
    decreases |facts|
  {
    hide NoRepeat, Claim, IdSet;
    ClaimStart(rowKey, owned);
    if facts != [] {
      var rest := facts[..|facts| - 1];
      DistinctInit(facts);
      ClaimKeeps(rowKey, rest, owned, f);
      ClaimOwns(rowKey, rest, owned);
      ClaimStep(rowKey, facts, owned);
    }
  }

  lemma {:induction false} ClaimOverrides(rowKey: Row -> string, facts: seq<Fact>, owned: set<StableId>,
                                          key: string)
    requires NoRepeat(Ids(facts))
    ensures key in Claim(rowKey, facts, owned).overridden <==> Overrides(rowKey, facts, owned, key)
    decreases |facts|
  {
    hide NoRepeat, Claim, IdSet;
    ClaimStart(rowKey, owned);
    if facts != [] {
      var rest, last := facts[..|facts| - 1], facts[|facts| - 1];
      DistinctInit(facts);
      ClaimOverrides(rowKey, rest, owned, key);
      ClaimOwns(rowKey, rest, owned);
      ClaimStep(rowKey, facts, owned);
      assert Overrides(rowKey, facts, owned, key) <==>
             Overrides(rowKey, rest, owned, key) || (last.id in owned && rowKey(last.row) == key);
    }
  }

  lemma ClaimStart(rowKey: Row -> string, owned: set<StableId>)
    ensures Claim(rowKey, [], owned) == Claimed([], {}, owned)
  {}

  lemma {:induction false} Survives(rowKey: Row -> string, witnesses: seq<Witness>, overridden: set<string>)
    ensures forall w :: w in Surviving(rowKey, witnesses, overridden) <==>
                        w in witnesses && rowKey(w.result) !in overridden
    decreases |witnesses|
  {
    if witnesses != [] {
      var rest, last := witnesses[..|witnesses| - 1], witnesses[|witnesses| - 1];
      assert witnesses == rest + [last];
      Survives(rowKey, rest, overridden);
    }
  }

  /** The fact of component `i` belongs to someone earlier. */
  predicate Overridden(rowKey: Row -> string, components: seq<Completion>, i: nat, row: Row)
    requires i < |components|
  {
    exists f <- components[i].facts :: Provided(components, i, f.id) && rowKey(f.row) == rowKey(row)
  }

  lemma ProvidedPrefix(components: seq<Completion>, n: nat, i: nat, id: StableId)
    requires i <= n <= |components|
    ensures Provided(components[..n], i, id) == Provided(components, i, id)
  {
    assert forall k | 0 <= k < i :: components[..n][k] == components[k];
    if Provided(components, i, id) {
      var k :| 0 <= k < i && exists f <- components[k].facts :: f.id == id;
      assert exists f <- components[..n][k].facts :: f.id == id;
    }
    if Provided(components[..n], i, id) {
      var k :| 0 <= k < i && exists f <- components[..n][k].facts :: f.id == id;
      assert exists f <- components[k].facts :: f.id == id;
    }
  }

  lemma ProvidedStep(components: seq<Completion>, n: nat, id: StableId)
    requires n < |components|
    ensures Provided(components, n + 1, id) <==>
            Provided(components, n, id) || id in IdSet(components[n].facts)
  {
    if Provided(components, n + 1, id) {
      var k :| 0 <= k < n + 1 && exists f <- components[k].facts :: f.id == id;
      if k == n {
        var f :| f in components[n].facts && f.id == id;
      }
    }
    if id in IdSet(components[n].facts) {
      var f :| f in components[n].facts && f.id == id;
      assert exists g <- components[n].facts :: g.id == id;
    }
    if Provided(components, n, id) {
      var k :| 0 <= k < n && exists f <- components[k].facts :: f.id == id;
    }
  }

  lemma {:induction false} GatherOwns(rowKey: Row -> string, components: seq<Completion>, id: StableId)
    ensures id in Gather(rowKey, components).owned <==> Provided(components, |components|, id)
    decreases |components|
  {
    hide Provided, Claim, Surviving, IdSet;
    if components == [] {
      NothingProvided(id);
    } else {
      var n := |components| - 1;
      GatherOwns(rowKey, components[..n], id);
      ProvidedPrefix(components, n, n, id);
      ProvidedStep(components, n, id);
      ClaimOwns(rowKey, components[n].facts, Gather(rowKey, components[..n]).owned);
    }
  }

  lemma NothingProvided(id: StableId)
    ensures !Provided([], 0, id)
  {}

  predicate FirstIn(components: seq<Completion>, i: nat, f: Fact)
    requires i < |components|
  {
    f in components[i].facts && !Provided(components, i, f.id)
  }

  /** The merged facts are each component's facts that no earlier component has. */
  lemma {:induction false} GatherKeepsFacts(rowKey: Row -> string, components: seq<Completion>, f: Fact)
    requires EachDistinct(components)
    ensures f in Gather(rowKey, components).facts <==> exists i: nat | i < |components| :: FirstIn(components, i, f)
    decreases |components|
  {
    hide Provided, Claim, Surviving, NoRepeat;
    if components != [] {
      var n := |components| - 1;
      assert forall i | 0 <= i < n :: components[..n][i] == components[i];
      GatherKeepsFacts(rowKey, components[..n], f);
      GatherOwns(rowKey, components[..n], f.id);
      ProvidedPrefix(components, n, n, f.id);
      ClaimKeeps(rowKey, components[n].facts, Gather(rowKey, components[..n]).owned, f);
      forall i: nat | i < n ensures FirstIn(components[..n], i, f) == FirstIn(components, i, f) {
        ProvidedPrefix(components, n, i, f.id);
      }
      if i: nat :| i < |components| && FirstIn(components, i, f) {
        assert i < n ==> FirstIn(components[..n], i, f);
      }
      if i: nat :| i < n && FirstIn(components[..n], i, f) {
        assert FirstIn(components, i, f);
      }
      assert f in components[n].facts && !Provided(components, n, f.id) ==> FirstIn(components, n, f);
    }
  }

  predicate KeptIn(rowKey: Row -> string, components: seq<Completion>, i: nat, w: Witness)
    requires i < |components|
  {
    w in components[i].witnesses && !Overridden(rowKey, components, i, w.result)
  }

  lemma OverriddenPrefix(rowKey: Row -> string, components: seq<Completion>, n: nat, i: nat, row: Row)
    requires i < n <= |components|
    ensures Overridden(rowKey, components[..n], i, row) == Overridden(rowKey, components, i, row)
  {
    hide Provided;
    forall f <- components[i].facts ensures Provided(components[..n], i, f.id) == Provided(components, i, f.id) {
      ProvidedPrefix(components, n, i, f.id);
    }
  }

  lemma OverriddenLast(rowKey: Row -> string, components: seq<Completion>, n: nat, row: Row)
    requires n < |components|
    ensures Overridden(rowKey, components, n, row) <==>
            Overrides(rowKey, components[n].facts, Gather(rowKey, components[..n]).owned, rowKey(row))
  {
    hide Provided, Gather;
    forall f <- components[n].facts
      ensures f.id in Gather(rowKey, components[..n]).owned <==> Provided(components, n, f.id)
    {
      GatherOwns(rowKey, components[..n], f.id);
      ProvidedPrefix(components, n, n, f.id);
    }
  }

  /** The merged witnesses are each component's witnesses of the facts it keeps. */
  lemma {:induction false} GatherKeepsWitnesses(rowKey: Row -> string, components: seq<Completion>, w: Witness)
    requires EachDistinct(components)
    ensures w in Gather(rowKey, components).witnesses <==>
            exists i: nat | i < |components| :: KeptIn(rowKey, components, i, w)
    decreases |components|
  {
    hide Provided, Claim, Surviving, NoRepeat, Overridden, Overrides;
    if components != [] {
      var n := |components| - 1;
      assert forall i | 0 <= i < n :: components[..n][i] == components[i];
      GatherKeepsWitnesses(rowKey, components[..n], w);
      var owned := Gather(rowKey, components[..n]).owned;
      ClaimOverrides(rowKey, components[n].facts, owned, rowKey(w.result));
      Survives(rowKey, components[n].witnesses, Claim(rowKey, components[n].facts, owned).overridden);
      OverriddenLast(rowKey, components, n, w.result);
      forall i: nat | i < n ensures KeptIn(rowKey, components[..n], i, w) == KeptIn(rowKey, components, i, w) {
        OverriddenPrefix(rowKey, components, n, i, w.result);
      }
      if i: nat :| i < |components| && KeptIn(rowKey, components, i, w) {
        assert i < n ==> KeptIn(rowKey, components[..n], i, w);
      }
      if i: nat :| i < n && KeptIn(rowKey, components[..n], i, w) {
        assert KeptIn(rowKey, components, i, w);
      }
      assert w in components[n].witnesses && !Overridden(rowKey, components, n, w.result) ==>
               KeptIn(rowKey, components, n, w);
    }
  }
}
