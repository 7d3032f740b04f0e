/** What splicing keeps: the meaning of a formula under every interpretation, and every term of a chain in order. */
module EirMeaning {
  import opened Expressions
  import opened EirWriter
  import opened EirTokens
  import opened EirParser
  import opened EirRoundTrip

  // ----- Meaning -----

  /**
   * An interpretation. A node that is no connective gets any meaning at all, from its own fields and the meanings
   * of its operands; a meaning is true in some worlds, and every set of worlds is where some meaning is true.
   */
  datatype Model<!World, !Meaning> = Model(
    node: (Expression, seq<Meaning>) -> Meaning,
    worlds: Meaning -> iset<World>,
    verdict: iset<World> -> Meaning)

  ghost predicate IsModel<World(!new), Meaning>(model: Model<World, Meaning>) {
    forall s: iset<World> :: model.worlds(model.verdict(s)) == s
  }

  ghost predicate InAll<World(!new), Meaning>(model: Model<World, Meaning>, ms: seq<Meaning>, w: World) {
    forall m <- ms :: w in model.worlds(m)
  }

  ghost predicate InAny<World(!new), Meaning>(model: Model<World, Meaning>, ms: seq<Meaning>, w: World) {
    exists m <- ms :: w in model.worlds(m)
  }

  /** True with all of them. */
  ghost function All<World(!new), Meaning>(model: Model<World, Meaning>, ms: seq<Meaning>): iset<World> {
    iset w: World | InAll(model, ms, w)
  }

  /** True with any of them. */
  ghost function Any<World(!new), Meaning>(model: Model<World, Meaning>, ms: seq<Meaning>): iset<World> {
    iset w: World | InAny(model, ms, w)
  }

  ghost function Joined<World(!new), Meaning>(model: Model<World, Meaning>, kind: Kind, ms: seq<Meaning>): iset<World>
    requires IsConnective(kind)
  {
    if kind == And then All(model, ms) else Any(model, ms)
  }

  ghost function Eval<World(!new), Meaning>(model: Model<World, Meaning>, e: Expression): Meaning
    decreases e, 1
  {
    var ms := EvalAll(model, e.operands);
    if IsConnective(e.kind) then model.verdict(Joined(model, e.kind, ms)) else model.node(e.(operands := []), ms)
  }

  ghost function EvalAll<World(!new), Meaning>(model: Model<World, Meaning>, es: seq<Expression>): (ms: seq<Meaning>)
    ensures |ms| == |es|
    decreases es, 0
  {
    if es == [] then [] else [Eval(model, es[0])] + EvalAll(model, es[1..])
  }

  lemma JoinedSplits<World(!new), Meaning>(model: Model<World, Meaning>, kind: Kind, a: seq<Meaning>, b: seq<Meaning>)
    requires IsConnective(kind)
    ensures Joined(model, kind, a + b) ==
            if kind == And then Joined(model, kind, a) * Joined(model, kind, b)
            else Joined(model, kind, a) + Joined(model, kind, b)
  {
    forall w ensures w in All(model, a + b) <==> w in All(model, a) && w in All(model, b) {
      if w in All(model, a + b) {
        forall m <- a ensures w in model.worlds(m) {
          assert m in a + b;
        }
        forall m <- b ensures w in model.worlds(m) {
          assert m in a + b;
        }
      }
    }
    forall w ensures w in Any(model, a + b) <==> w in Any(model, a) || w in Any(model, b) {
      if m :| m in a && w in model.worlds(m) {
        assert m in a + b;
      }
      if m :| m in b && w in model.worlds(m) {
        assert m in a + b;
      }
    }
  }

  lemma JoinedOne<World(!new), Meaning>(model: Model<World, Meaning>, kind: Kind, m: Meaning)
    requires IsConnective(kind)
    ensures Joined(model, kind, [m]) == model.worlds(m)
  {
    assert m in [m];
    assert All(model, [m]) == model.worlds(m);
    assert Any(model, [m]) == model.worlds(m);
  }

  lemma {:induction false} EvalAllJoins<World(!new), Meaning>(model: Model<World, Meaning>, a: seq<Expression>,
                                                              b: seq<Expression>)
    ensures EvalAll(model, a + b) == EvalAll(model, a) + EvalAll(model, b)
    decreases |a|
  {
    hide Eval;
    if a == [] {
      assert a + b == b;
    } else {
      assert (a + b)[1..] == a[1..] + b;
      EvalAllJoins(model, a[1..], b);
    }
  }

  /** Splicing an operand list leaves the worlds of the connective over it as they are. */
  lemma {:induction false} SpliceKeepsWorlds<World(!new), Meaning>(model: Model<World, Meaning>, kind: Kind,
                                                                   es: seq<Expression>)
    requires IsModel(model) && IsConnective(kind)
    ensures Joined(model, kind, EvalAll(model, Splice(kind, es))) == Joined(model, kind, EvalAll(model, es))
    decreases |es|
  {
    hide Joined, IsModel;
    if es != [] {
      var first := if es[0].kind == kind then es[0].operands else [es[0]];
      SpliceKeepsWorlds(model, kind, es[1..]);
      FirstKeepsWorlds(model, kind, es[0]);
      EvalAllJoins(model, first, Splice(kind, es[1..]));
      JoinedSplits(model, kind, EvalAll(model, first), EvalAll(model, Splice(kind, es[1..])));
      JoinedSplits(model, kind, [Eval(model, es[0])], EvalAll(model, es[1..]));
    }
  }

  lemma FirstKeepsWorlds<World(!new), Meaning>(model: Model<World, Meaning>, kind: Kind, e: Expression)
    requires IsModel(model) && IsConnective(kind)
    ensures Joined(model, kind, EvalAll(model, if e.kind == kind then e.operands else [e])) ==
            Joined(model, kind, [Eval(model, e)])
  {
    hide Joined;
    JoinedOne(model, kind, Eval(model, e));
    if e.kind == kind {
      assert model.worlds(model.verdict(Joined(model, kind, EvalAll(model, e.operands)))) ==
             Joined(model, kind, EvalAll(model, e.operands));
    } else {
      assert [e][1..] == [] && EvalAll(model, [e]) == [Eval(model, e)];
    }
  }

  /** Flattening keeps the meaning of every formula, under every interpretation. */
  lemma {:induction false} FlattenKeepsMeaning<World(!new), Meaning>(model: Model<World, Meaning>, e: Expression)
    requires IsModel(model)
    ensures Eval(model, Flatten(e)) == Eval(model, e)
    decreases e, 1
  {
    hide Joined, IsModel;
    FlattenAllKeepsMeaning(model, e.operands);
    if IsConnective(e.kind) {
      SpliceKeepsWorlds(model, e.kind, FlattenAll(e.operands));
    }
  }

  lemma {:induction false} FlattenAllKeepsMeaning<World(!new), Meaning>(model: Model<World, Meaning>,
                                                                        es: seq<Expression>)
    requires IsModel(model)
    ensures EvalAll(model, FlattenAll(es)) == EvalAll(model, es)
    decreases es, 0
  {
    hide Eval, IsModel, Flatten;
    if es != [] {
      FlattenKeepsMeaning(model, es[0]);
      FlattenAllKeepsMeaning(model, es[1..]);
      assert FlattenAll(es)[1..] == FlattenAll(es[1..]);
    }
  }

  /** A chain as the parser makes it means the connective over the operands it was made of. */
  lemma ChainMeans<World(!new), Meaning>(model: Model<World, Meaning>, kind: Kind, operands: seq<Expression>)
    requires IsModel(model) && IsConnective(kind)
    ensures Eval(model, MakeConnective(kind, operands)) ==
            model.verdict(Joined(model, kind, EvalAll(model, operands)))
  {
    hide Joined, IsModel;
    SpliceKeepsWorlds(model, kind, operands);
  }

  /** What is written and can be read at all means the same when it is read. */
  lemma TextKeepsMeaning<World(!new), Meaning>(model: Model<World, Meaning>, e: Expression)
    requires IsModel(model) && Shaped(e) && Readable(e) && WritePredicate(e, 0).Some?
    ensures var back := ReadPredicate(WritePredicate(e, 0).value);
            back.Some? && Eval(model, back.value) == Eval(model, e)
  {
    hide Eval, IsModel, Shaped, Readable, WritePredicate, ReadPredicate, Flatten;
    PredicateRoundTrip(e);
    FlattenKeepsMeaning(model, e);
  }

  // ----- Terms -----

  /** The largest subterms of another kind below a chain of connectives, from left to right. */
  function Terms(kind: Kind, e: Expression): seq<Expression>
    decreases e, 1
  {
    if e.kind == kind then TermsOf(kind, e.operands) else [e]
  }

  function TermsOf(kind: Kind, es: seq<Expression>): seq<Expression>
    decreases es, 0
  {
    if es == [] then [] else Terms(kind, es[0]) + TermsOf(kind, es[1..])
  }

  lemma {:induction false} TermsJoin(kind: Kind, a: seq<Expression>, b: seq<Expression>)
    ensures TermsOf(kind, a + b) == TermsOf(kind, a) + TermsOf(kind, b)
    decreases |a|
  {
    hide Terms;
    if a == [] {
      assert a + b == b;
    } else {
      assert (a + b)[1..] == a[1..] + b;
      TermsJoin(kind, a[1..], b);
    }
  }

  lemma {:induction false} SpliceKeepsTerms(kind: Kind, es: seq<Expression>)
    ensures TermsOf(kind, Splice(kind, es)) == TermsOf(kind, es)
    decreases |es|
  {
    if es != [] {
      var first := if es[0].kind == kind then es[0].operands else [es[0]];
      SpliceKeepsTerms(kind, es[1..]);
      TermsJoin(kind, first, Splice(kind, es[1..]));
      assert [es[0]][1..] == [];
    }
  }

  lemma {:induction false} FlattenAllJoins(a: seq<Expression>, b: seq<Expression>)
    ensures FlattenAll(a + b) == FlattenAll(a) + FlattenAll(b)
    decreases |a|
  {
    hide Flatten;
    if a == [] {
      assert a + b == b;
    } else {
      assert (a + b)[1..] == a[1..] + b;
      FlattenAllJoins(a[1..], b);
    }
  }

  /** Flattening keeps every term of a chain, in order, each flattened itself. */
  lemma {:induction false} FlattenKeepsTerms(kind: Kind, e: Expression)
    requires IsConnective(kind)
    ensures Terms(kind, Flatten(e)) == FlattenAll(Terms(kind, e))
    decreases e, 1
  {
    if e.kind == kind {
      SpliceKeepsTerms(kind, FlattenAll(e.operands));
      FlattenKeepsTermsOf(kind, e.operands);
    } else {
      FlattenOne([e]);
    }
  }

  lemma {:induction false} FlattenKeepsTermsOf(kind: Kind, es: seq<Expression>)
    requires IsConnective(kind)
    ensures TermsOf(kind, FlattenAll(es)) == FlattenAll(TermsOf(kind, es))
    decreases es, 0
  {
    hide Flatten, Terms;
    if es != [] {
      FlattenKeepsTerms(kind, es[0]);
      FlattenKeepsTermsOf(kind, es[1..]);
      FlattenAllJoins(Terms(kind, es[0]), TermsOf(kind, es[1..]));
      assert FlattenAll(es)[1..] == FlattenAll(es[1..]);
    }
  }

  /** A chain as the parser makes it has the terms of the operands it was made of, in order. */
  lemma ChainHasTerms(kind: Kind, operands: seq<Expression>)
    ensures Terms(kind, MakeConnective(kind, operands)) == TermsOf(kind, operands)
  {
    SpliceKeepsTerms(kind, operands);
  }

  /** What a flattened node is: a chain over its terms, or the node over its operands, each flattened. */
  lemma FlattenedNode(e: Expression)
    ensures Flatten(e).(operands := []) == e.(operands := [])
    ensures Flatten(e).operands == FlattenAll(if IsConnective(e.kind) then Terms(e.kind, e) else e.operands)
  {
    if IsConnective(e.kind) {
      FlattenKeepsTermsOf(e.kind, e.operands);
      FlattenIsFlat(e);
      OwnTerms(e.kind, Flatten(e).operands);
      SpliceKeepsTerms(e.kind, FlattenAll(e.operands));
    }
  }

  lemma {:induction false} OwnTerms(kind: Kind, es: seq<Expression>)
    requires forall e <- es :: e.kind != kind
    ensures TermsOf(kind, es) == es
    decreases |es|
  {
    if es != [] {
      OwnTerms(kind, es[1..]);
    }
  }
}
