/** The parser inverts the writer: a written predicate reads back as the same formula, flattened. */
module EirRoundTrip {
  import opened Basics
  import opened Numerals
  import opened Expressions
  import opened EirLexer
  import opened EirCutting
  import opened EirWriter
  import opened EirTokens
  import opened EirParser

  // ----- Flattening -----

  /** Same-kind connective operands spliced into their parent, at every depth. */
  function Flatten(e: Expression): Expression
    decreases e, 1
  {
    var operands := FlattenAll(e.operands);
    e.(operands := if IsConnective(e.kind) then Splice(e.kind, operands) else operands)
  }

  function FlattenAll(es: seq<Expression>): (r: seq<Expression>)
    ensures |r| == |es| && forall k :: 0 <= k < |es| ==> r[k].kind == es[k].kind
    decreases es, 0
  {
    if es == [] then [] else [Flatten(es[0])] + FlattenAll(es[1..])
  }

  lemma {:induction false} SpliceNothing(kind: Kind, es: seq<Expression>)
    requires forall e <- es :: e.kind != kind
    ensures Splice(kind, es) == es
  {
    if es != [] {
      SpliceNothing(kind, es[1..]);
    }
  }

  lemma {:induction false} FlattenFlat(e: Expression)
    requires Flat(e)
    ensures Flatten(e) == e
    decreases e, 1
  {
    FlattenAllFlat(e.operands);
    if IsConnective(e.kind) {
      SpliceNothing(e.kind, e.operands);
    }
  }

  lemma {:induction false} FlattenAllFlat(es: seq<Expression>)
    requires forall e <- es :: Flat(e)
    ensures FlattenAll(es) == es
    decreases es, 0
  {
    if es != [] {
      FlattenFlat(es[0]);
      FlattenAllFlat(es[1..]);
    }
  }

  /** Flattening leaves no connective directly under its own kind. */
  lemma {:induction false} FlattenIsFlat(e: Expression)
    ensures Flat(Flatten(e))
    decreases e, 1
  {
    FlattenAllIsFlat(e.operands);
    if IsConnective(e.kind) {
      SpliceIsFlat(e.kind, FlattenAll(e.operands));
    }
  }

  lemma {:induction false} FlattenAllIsFlat(es: seq<Expression>)
    ensures forall e <- FlattenAll(es) :: Flat(e)
    decreases es, 0
  {
    if es != [] {
      FlattenIsFlat(es[0]);
      FlattenAllIsFlat(es[1..]);
    }
  }

  lemma {:induction false} SpliceIsFlat(kind: Kind, es: seq<Expression>)
    requires IsConnective(kind) && forall e <- es :: Flat(e)
    ensures forall e <- Splice(kind, es) :: Flat(e) && e.kind != kind
  {
    if es != [] {
      var first := if es[0].kind == kind then es[0].operands else [es[0]];
      assert Flat(es[0]);
      assert forall e <- first :: Flat(e) && e.kind != kind;
      SpliceIsFlat(kind, es[1..]);
      assert Splice(kind, es) == first + Splice(kind, es[1..]);
    }
  }

  // ----- Levels -----

  predicate IsPower(power: int) {
    power in {0, 10, 20, 30, 40, 50, 60}
  }

  /** The production that reads binding powers of at least `power`. */
  function ParseAt(power: int, ts: seq<Token>, p: nat): Parsed<Expression>
    requires p < |ts| && Closed(ts)
  {
    if power <= 0 then ParsePredicate(ts, p)
    else if power <= 10 then ParseImplication(ts, p)
    else if power <= 20 then ParseConnective(Or, ts, p)
    else if power <= 30 then ParseConnective(And, ts, p)
    else if power <= 40 then ParseComparison(ts, p)
    else if power <= 50 then ParseUnary(ts, p)
    else ParsePrimary(ts, p)
  }

  /** `token` does not continue an item read at `power`. */
  predicate Stops(power: int, token: Token) {
    && token.kind != LeftParen
    && (power <= 40 ==> ComparisonText(token.kind) == "")
    && (power <= 30 ==> !IsKeyword(token, "and"))
    && (power <= 20 ==> !IsKeyword(token, "or"))
    && (power <= 10 ==> !IsKeyword(token, "implies"))
  }

  /** `token` is not claimed by a production between `low` and `high`. */
  predicate Opens(low: int, high: int, token: Token) {
    && (low <= 50 < high ==> !IsKeyword(token, "not"))
    && (low <= 0 < high ==> !IsKeyword(token, "forall") && !IsKeyword(token, "exists"))
  }

  /** What a tighter production reads, every looser one reads as well. */
  lemma {:induction false} Lifts(low: int, high: int, ts: seq<Token>, p: nat, e: Expression, q: nat)
    requires IsPower(low) && IsPower(high) && low <= high
    requires p < |ts| && Closed(ts) && q < |ts|
    requires ParseAt(high, ts, p) == Some((e, q))
    requires Stops(low, ts[q]) && Opens(low, high, ts[p])
    ensures ParseAt(low, ts, p) == Some((e, q))
    decreases high - low
  {
    if low < high {
      LiftsOnce(high, ts, p, e, q);
      Lifts(low, high - 10, ts, p, e, q);
    }
  }

  lemma LiftsOnce(high: int, ts: seq<Token>, p: nat, e: Expression, q: nat)
    requires IsPower(high) && 0 < high
    requires p < |ts| && Closed(ts) && q < |ts|
    requires ParseAt(high, ts, p) == Some((e, q))
    requires Stops(high - 10, ts[q]) && Opens(high - 10, high, ts[p])
    ensures ParseAt(high - 10, ts, p) == Some((e, q))
  {
    if high == 40 {
      assert ParseOperands(And, ts, p) == Some(([e], q));
    } else if high == 30 {
      assert ParseOperands(Or, ts, p) == Some(([e], q));
    }
  }

  // ----- First tokens -----

  lemma {:induction false} FirstToken(e: Expression)
    requires Shaped(e) && WriteBare(e).Some?
    ensures |BareTokens(e)| > 0 && BareTokens(e)[0].kind != RightParen
    ensures BindingPower(e.kind) == 60 ==> !IsKeyword(BareTokens(e)[0], "not")
    ensures BindingPower(e.kind) > 0 ==> Opens(0, 10, BareTokens(e)[0])
    decreases e, 0
  {
    hide IsIdentifier;
    match e.kind
    case Compare => FirstPredicateToken(e.operands[0], 50);
    case Implies => FirstPredicateToken(e.operands[0], 20);
    case And | Or => FirstPredicateToken(e.operands[0], OperandPower(e.kind));
    case _ =>
  }

  lemma {:induction false} FirstPredicateToken(e: Expression, minPower: int)
    requires Shaped(e) && WritePredicate(e, minPower).Some?
    ensures |PredicateTokens(e, minPower)| > 0 && PredicateTokens(e, minPower)[0].kind != RightParen
    ensures minPower > 0 ==> Opens(0, 10, PredicateTokens(e, minPower)[0])
    ensures minPower > 50 ==> !IsKeyword(PredicateTokens(e, minPower)[0], "not")
    decreases e, 1
  {
    hide WriteBare, BareTokens;
    FirstToken(e);
  }

  // ----- Values -----

  lemma {:induction false} ParsesValue(e: Expression, ts: seq<Token>, p: nat)
    requires Closed(ts) && Shaped(e) && WriteValue(e).Some?
    requires Occurs(ts, p, ValueTokens(e)) && p + |ValueTokens(e)| < |ts|
    requires ts[p + |ValueTokens(e)|].kind != LeftParen
    ensures ValueTokens(e) != [] && ValueTokens(e)[0].kind != RightParen
    ensures ParseValue(ts, p) == Some((e, p + |ValueTokens(e)|))
    decreases e, 1
  {
    hide IsIdentifier, ParseValue, ValueTokens, WriteValue;
    if e.kind == Call {
      ParsesCallValue(e, ts, p);
    } else {
      ParsesAtomValue(e, ts, p);
    }
  }

  lemma ParsesAtomValue(e: Expression, ts: seq<Token>, p: nat)
    requires Closed(ts) && Shaped(e) && WriteValue(e).Some? && e.kind != Call
    requires Occurs(ts, p, ValueTokens(e)) && p + |ValueTokens(e)| < |ts|
    requires ts[p + |ValueTokens(e)|].kind != LeftParen
    ensures ValueTokens(e) != [] && ValueTokens(e)[0].kind != RightParen
    ensures ParseValue(ts, p) == Some((e, p + |ValueTokens(e)|))
  {
    hide IsIdentifier, ParseValueList, ValuesTokens, WriteValues, Spelling, ReadInteger;
    var tokens := ValueTokens(e);
    OccursAt(ts, p, tokens, 0);
    if e.kind == Integer { SpellingReads(e.integer); }
    if e.kind == Reference { OccursAt(ts, p, tokens, 1); }
  }

  lemma {:induction false} ParsesCallValue(e: Expression, ts: seq<Token>, p: nat)
    requires Closed(ts) && Shaped(e) && WriteValue(e).Some? && e.kind == Call
    requires Occurs(ts, p, ValueTokens(e)) && p + |ValueTokens(e)| < |ts|
    ensures ValueTokens(e) != [] && ValueTokens(e)[0].kind != RightParen
    ensures ParseValue(ts, p) == Some((e, p + |ValueTokens(e)|))
    decreases e, 0
  {
    hide IsIdentifier, Occurs, ParseValueList, ValuesTokens;
    var inner := ValuesTokens(e.operands);
    CallTokens(ts, p, e.text, inner);
    ParsesValueList(e.operands, ts, p + 2);
  }

  lemma CallTokens(ts: seq<Token>, p: nat, name: string, inner: seq<Token>)
    requires Occurs(ts, p, [Word(name), LEFT_PAREN] + inner + [RIGHT_PAREN])
    ensures Occurs(ts, p, [Word(name), LEFT_PAREN]) && ts[p] == Word(name) && ts[p + 1] == LEFT_PAREN
    ensures Occurs(ts, p + 2, inner) && ts[p + 2 + |inner|] == RIGHT_PAREN
  {
    OccursSplit(ts, p, [Word(name), LEFT_PAREN] + inner, [RIGHT_PAREN]);
    OccursSplit(ts, p, [Word(name), LEFT_PAREN], inner);
    OccursAt(ts, p, [Word(name), LEFT_PAREN], 0);
    OccursAt(ts, p, [Word(name), LEFT_PAREN], 1);
    OccursAt(ts, p + 2 + |inner|, [RIGHT_PAREN], 0);
  }

  lemma {:induction false} ParsesValueList(es: seq<Expression>, ts: seq<Token>, p: nat)
    requires Closed(ts) && (forall e <- es :: Shaped(e)) && WriteValues(es).Some?
    requires Occurs(ts, p, ValuesTokens(es)) && p + |ValuesTokens(es)| < |ts|
    requires ts[p + |ValuesTokens(es)|] == RIGHT_PAREN
    ensures ParseValueList(ts, p) == Some((es, p + |ValuesTokens(es)|))
    decreases es, 1
  {
    if es != [] {
      ParsesValues(es, ts, p);
    }
  }

  lemma {:induction false} ParsesValues(es: seq<Expression>, ts: seq<Token>, p: nat)
    requires Closed(ts) && es != [] && (forall e <- es :: Shaped(e)) && WriteValues(es).Some?
    requires Occurs(ts, p, ValuesTokens(es)) && p + |ValuesTokens(es)| < |ts|
    requires ts[p + |ValuesTokens(es)|] == RIGHT_PAREN
    ensures ts[p].kind != RightParen
    ensures ParseValues(ts, p) == Some((es, p + |ValuesTokens(es)|))
    decreases es, 0
  {
    hide WriteValue, ValueTokens, ParseValue, ParseValues, Shaped, Occurs;
    var first := ValueTokens(es[0]);
    if |es| == 1 {
      ParsesValue(es[0], ts, p);
      OccursAt(ts, p, first, 0);
      assert es == [es[0]];
      LastValue(ts, p, es[0], p + |first|);
    } else {
      var rest := ValuesTokens(es[1..]);
      assert |ValuesTokens(es)| == |first| + 1 + |rest|;
      ListTokenParts(ts, p, first, COMMA, rest);
      ParsesValue(es[0], ts, p);
      OccursAt(ts, p, first, 0);
      ParsesValues(es[1..], ts, p + |first| + 1);
      JoinsValues(ts, p, es[0], p + |first|, es[1..], p + |first| + 1 + |rest|);
      assert es == [es[0]] + es[1..];
    }
  }

  lemma LastValue(ts: seq<Token>, p: nat, first: Expression, q: nat)
    requires Closed(ts) && p < |ts| && q < |ts| && ParseValue(ts, p) == Some((first, q)) && ts[q].kind != Comma
    ensures ParseValues(ts, p) == Some(([first], q))
  {
    hide ParseValue;
  }

  lemma JoinsValues(ts: seq<Token>, p: nat, first: Expression, q: nat, rest: seq<Expression>, e: nat)
    requires Closed(ts) && p < |ts| && q + 1 < |ts|
    requires ParseValue(ts, p) == Some((first, q)) && ts[q] == COMMA
    requires ParseValues(ts, q + 1) == Some((rest, e))
    ensures ParseValues(ts, p) == Some(([first] + rest, e))
  {
    hide ParseValue;
  }

  lemma ListTokenParts(ts: seq<Token>, p: nat, first: seq<Token>, separator: Token, rest: seq<Token>)
    requires Occurs(ts, p, first + [separator] + rest)
    ensures Occurs(ts, p, first) && p + |first| < |ts| && ts[p + |first|] == separator
    ensures Occurs(ts, p + |first| + 1, rest)
  {
    OccursSplit(ts, p, first + [separator], rest);
    OccursSplit(ts, p, first, [separator]);
    OccursAt(ts, p + |first|, [separator], 0);
  }

  /** A value holds no connective, so flattening leaves it alone. */
  lemma {:induction false} ValueIsFlat(e: Expression)
    requires Shaped(e) && WriteValue(e).Some?
    ensures Flat(e)
    decreases e, 0
  {
    hide IsIdentifier;
    if e.kind == Call {
      ValuesAreFlat(e.operands);
    }
  }

  lemma {:induction false} ValuesAreFlat(es: seq<Expression>)
    requires (forall e <- es :: Shaped(e)) && WriteValues(es).Some?
    ensures forall e <- es :: Flat(e)
    decreases es, 0
  {
    if es != [] {
      ValueIsFlat(es[0]);
      ValuesAreFlat(es[1..]);
    }
  }

  // ----- Predicates -----

  /** `tokens` stand at `p` and the token after them ends an item read at `power`. */
  predicate Delimited(power: int, ts: seq<Token>, p: nat, tokens: seq<Token>) {
    Occurs(ts, p, tokens) && p + |tokens| < |ts| && Stops(power, ts[p + |tokens|])
  }

  lemma {:induction false} ParsesPredicate(e: Expression, low: int, ts: seq<Token>, p: nat)
    requires Closed(ts) && IsPower(low) && Shaped(e) && WritePredicate(e, low).Some?
    requires Delimited(low, ts, p, PredicateTokens(e, low))
    ensures ParseAt(low, ts, p) == Some((Flatten(e), p + |PredicateTokens(e, low)|))
    decreases e, 4
  {
    hide ParseAt, Shaped, BareTokens, WriteBare, Flatten, Stops, Opens;
    if BindingPower(e.kind) < low {
      ParsesParenthesised(e, ts, p);
      var q := p + |PredicateTokens(e, low)|;
      LiftsParenthesis(low, ts, p, Flatten(e), q);
    } else {
      ParsesBareAt(e, low, ts, p);
    }
  }

  lemma LiftsParenthesis(low: int, ts: seq<Token>, p: nat, e: Expression, q: nat)
    requires IsPower(low) && p < |ts| && Closed(ts) && q < |ts|
    requires ParseAt(60, ts, p) == Some((e, q)) && ts[p] == LEFT_PAREN && Stops(low, ts[q])
    ensures ParseAt(low, ts, p) == Some((e, q))
  {
    hide ParseAt, Stops;
    Lifts(low, 60, ts, p, e, q);
  }

  lemma {:induction false} ParsesParenthesised(e: Expression, ts: seq<Token>, p: nat)
    requires Closed(ts) && Shaped(e) && WriteBare(e).Some?
    requires Occurs(ts, p, [LEFT_PAREN] + BareTokens(e) + [RIGHT_PAREN])
    requires p + |BareTokens(e)| + 2 < |ts|
    ensures ts[p] == LEFT_PAREN
    ensures ParseAt(60, ts, p) == Some((Flatten(e), p + |BareTokens(e)| + 2))
    decreases e, 3
  {
    hide Shaped, BareTokens, WriteBare, Flatten, ParsePredicate;
    var inner := BareTokens(e);
    WritableKind(e);
    ParenthesisTokens(ts, p, inner);
    ParsesBareAt(e, 0, ts, p + 1);
    assert ParsePredicate(ts, p + 1) == Some((Flatten(e), p + 1 + |inner|));
  }

  lemma WritableKind(e: Expression)
    requires WriteBare(e).Some?
    ensures IsPower(BindingPower(e.kind))
  {}

  lemma ParenthesisTokens(ts: seq<Token>, p: nat, inner: seq<Token>)
    requires Occurs(ts, p, [LEFT_PAREN] + inner + [RIGHT_PAREN])
    ensures ts[p] == LEFT_PAREN && Occurs(ts, p + 1, inner) && ts[p + 1 + |inner|] == RIGHT_PAREN
    ensures Delimited(0, ts, p + 1, inner)
  {
    OccursSplit(ts, p, [LEFT_PAREN] + inner, [RIGHT_PAREN]);
    OccursSplit(ts, p, [LEFT_PAREN], inner);
    OccursAt(ts, p, [LEFT_PAREN], 0);
    OccursAt(ts, p + 1 + |inner|, [RIGHT_PAREN], 0);
  }

  lemma {:induction false} ParsesBareAt(e: Expression, low: int, ts: seq<Token>, p: nat)
    requires Closed(ts) && IsPower(low) && Shaped(e) && WriteBare(e).Some? && low <= BindingPower(e.kind)
    requires Delimited(low, ts, p, BareTokens(e))
    ensures ParseAt(low, ts, p) == Some((Flatten(e), p + |BareTokens(e)|))
    decreases e, 2
  {
    hide ParseAt, Shaped, BareTokens, WriteBare, Flatten;
    FirstToken(e);
    OccursAt(ts, p, BareTokens(e), 0);
    ParsesBare(e, ts, p);
    Lifts(low, BindingPower(e.kind), ts, p, Flatten(e), p + |BareTokens(e)|);
  }

  lemma {:induction false} ParsesBare(e: Expression, ts: seq<Token>, p: nat)
    requires Closed(ts) && Shaped(e) && WriteBare(e).Some?
    requires Delimited(BindingPower(e.kind), ts, p, BareTokens(e))
    ensures ParseAt(BindingPower(e.kind), ts, p) == Some((Flatten(e), p + |BareTokens(e)|))
    decreases e, 1
  {
    match e.kind
    case Bool | Integer | String | Symbol | Reference => ParsesAtom(e, ts, p);
    case Call => ParsesCall(e, ts, p);
    case Not => ParsesNot(e, ts, p);
    case Compare => ParsesCompare(e, ts, p);
    case And | Or => ParsesConnective(e, ts, p);
    case Implies => ParsesImplies(e, ts, p);
    case ForAll | Exists => ParsesQuantifier(e, ts, p);
  }

  lemma ParsesAtom(e: Expression, ts: seq<Token>, p: nat)
    requires e.kind in {Bool, Integer, String, Symbol, Reference}
    requires Closed(ts) && Shaped(e) && WriteBare(e).Some? && Delimited(60, ts, p, BareTokens(e))
    ensures ParseAt(60, ts, p) == Some((Flatten(e), p + |BareTokens(e)|))
  {
    hide IsIdentifier, Spelling, ParsePrimary, ParseValue, Occurs;
    ParsesAtomValue(e, ts, p);
    OccursAt(ts, p, ValueTokens(e), 0);
    PrimaryIsValue(ts, p);
  }

  /** The atoms are read alike in both positions. */
  lemma PrimaryIsValue(ts: seq<Token>, p: nat)
    requires Closed(ts) && p < |ts| && ts[p].kind in {StringLiteral, IntegerLiteral, At, Identifier}
    requires ts[p].kind == Identifier ==> ts[p + 1].kind != LeftParen
    ensures ParsePrimary(ts, p) == ParseValue(ts, p)
  {
    hide ParsePredicate, ParseArgumentList, ParseValueList;
  }

  lemma {:induction false} ParsesCall(e: Expression, ts: seq<Token>, p: nat)
    requires e.kind == Call && Closed(ts) && Shaped(e) && WriteBare(e).Some?
    requires Delimited(60, ts, p, BareTokens(e))
    ensures ParseAt(60, ts, p) == Some((Flatten(e), p + |BareTokens(e)|))
    decreases e, 0
  {
    hide ParseArgumentList, ParsePrimary, ListTokens, WriteList, BareTokens, WriteBare, Shaped, Flatten, Stops, Occurs;
    var inner := ListTokens(e.operands, 0, COMMA);
    CallParts(e);
    CallTokens(ts, p, e.text, inner);
    ParsesArgumentList(e.operands, ts, p + 2);
    JoinsCall(e.text, ts, p, FlattenAll(e.operands), p + 2 + |inner|);
  }

  lemma CallParts(e: Expression)
    requires e.kind == Call && Shaped(e) && WriteBare(e).Some?
    ensures (forall operand <- e.operands :: Shaped(operand)) && WriteList(e.operands, 0, ", ").Some?
    ensures BareTokens(e) == [Word(e.text), LEFT_PAREN] + ListTokens(e.operands, 0, COMMA) + [RIGHT_PAREN]
    ensures Flatten(e) == Make(Call, e.text, FlattenAll(e.operands))
  {
    hide WriteList, ListTokens, FlattenAll;
  }

  lemma JoinsCall(name: string, ts: seq<Token>, p: nat, arguments: seq<Expression>, q: nat)
    requires Closed(ts) && p + 2 < |ts| && q + 1 < |ts|
    requires ts[p] == Word(name) && ts[p + 1] == LEFT_PAREN && ts[q] == RIGHT_PAREN
    requires ParseArgumentList(ts, p + 2) == Some((arguments, q))
    ensures ParsePrimary(ts, p) == Some((Make(Call, name, arguments), q + 1))
  {
    hide ParseArgumentList, ParsePredicate;
  }

  lemma {:induction false} ParsesArgumentList(es: seq<Expression>, ts: seq<Token>, p: nat)
    requires Closed(ts) && (forall e <- es :: Shaped(e)) && WriteList(es, 0, ", ").Some?
    requires Occurs(ts, p, ListTokens(es, 0, COMMA)) && p + |ListTokens(es, 0, COMMA)| < |ts|
    requires ts[p + |ListTokens(es, 0, COMMA)|] == RIGHT_PAREN
    ensures ParseArgumentList(ts, p) == Some((FlattenAll(es), p + |ListTokens(es, 0, COMMA)|))
    decreases es, 1
  {
    hide Shaped;
    if es != [] {
      ParsesArguments(es, ts, p);
    }
  }

  lemma {:induction false} ParsesArguments(es: seq<Expression>, ts: seq<Token>, p: nat)
    requires Closed(ts) && es != [] && (forall e <- es :: Shaped(e)) && WriteList(es, 0, ", ").Some?
    requires Occurs(ts, p, ListTokens(es, 0, COMMA)) && p + |ListTokens(es, 0, COMMA)| < |ts|
    requires ts[p + |ListTokens(es, 0, COMMA)|] == RIGHT_PAREN
    ensures ts[p].kind != RightParen
    ensures ParseArguments(ts, p) == Some((FlattenAll(es), p + |ListTokens(es, 0, COMMA)|))
    decreases es, 0
  {
    hide WritePredicate, PredicateTokens, ParsePredicate, ParseArguments, ParseAt, Stops, Shaped, Occurs;
    hide Flatten, FlattenAll, WriteList, ListTokens;
    var first := PredicateTokens(es[0], 0);
    ArgumentParts(es);
    PunctuationStops();
    TopLevel(ts, p);
    FirstPredicateToken(es[0], 0);
    if |es| == 1 {
      FlattenOne(es);
      ParsesPredicate(es[0], 0, ts, p);
      OccursAt(ts, p, first, 0);
      LastArgument(ts, p, Flatten(es[0]), p + |first|);
    } else {
      var rest := ListTokens(es[1..], 0, COMMA);
      ListTokenParts(ts, p, first, COMMA, rest);
      OccursAt(ts, p, first, 0);
      ParsesPredicate(es[0], 0, ts, p);
      FlattenStep(es);
      ParsesArguments(es[1..], ts, p + |first| + 1);
      JoinsArguments(ts, p, Flatten(es[0]), p + |first|, FlattenAll(es[1..]), p + |first| + 1 + |rest|);
    }
  }

  /** A written argument list is its first argument, then a comma and the rest when there are more. */
  lemma ArgumentParts(es: seq<Expression>)
    requires es != [] && WriteList(es, 0, ", ").Some?
    ensures WritePredicate(es[0], 0).Some?
    ensures |es| == 1 ==> ListTokens(es, 0, COMMA) == PredicateTokens(es[0], 0)
    ensures |es| > 1 ==> WriteList(es[1..], 0, ", ").Some? && ListTokens(es, 0, COMMA)
                         == PredicateTokens(es[0], 0) + [COMMA] + ListTokens(es[1..], 0, COMMA)
  {
    hide WritePredicate, PredicateTokens;
  }

  lemma PunctuationStops()
    ensures Stops(0, COMMA) && Stops(0, RIGHT_PAREN)
  {}

  lemma TopLevel(ts: seq<Token>, p: nat)
    requires p < |ts| && Closed(ts)
    ensures ParseAt(0, ts, p) == ParsePredicate(ts, p)
  {}

  lemma LastArgument(ts: seq<Token>, p: nat, first: Expression, q: nat)
    requires Closed(ts) && p < |ts| && q < |ts| && ParsePredicate(ts, p) == Some((first, q)) && ts[q].kind != Comma
    ensures ParseArguments(ts, p) == Some(([first], q))
  {
    hide ParsePredicate;
  }

  lemma JoinsArguments(ts: seq<Token>, p: nat, first: Expression, q: nat, rest: seq<Expression>, e: nat)
    requires Closed(ts) && p < |ts| && q + 1 < |ts|
    requires ParsePredicate(ts, p) == Some((first, q)) && ts[q] == COMMA
    requires ParseArguments(ts, q + 1) == Some((rest, e))
    ensures ParseArguments(ts, p) == Some(([first] + rest, e))
  {
    hide ParsePredicate;
  }

  lemma {:induction false} ParsesNot(e: Expression, ts: seq<Token>, p: nat)
    requires e.kind == Not && Closed(ts) && Shaped(e) && WriteBare(e).Some?
    requires Delimited(50, ts, p, BareTokens(e))
    ensures ParseAt(50, ts, p) == Some((Flatten(e), p + |BareTokens(e)|))
    decreases e, 0
  {
    hide WritePredicate, PredicateTokens, Flatten, ParsePrimary;
    var operand := e.operands[0];
    OccursSplit(ts, p, [Word("not")], PredicateTokens(operand, 50));
    OccursAt(ts, p, [Word("not")], 0);
    ParsesPredicate(operand, 50, ts, p + 1);
    FlattenUnary(e);
  }

  lemma FlattenUnary(e: Expression)
    requires !IsConnective(e.kind) && |e.operands| == 1
    ensures Flatten(e) == e.(operands := [Flatten(e.operands[0])])
  {
    FlattenOne(e.operands);
  }

  lemma FlattenBinary(e: Expression)
    requires !IsConnective(e.kind) && |e.operands| == 2
    ensures Flatten(e) == e.(operands := [Flatten(e.operands[0]), Flatten(e.operands[1])])
  {
    FlattenOne(e.operands[1..]);
    FlattenStep(e.operands);
  }

  lemma FlattenOne(es: seq<Expression>)
    requires |es| == 1
    ensures FlattenAll(es) == [Flatten(es[0])]
  {
    hide Flatten;
    assert es[1..] == [];
  }

  lemma FlattenStep(es: seq<Expression>)
    requires es != []
    ensures FlattenAll(es) == [Flatten(es[0])] + FlattenAll(es[1..])
  {
    hide Flatten;
  }

  lemma {:induction false} ParsesCompare(e: Expression, ts: seq<Token>, p: nat)
    requires e.kind == Compare && Closed(ts) && Shaped(e) && WriteBare(e).Some?
    requires Delimited(40, ts, p, BareTokens(e))
    ensures ParseAt(40, ts, p) == Some((Flatten(e), p + |BareTokens(e)|))
    decreases e, 0
  {
    hide WritePredicate, PredicateTokens, Flatten, ParseUnary, ParseComparison, Occurs;
    var left, right := e.operands[0], e.operands[1];
    var l, r := PredicateTokens(left, 50), PredicateTokens(right, 50);
    ListTokenParts(ts, p, l, Token(ComparisonKind(e.text), e.text), r);
    ParsesPredicate(left, 50, ts, p);
    ParsesPredicate(right, 50, ts, p + |l| + 1);
    JoinsComparison(e.text, ts, p, Flatten(left), p + |l|, Flatten(right), p + |l| + 1 + |r|);
    FlattenBinary(e);
  }

  lemma JoinsComparison(text: string, ts: seq<Token>, p: nat, left: Expression, q: nat, right: Expression, e: nat)
    requires Closed(ts) && p < |ts| && q + 1 < |ts| && e < |ts| && IsComparisonOperator(text)
    requires ParseUnary(ts, p) == Some((left, q)) && ts[q].kind == ComparisonKind(text)
    requires ParseUnary(ts, q + 1) == Some((right, e)) && ComparisonText(ts[e].kind) == ""
    ensures ParseComparison(ts, p) == Some((Make(Compare, text, [left, right]), e))
  {
    hide ParseUnary;
  }

  lemma {:induction false} ParsesImplies(e: Expression, ts: seq<Token>, p: nat)
    requires e.kind == Implies && Closed(ts) && Shaped(e) && WriteBare(e).Some?
    requires Delimited(10, ts, p, BareTokens(e))
    ensures ParseAt(10, ts, p) == Some((Flatten(e), p + |BareTokens(e)|))
    decreases e, 0
  {
    hide WritePredicate, PredicateTokens, Flatten, ParseConnective, ParseImplication, Occurs;
    var left, right := e.operands[0], e.operands[1];
    var l, r := PredicateTokens(left, 20), PredicateTokens(right, 10);
    ListTokenParts(ts, p, l, Word("implies"), r);
    ParsesPredicate(left, 20, ts, p);
    ParsesPredicate(right, 10, ts, p + |l| + 1);
    JoinsImplication(ts, p, Flatten(left), p + |l|, Flatten(right), p + |l| + 1 + |r|);
    FlattenBinary(e);
  }

  lemma JoinsImplication(ts: seq<Token>, p: nat, left: Expression, q: nat, right: Expression, e: nat)
    requires Closed(ts) && p < |ts| && q + 1 < |ts| && e < |ts|
    requires ParseConnective(Or, ts, p) == Some((left, q)) && ts[q] == Word("implies")
    requires ParseImplication(ts, q + 1) == Some((right, e))
    ensures ParseImplication(ts, p) == Some((Make(Implies, "", [left, right]), e))
  {
    hide ParseConnective;
  }

  lemma {:induction false} ParsesConnective(e: Expression, ts: seq<Token>, p: nat)
    requires IsConnective(e.kind) && Closed(ts) && Shaped(e) && WriteBare(e).Some?
    requires Delimited(BindingPower(e.kind), ts, p, BareTokens(e))
    ensures ParseAt(BindingPower(e.kind), ts, p) == Some((Flatten(e), p + |BareTokens(e)|))
    decreases e, 0
  {
    hide WriteList, WriteBare, ListTokens, BareTokens, ParseOperands, Occurs, Stops, Shaped, Flatten, Splice;
    ConnectiveParts(e);
    ParsesOperands(e.kind, e.operands, ts, p);
  }

  lemma ConnectiveParts(e: Expression)
    requires IsConnective(e.kind) && Shaped(e) && WriteBare(e).Some?
    ensures |e.operands| >= 2 && forall operand <- e.operands :: Shaped(operand)
    ensures WriteList(e.operands, OperandPower(e.kind), ConnectiveSeparator(e.kind)).Some?
    ensures BareTokens(e) == ListTokens(e.operands, OperandPower(e.kind), Word(ConnectiveWord(e.kind)))
    ensures Flatten(e) == MakeConnective(e.kind, FlattenAll(e.operands))
  {
    hide WriteList, ListTokens, FlattenAll, Splice;
  }

  lemma {:induction false} ParsesOperands(kind: Kind, es: seq<Expression>, ts: seq<Token>, p: nat)
    requires IsConnective(kind) && Closed(ts) && es != [] && (forall e <- es :: Shaped(e))
    requires WriteList(es, OperandPower(kind), ConnectiveSeparator(kind)).Some?
    requires Delimited(BindingPower(kind), ts, p, ListTokens(es, OperandPower(kind), Word(ConnectiveWord(kind))))
    ensures ParseOperands(kind, ts, p)
         == Some((FlattenAll(es), p + |ListTokens(es, OperandPower(kind), Word(ConnectiveWord(kind)))|))
    decreases es, 0
  {
    hide WritePredicate, PredicateTokens, ParseOperands, ParseAt, ParseOperand, Shaped, Occurs, Flatten, FlattenAll;
    hide Stops;
    var power, word := OperandPower(kind), Word(ConnectiveWord(kind));
    var first := PredicateTokens(es[0], power);
    OperandLevel(kind, ts, p);
    if |es| == 1 {
      FlattenOne(es);
      StopsLater(kind, ts[p + |first|]);
      ParsesPredicate(es[0], power, ts, p);
      LastOperand(kind, ts, p, Flatten(es[0]), p + |first|);
    } else {
      var rest := ListTokens(es[1..], power, word);
      assert |ListTokens(es, power, word)| == |first| + 1 + |rest|;
      ListTokenParts(ts, p, first, word, rest);
      StopsAtWord(kind);
      ParsesPredicate(es[0], power, ts, p);
      FlattenStep(es);
      ParsesOperands(kind, es[1..], ts, p + |first| + 1);
      JoinsOperands(kind, ts, p, Flatten(es[0]), p + |first|, FlattenAll(es[1..]), p + |first| + 1 + |rest|);
    }
  }

  lemma OperandLevel(kind: Kind, ts: seq<Token>, p: nat)
    requires IsConnective(kind) && p < |ts| && Closed(ts)
    ensures ParseAt(OperandPower(kind), ts, p) == ParseOperand(kind, ts, p) && IsPower(OperandPower(kind))
  {
    hide ParseConnective, ParseComparison;
  }

  /** What ends a connective ends its last operand, and its own word ends the operand before it. */
  lemma StopsLater(kind: Kind, token: Token)
    requires IsConnective(kind) && Stops(BindingPower(kind), token)
    ensures Stops(OperandPower(kind), token)
  {}

  lemma StopsAtWord(kind: Kind)
    requires IsConnective(kind)
    ensures Stops(OperandPower(kind), Word(ConnectiveWord(kind)))
  {}

  lemma JoinsOperands(
      kind: Kind, ts: seq<Token>, p: nat, first: Expression, q: nat, rest: seq<Expression>, e: nat)
    requires IsConnective(kind) && Closed(ts) && p < |ts| && q + 1 < |ts| && e < |ts|
    requires ParseOperand(kind, ts, p) == Some((first, q)) && ts[q] == Word(ConnectiveWord(kind))
    requires ParseOperands(kind, ts, q + 1) == Some((rest, e))
    ensures ParseOperands(kind, ts, p) == Some(([first] + rest, e))
  {
    hide ParseConnective, ParseComparison;
  }

  lemma LastOperand(kind: Kind, ts: seq<Token>, p: nat, first: Expression, q: nat)
    requires IsConnective(kind) && Closed(ts) && p < |ts| && q < |ts|
    requires ParseOperand(kind, ts, p) == Some((first, q)) && Stops(BindingPower(kind), ts[q])
    ensures ParseOperands(kind, ts, p) == Some(([first], q))
  {
    hide ParseConnective, ParseComparison;
  }

  lemma {:induction false} ParsesQuantifier(e: Expression, ts: seq<Token>, p: nat)
    requires IsQuantifier(e.kind) && Closed(ts) && Shaped(e) && WriteBare(e).Some?
    requires Delimited(0, ts, p, BareTokens(e))
    ensures ParseAt(0, ts, p) == Some((Flatten(e), p + |BareTokens(e)|))
    decreases e, 0
  {
    hide WritePredicate, PredicateTokens, WriteDomain, ValueTokens, Flatten, ParsePredicate, ParseDomain, Occurs;
    hide WriteBare, BareTokens, Shaped;
    QuantifierParts(e);
    var domain, body := e.operands[0], e.operands[1];
    var d, b := ValueTokens(domain), PredicateTokens(body, 0);
    QuantifierTokens(e.kind, e.text, d, b, ts, p);
    ParsesDomain(domain, ts, p + 3);
    ParsesPredicate(body, 0, ts, p + 4 + |d|);
    JoinsQuantifier(e.kind, e.text, ts, p, domain, p + 3 + |d|, Flatten(body), p + 4 + |d| + |b|);
    FlattenBinary(e);
  }

  lemma QuantifierParts(e: Expression)
    requires IsQuantifier(e.kind) && Shaped(e) && WriteBare(e).Some?
    ensures |e.operands| == 2 && e.integer == 0 && !e.boolean
    ensures Shaped(e.operands[0]) && Shaped(e.operands[1])
    ensures WriteDomain(e.operands[0]).Some? && WritePredicate(e.operands[1], 0).Some?
    ensures BareTokens(e) == [Word(QuantifierWord(e.kind)), Word(e.text), Word("in")] + ValueTokens(e.operands[0])
                             + [COLON] + PredicateTokens(e.operands[1], 0)
  {
    hide WritePredicate, PredicateTokens, WriteDomain, ValueTokens;
  }

  lemma QuantifierTokens(kind: Kind, variable: string, d: seq<Token>, b: seq<Token>, ts: seq<Token>, p: nat)
    requires IsQuantifier(kind)
    requires Occurs(ts, p, [Word(QuantifierWord(kind)), Word(variable), Word("in")] + d + [COLON] + b)
    ensures p + 3 + |d| < |ts|
    ensures ts[p] == Word(QuantifierWord(kind)) && ts[p + 1] == Word(variable) && ts[p + 2] == Word("in")
    ensures Occurs(ts, p + 3, d) && ts[p + 3 + |d|] == COLON && Occurs(ts, p + 4 + |d|, b)
  {
    var head := [Word(QuantifierWord(kind)), Word(variable), Word("in")];
    ListTokenParts(ts, p, head + d, COLON, b);
    OccursSplit(ts, p, head, d);
    OccursAt(ts, p, head, 0);
    OccursAt(ts, p, head, 1);
    OccursAt(ts, p, head, 2);
  }

  lemma JoinsQuantifier(
      kind: Kind, variable: string, ts: seq<Token>, p: nat, domain: Expression, q: nat, body: Expression, e: nat)
    requires IsQuantifier(kind) && Closed(ts) && p + 3 < |ts| && q + 1 < |ts| && e < |ts|
    requires ts[p] == Word(QuantifierWord(kind)) && ts[p + 1] == Word(variable) && ts[p + 2] == Word("in")
    requires ParseDomain(ts, p + 3) == Some((domain, q)) && ts[q] == COLON
    requires ParsePredicate(ts, q + 1) == Some((body, e))
    ensures ParsePredicate(ts, p) == Some((Make(kind, variable, [domain, body]), e))
  {
    hide ParseDomain, ParseImplication;
  }

  lemma ParsesDomain(e: Expression, ts: seq<Token>, p: nat)
    requires Closed(ts) && Shaped(e) && WriteDomain(e).Some?
    requires Occurs(ts, p, ValueTokens(e)) && p + |ValueTokens(e)| < |ts| && ts[p + |ValueTokens(e)|] == COLON
    ensures ParseDomain(ts, p) == Some((e, p + |ValueTokens(e)|)) && Flatten(e) == e
  {
    hide Flatten, Flat, ValueTokens, Shaped, IsIdentifier, WriteValues;
    ValueIsFlat(e);
    FlattenFlat(e);
    if e.kind == Call {
      ParsesCallDomain(e, ts, p);
    } else {
      ParsesReferenceDomain(e, ts, p);
    }
  }

  lemma ParsesCallDomain(e: Expression, ts: seq<Token>, p: nat)
    requires e.kind == Call && Closed(ts) && Shaped(e) && WriteValue(e).Some?
    requires Occurs(ts, p, ValueTokens(e)) && p + |ValueTokens(e)| < |ts|
    ensures ParseDomain(ts, p) == Some((e, p + |ValueTokens(e)|))
  {
    hide ParseValueList, ValuesTokens, WriteValues, IsIdentifier, Occurs;
    CallTokens(ts, p, e.text, ValuesTokens(e.operands));
    ParsesValueList(e.operands, ts, p + 2);
  }

  lemma ParsesReferenceDomain(e: Expression, ts: seq<Token>, p: nat)
    requires e.kind == Reference && Closed(ts) && Shaped(e)
    requires Occurs(ts, p, ValueTokens(e)) && p + |ValueTokens(e)| < |ts|
    ensures ParseDomain(ts, p) == Some((e, p + |ValueTokens(e)|))
  {
    hide ParseValueList;
    OccursAt(ts, p, ValueTokens(e), 0);
    OccursAt(ts, p, ValueTokens(e), 1);
  }

  // ----- The round trip -----

  /** Reads one predicate that takes up the whole text. */
  function ReadPredicate(text: string): Option<Expression> {
    var ts :- Lex(text);
    var (e, p) :- ParsePredicate(ts, 0);
    if ts[p].kind == End then Some(e) else None
  }

  /** Every shape-valid predicate the writer accepts reads back as itself with its connectives flattened. */
  lemma PredicateRoundTrip(e: Expression)
    requires Shaped(e) && Readable(e) && WritePredicate(e, 0).Some?
    ensures ReadPredicate(WritePredicate(e, 0).value) == Some(Flatten(e))
  {
    hide ParsePredicate, PredicateTokens, WritePredicate, Shaped, Readable, Lex, Flatten;
    PredicateLexes(e);
    var ts := PredicateTokens(e, 0) + [END_TOKEN];
    assert ts[0..|PredicateTokens(e, 0)|] == PredicateTokens(e, 0);
    ParsesPredicate(e, 0, ts, 0);
    assert ParsePredicate(ts, 0) == Some((Flatten(e), |PredicateTokens(e, 0)|));
  }
}
