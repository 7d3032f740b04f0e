/** The parser is the grammar: it reads everything the grammar derives, and nothing else. */
module EirGrammarExact {
  import opened Basics
  import opened Numerals
  import opened Expressions
  import opened EirLexer
  import opened EirParser
  import opened EirRoundTrip
  import opened EirGrammar

  lemma Begins(ts: seq<Token>, p: nat, q: nat)
    requires p <= q <= |ts|
    ensures forall k | 0 <= k < q - p :: ts[p..q][k] == ts[p + k]
  {}

  lemma NothingIsNone(es: seq<Expression>)
    ensures (IsValues([], es) <==> es == []) && (IsArguments([], es) <==> es == [])
  {}

  // ----- Values -----

  lemma {:induction false} ValueParses(ts: seq<Token>, p: nat, q: nat, e: Expression)
    requires p <= q < |ts| && Closed(ts) && IsValue(ts[p..q], e) && ts[q].kind != LeftParen
    ensures ParseValue(ts, p) == Some((e, q))
    decreases q - p, 0
  {
    hide IsValues, ReadInteger, ParseValueList;
    var g := ts[p..q];
    Begins(ts, p, q);
    if !IsAtom(g, e) {
      Inside(ts, p, q, 2, 1);
      ValuesParse(ts, p + 2, q - 1, e.operands);
    }
  }

  lemma {:induction false} ValuesParse(ts: seq<Token>, p: nat, q: nat, es: seq<Expression>)
    requires p <= q < |ts| && Closed(ts) && IsValues(ts[p..q], es) && ts[q].kind == RightParen
    ensures ParseValueList(ts, p) == Some((es, q)) && (p < q ==> ParseValues(ts, p) == Some((es, q)))
    decreases q - p, 1
  {
    hide IsValue, ParseValue, ParseValues;
    if p < q {
      var c := ValueEnds(ts, p, q, es);
      ValueParses(ts, p, c, es[0]);
      if c < q {
        ValuesParse(ts, c + 1, q, es[1..]);
      }
      ValuesJoin(ts, p, c, q, es);
      ValueStarts(ts, p);
    } else {
      NothingIsNone(es);
      assert ts[p..q] == [];
    }
  }

  /** Where the first value of a list ends: at a comma, or at the end of the list. */
  lemma ValueEnds(ts: seq<Token>, p: nat, q: nat, es: seq<Expression>) returns (c: nat)
    requires p < q < |ts| && IsValues(ts[p..q], es)
    ensures p < c <= q && es != [] && IsValue(ts[p..c], es[0])
    ensures c == q ==> |es| == 1
    ensures c < q ==> |es| > 1 && c < q - 1 && ts[c].kind == Comma && IsValues(ts[c + 1..q], es[1..])
  {
    hide IsValue;
    var g := ts[p..q];
    if |es| == 1 {
      c := q;
    } else {
      var k :| 0 < k < |g| - 1 && g[k].kind == Comma && IsValue(g[..k], es[0]) && IsValues(g[k + 1..], es[1..]);
      c := p + k;
      Sliced(ts, p, q, c);
    }
  }

  lemma ValuesJoin(ts: seq<Token>, p: nat, c: nat, q: nat, es: seq<Expression>)
    requires p < c <= q < |ts| && Closed(ts) && es != [] && ParseValue(ts, p) == Some((es[0], c))
    requires if c == q then |es| == 1 && ts[q].kind == RightParen
             else c + 1 < |ts| && ts[c].kind == Comma && ParseValues(ts, c + 1) == Some((es[1..], q))
    ensures ParseValues(ts, p) == Some((es, q))
  {
    hide ParseValue;
    assert es == if c == q then [es[0]] else [es[0]] + es[1..];
  }

  lemma ValueStarts(ts: seq<Token>, p: nat)
    requires p < |ts| && Closed(ts)
    ensures ParseValue(ts, p).Some? ==> ts[p].kind != RightParen && ParseValueList(ts, p) == ParseValues(ts, p)
  {
    hide ParseValues;
  }

  lemma DomainParses(ts: seq<Token>, p: nat, q: nat, e: Expression)
    requires p <= q < |ts| && Closed(ts) && IsDomain(ts[p..q], e)
    ensures ParseDomain(ts, p) == Some((e, q))
  {
    hide IsValues, ParseValueList;
    Begins(ts, p, q);
    if ts[p].kind != At {
      Inside(ts, p, q, 2, 1);
      ValuesParse(ts, p + 2, q - 1, e.operands);
    }
  }

  // ----- Predicates -----

  /** Whatever the grammar derives as a predicate, the parser reads, if nothing behind it continues it. */
  lemma {:induction false} PredicateParses(ts: seq<Token>, p: nat, q: nat, e: Expression)
    requires p <= q < |ts| && Closed(ts) && IsPredicate(ts[p..q], e) && Stops(0, ts[q])
    ensures ParsePredicate(ts, p) == Some((e, q))
    decreases q - p, 8
  {
    hide ParseQuantified, ParseImplication, IsQuantified, IsImplication;
    Begins(ts, p, q);
    if Says(ts[p], "forall") {
      QuantifiedParses(ForAll, ts, p, q, e);
    } else if Says(ts[p], "exists") {
      QuantifiedParses(Exists, ts, p, q, e);
    } else {
      ImplicationParses(ts, p, q, e);
    }
  }

  lemma {:induction false} QuantifiedParses(kind: Kind, ts: seq<Token>, p: nat, q: nat, e: Expression)
    requires p < q < |ts| && Closed(ts) && IsQuantifier(kind) && IsQuantified(kind, ts[p..q], e) && Stops(0, ts[q])
    ensures ParseQuantified(kind, ts, p + 1) == Some((e, q))
    decreases q - p, 7
  {
    hide ParseDomain, ParsePredicate, IsDomain, IsPredicate;
    var c := ColonAt(kind, ts, p, q, e);
    DomainParses(ts, p + 3, c, e.operands[0]);
    PredicateParses(ts, c + 1, q, e.operands[1]);
    assert e.operands == [e.operands[0], e.operands[1]];
  }

  /** Where the colon of a quantified predicate stands. */
  lemma ColonAt(kind: Kind, ts: seq<Token>, p: nat, q: nat, e: Expression) returns (c: nat)
    requires p < q < |ts| && IsQuantified(kind, ts[p..q], e)
    ensures p + 3 < c < q - 1 && ts[p + 1].kind == Identifier && Says(ts[p + 2], "in") && ts[c].kind == Colon
    ensures |e.operands| == 2 && e == Make(kind, ts[p + 1].text, e.operands)
    ensures IsDomain(ts[p + 3..c], e.operands[0]) && IsPredicate(ts[c + 1..q], e.operands[1])
  {
    hide IsDomain, IsPredicate;
    var g := ts[p..q];
    Begins(ts, p, q);
    var k :| 3 < k < |g| - 1 && g[k].kind == Colon && IsDomain(g[3..k], e.operands[0])
             && IsPredicate(g[k + 1..], e.operands[1]);
    c := p + k;
    Sliced(ts, p, q, c);
    Inside(ts, p, q, 3, |g| - k);
  }

  lemma {:induction false} ImplicationParses(ts: seq<Token>, p: nat, q: nat, e: Expression)
    requires p <= q < |ts| && Closed(ts) && IsImplication(ts[p..q], e) && Stops(10, ts[q])
    ensures ParseImplication(ts, p) == Some((e, q))
    decreases q - p, 7
  {
    hide ParseConnective, IsChain;
    var g := ts[p..q];
    if IsChain(Or, g, e) {
      ChainParses(Or, ts, p, q, e);
    } else {
      var c := ImpliesAt(ts, p, q, e);
      ChainParses(Or, ts, p, c, e.operands[0]);
      ImplicationParses(ts, c + 1, q, e.operands[1]);
      assert e.operands == [e.operands[0], e.operands[1]];
    }
  }

  /** Where the first `implies` of an implication stands. */
  lemma ImpliesAt(ts: seq<Token>, p: nat, q: nat, e: Expression) returns (c: nat)
    requires p <= q < |ts| && IsImplication(ts[p..q], e) && !IsChain(Or, ts[p..q], e)
    ensures p < c < q - 1 && Says(ts[c], "implies") && |e.operands| == 2 && e == Make(Implies, "", e.operands)
    ensures IsChain(Or, ts[p..c], e.operands[0]) && IsImplication(ts[c + 1..q], e.operands[1])
  {
    hide IsChain;
    var g := ts[p..q];
    var k :| 0 < k < |g| - 1 && Says(g[k], "implies") && IsChain(Or, g[..k], e.operands[0])
             && IsImplication(g[k + 1..], e.operands[1]);
    c := p + k;
    Sliced(ts, p, q, c);
  }

  function PowerOf(kind: Kind): int {
    if kind == Or then 20 else 30
  }

  lemma {:induction false} ChainParses(kind: Kind, ts: seq<Token>, p: nat, q: nat, e: Expression)
    requires p <= q < |ts| && Closed(ts) && IsConnective(kind) && IsChain(kind, ts[p..q], e)
    requires Stops(PowerOf(kind), ts[q])
    ensures p < q && ParseConnective(kind, ts, p) == Some((e, q))
    decreases q - p, if kind == Or then 6 else 4
  {
    hide ParseOperands, IsOperand;
    var g := ts[p..q];
    if IsOperand(kind, g, e) {
      OperandParses(kind, ts, p, q, e);
      OneOperand(kind, ts, p, q, e);
    } else {
      var parts :| |parts| > 1 && IsLinked(kind, g, parts) && e == MakeConnective(kind, parts);
      LinkedParses(kind, ts, p, q, parts);
    }
  }

  lemma OneOperand(kind: Kind, ts: seq<Token>, p: nat, q: nat, e: Expression)
    requires p < q < |ts| && Closed(ts) && IsConnective(kind) && Stops(PowerOf(kind), ts[q])
    requires ParseOperand(kind, ts, p) == Some((e, q))
    ensures ParseOperands(kind, ts, p) == Some(([e], q))
  {
    hide ParseConnective, ParseComparison;
  }

  lemma MoreOperands(kind: Kind, ts: seq<Token>, p: nat, c: nat, e: Expression, rest: seq<Expression>, q: nat)
    requires p < c < |ts| - 1 && Closed(ts) && IsConnective(kind) && Says(ts[c], ConnectiveWord(kind))
    requires ParseOperand(kind, ts, p) == Some((e, c)) && ParseOperands(kind, ts, c + 1) == Some((rest, q))
    ensures ParseOperands(kind, ts, p) == Some(([e] + rest, q))
  {
    hide ParseConnective, ParseComparison;
  }

  lemma FirstLink(kind: Kind, g: seq<Token>, parts: seq<Expression>) returns (k: nat)
    requires IsConnective(kind) && IsLinked(kind, g, parts)
    ensures k <= |g| && |parts| > 0 && IsOperand(kind, g[..k], parts[0])
    ensures |parts| == 1 ==> k == |g|
    ensures |parts| > 1 ==>
              0 < k < |g| - 1 && Says(g[k], ConnectiveWord(kind)) && IsLinked(kind, g[k + 1..], parts[1..])
  {
    hide IsOperand;
    if |parts| == 1 {
      assert g[..|g|] == g;
      k := |g|;
    } else {
      k :| 0 < k < |g| - 1 && Says(g[k], if kind == Or then "or" else "and")
           && IsOperand(kind, g[..k], parts[0]) && IsLinked(kind, g[k + 1..], parts[1..]);
    }
  }

  /** Where the first operand of a linked list ends. */
  lemma SplitOf(kind: Kind, ts: seq<Token>, p: nat, q: nat, parts: seq<Expression>) returns (c: nat)
    requires p <= q < |ts| && IsConnective(kind) && IsLinked(kind, ts[p..q], parts)
    ensures p <= c <= q && |parts| > 0
    ensures IsOperand(kind, ts[p..c], parts[0])
    ensures |parts| == 1 ==> c == q
    ensures |parts| > 1 ==>
              p < c < q - 1 && Says(ts[c], ConnectiveWord(kind)) && IsLinked(kind, ts[c + 1..q], parts[1..])
  {
    hide IsOperand, IsLinked;
    var k := FirstLink(kind, ts[p..q], parts);
    c := p + k;
    if |parts| == 1 {
      assert ts[p..q][..k] == ts[p..c];
    } else {
      Sliced(ts, p, q, c);
    }
  }

  lemma {:induction false} LinkedParses(kind: Kind, ts: seq<Token>, p: nat, q: nat, parts: seq<Expression>)
    requires p <= q < |ts| && Closed(ts) && IsConnective(kind) && IsLinked(kind, ts[p..q], parts)
    requires Stops(PowerOf(kind), ts[q])
    ensures p < q && ParseOperands(kind, ts, p) == Some((parts, q))
    decreases q - p, if kind == Or then 5 else 3
  {
    hide IsLinked, IsOperand, ParseOperands, ParseConnective, ParseComparison;
    var c := SplitOf(kind, ts, p, q, parts);
    OperandParses(kind, ts, p, c, parts[0]);
    if |parts| == 1 {
      OneOperand(kind, ts, p, q, parts[0]);
      assert parts == [parts[0]];
    } else {
      LinkedParses(kind, ts, c + 1, q, parts[1..]);
      MoreOperands(kind, ts, p, c, parts[0], parts[1..], q);
      assert parts == [parts[0]] + parts[1..];
    }
  }

  lemma {:induction false} OperandParses(kind: Kind, ts: seq<Token>, p: nat, q: nat, e: Expression)
    requires p <= q < |ts| && Closed(ts) && IsConnective(kind)
    requires IsOperand(kind, ts[p..q], e)
    requires Stops(OperandStop(kind), ts[q])
    ensures p < q && ParseOperand(kind, ts, p) == Some((e, q))
    decreases q - p, if kind == Or then 5 else 3, 0
  {
    hide IsChain, IsComparison, ParseConnective, ParseComparison;
    if kind == Or {
      ChainParses(And, ts, p, q, e);
    } else {
      ComparisonParses(ts, p, q, e);
    }
  }

  function OperandStop(kind: Kind): int {
    if kind == Or then 30 else 40
  }

  /** Where the operator of a comparison stands. */
  lemma OperatorAt(ts: seq<Token>, p: nat, q: nat, e: Expression) returns (c: nat)
    requires p <= q < |ts| && IsComparison(ts[p..q], e) && !IsUnary(ts[p..q], e)
    ensures p < c < q - 1 && |e.operands| == 2 && ComparisonText(ts[c].kind) != "" && ts[c].kind != LeftParen
    ensures e == Make(Compare, ComparisonText(ts[c].kind), e.operands)
    ensures IsUnary(ts[p..c], e.operands[0]) && IsUnary(ts[c + 1..q], e.operands[1])
  {
    hide IsUnary, OperatorOf, ComparisonText;
    var g := ts[p..q];
    var k :| 0 < k < |g| - 1 && OperatorOf(g[k]) != "" && e == Make(Compare, OperatorOf(g[k]), e.operands)
             && IsUnary(g[..k], e.operands[0]) && IsUnary(g[k + 1..], e.operands[1]);
    c := p + k;
    Sliced(ts, p, q, c);
    OperatorsAgree(ts[c]);
    NoOperator(LeftParen);
  }

  lemma NoOperator(kind: TokenKind)
    ensures ComparisonText(kind) == "" <==> kind !in {Less, LessEqual, Greater, GreaterEqual, EqualEqual, NotEqual}
  {}

  lemma {:induction false} ComparisonParses(ts: seq<Token>, p: nat, q: nat, e: Expression)
    requires p <= q < |ts| && Closed(ts) && IsComparison(ts[p..q], e) && Stops(40, ts[q])
    ensures p < q && ParseComparison(ts, p) == Some((e, q))
    decreases q - p, 2
  {
    hide ParseUnary, IsUnary;
    var g := ts[p..q];
    if IsUnary(g, e) {
      UnaryParses(ts, p, q, e);
    } else {
      var c := OperatorAt(ts, p, q, e);
      UnaryParses(ts, p, c, e.operands[0]);
      UnaryParses(ts, c + 1, q, e.operands[1]);
      assert e.operands == [e.operands[0], e.operands[1]];
    }
  }

  lemma {:induction false} UnaryParses(ts: seq<Token>, p: nat, q: nat, e: Expression)
    requires p <= q < |ts| && Closed(ts) && IsUnary(ts[p..q], e) && ts[q].kind != LeftParen
    ensures p < q && ParseUnary(ts, p) == Some((e, q))
    decreases q - p, 1
  {
    hide ParsePrimary, IsPrimary;
    Begins(ts, p, q);
    if Says(ts[p], "not") {
      Sliced(ts, p, q, p);
      UnaryParses(ts, p + 1, q, e.operands[0]);
      assert e.operands == [e.operands[0]];
    } else {
      PrimaryParses(ts, p, q, e);
    }
  }

  lemma {:induction false} PrimaryParses(ts: seq<Token>, p: nat, q: nat, e: Expression)
    requires p < q < |ts| && Closed(ts) && IsPrimary(ts[p..q], e) && ts[q].kind != LeftParen
    ensures ParsePrimary(ts, p) == Some((e, q))
    decreases q - p, 0
  {
    hide IsArguments, IsPredicate, ReadInteger, ParsePredicate, ParseArgumentList;
    var g := ts[p..q];
    Begins(ts, p, q);
    if g[0].kind == LeftParen {
      Inside(ts, p, q, 1, 1);
      PredicateParses(ts, p + 1, q - 1, e);
    } else if !IsAtom(g, e) {
      Inside(ts, p, q, 2, 1);
      ArgumentsParse(ts, p + 2, q - 1, e.operands);
    }
  }

  lemma {:induction false} ArgumentsParse(ts: seq<Token>, p: nat, q: nat, es: seq<Expression>)
    requires p <= q < |ts| && Closed(ts) && IsArguments(ts[p..q], es) && ts[q].kind == RightParen
    ensures ParseArgumentList(ts, p) == Some((es, q)) && (p < q ==> ParseArguments(ts, p) == Some((es, q)))
    decreases q - p, 9
  {
    hide IsPredicate, ParsePredicate, ParseArguments;
    if p < q {
      var c := ArgumentEnds(ts, p, q, es);
      PredicateParses(ts, p, c, es[0]);
      if c < q {
        ArgumentsParse(ts, c + 1, q, es[1..]);
      }
      ArgumentsJoin(ts, p, c, q, es);
      PredicateStarts(ts, p);
    } else {
      NothingIsNone(es);
      assert ts[p..q] == [];
    }
  }

  lemma ArgumentEnds(ts: seq<Token>, p: nat, q: nat, es: seq<Expression>) returns (c: nat)
    requires p < q < |ts| && IsArguments(ts[p..q], es)
    ensures p < c <= q && es != [] && IsPredicate(ts[p..c], es[0])
    ensures c == q ==> |es| == 1
    ensures c < q ==> |es| > 1 && c < q - 1 && ts[c].kind == Comma && IsArguments(ts[c + 1..q], es[1..])
  {
    hide IsPredicate;
    var g := ts[p..q];
    if |es| == 1 {
      c := q;
    } else {
      var k :| 0 < k < |g| - 1 && g[k].kind == Comma && IsPredicate(g[..k], es[0]) && IsArguments(g[k + 1..], es[1..]);
      c := p + k;
      Sliced(ts, p, q, c);
    }
  }

  lemma ArgumentsJoin(ts: seq<Token>, p: nat, c: nat, q: nat, es: seq<Expression>)
    requires p < c <= q < |ts| && Closed(ts) && es != [] && ParsePredicate(ts, p) == Some((es[0], c))
    requires if c == q then |es| == 1 && ts[q].kind == RightParen
             else c + 1 < |ts| && ts[c].kind == Comma && ParseArguments(ts, c + 1) == Some((es[1..], q))
    ensures ParseArguments(ts, p) == Some((es, q))
  {
    hide ParsePredicate;
    assert es == if c == q then [es[0]] else [es[0]] + es[1..];
  }

  /** No predicate starts with a closing parenthesis. */
  lemma PredicateStarts(ts: seq<Token>, p: nat)
    requires p < |ts| && Closed(ts)
    ensures ts[p].kind == RightParen ==> ParsePredicate(ts, p).None?
  {
    if ts[p].kind == RightParen {
      assert ParsePrimary(ts, p).None?;
      assert ParseUnary(ts, p).None?;
      assert ParseComparison(ts, p).None?;
      assert ParseOperands(And, ts, p).None?;
      assert ParseConnective(And, ts, p).None?;
      assert ParseOperands(Or, ts, p).None?;
      assert ParseConnective(Or, ts, p).None?;
      assert ParseImplication(ts, p).None?;
    }
  }

  // ----- The parser is the grammar -----

  /** Up to a token that continues nothing, the parser reads exactly what the grammar derives. */
  lemma GrammarExactly(ts: seq<Token>, p: nat, q: nat, e: Expression)
    requires p <= q < |ts| && Closed(ts) && Stops(0, ts[q])
    ensures ParsePredicate(ts, p) == Some((e, q)) <==> IsPredicate(ts[p..q], e)
  {
    hide IsPredicate, ParsePredicate;
    if IsPredicate(ts[p..q], e) {
      PredicateParses(ts, p, q, e);
    }
    if ParsePredicate(ts, p).Some? {
      PredicateDerived(ts, p);
    }
  }

  /** The end token closes the stream and stands nowhere else. */
  lemma {:induction false} OneEnd(s: string, i: nat)
    requires i <= |s|
    ensures LexFrom(s, i).Some? ==> forall k | 0 <= k < |LexFrom(s, i).value| - 1 :: LexFrom(s, i).value[k].kind != End
    decreases |s| - i
  {
    hide SkipFrom, LexTokenAt;
    if LexFrom(s, i).Some? && SkipFrom(s, i).value < |s| {
      var (token, e) := LexTokenAt(s, SkipFrom(s, i).value).value;
      TokenIsNoEnd(s, SkipFrom(s, i).value);
      OneEnd(s, e);
    }
  }

  lemma TokenIsNoEnd(s: string, i: nat)
    requires i < |s| && LexTokenAt(s, i).Some?
    ensures LexTokenAt(s, i).value.0.kind != End
  {
    hide LexStringFrom, IdentifierEnd, DigitsEnd, ReadInteger;
  }

  /** A text is read as `e` exactly if its tokens derive `e`; so no token sequence derives two predicates. */
  lemma TextExactly(text: string, e: Expression)
    ensures ReadPredicate(text) == Some(e)
            <==> Lex(text).Some? && IsPredicate(Lex(text).value[..|Lex(text).value| - 1], e)
  {
    hide IsPredicate, ParsePredicate, LexFrom;
    if Lex(text).Some? {
      var ts := Lex(text).value;
      OneEnd(text, 0);
      GrammarExactly(ts, 0, |ts| - 1, e);
    }
  }
}
