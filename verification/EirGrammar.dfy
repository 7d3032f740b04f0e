/** The grammar of predicates and values over token sequences, and the parser's soundness for it. */
module EirGrammar {
  import opened Numerals
  import opened Expressions
  import opened EirLexer
  import opened EirParser

  // ----- The grammar -----

  predicate Says(token: Token, word: string) {
    token == Token(Identifier, word)
  }

  function OperatorOf(token: Token): string {
    match token.kind
    case Less => "<"
    case LessEqual => "<="
    case Greater => ">"
    case GreaterEqual => ">="
    case EqualEqual => "=="
    case NotEqual => "!="
    case _ => ""
  }

  /** A literal, a name or a reference. */
  predicate IsAtom(ts: seq<Token>, e: Expression) {
    || (|ts| == 2 && ts[0].kind == At && ts[1].kind == Identifier && e == Make(Reference, ts[1].text, []))
    || (|ts| == 1 && match ts[0].kind
        case StringLiteral => e == Make(String, ts[0].text, [])
        case IntegerLiteral =>
          ReadInteger(ts[0].text).Some? && e == Expression(Integer, "", ReadInteger(ts[0].text).value, false, [])
        case Identifier =>
          if ts[0].text == "true" then e == Expression(Bool, "", 0, true, [])
          else if ts[0].text == "false" then e == Expression(Bool, "", 0, false, [])
          else e == Make(Symbol, ts[0].text, [])
        case _ => false)
  }

  /** A name, and something in parentheses behind it. */
  predicate IsCallOver(ts: seq<Token>, e: Expression) {
    && |ts| >= 3 && ts[0].kind == Identifier && ts[1].kind == LeftParen && ts[|ts| - 1].kind == RightParen
    && e == Make(Call, ts[0].text, e.operands)
  }

  ghost predicate IsValue(ts: seq<Token>, e: Expression)
    decreases |ts|, 0
  {
    IsAtom(ts, e) || (IsCallOver(ts, e) && IsValues(ts[2..|ts| - 1], e.operands))
  }

  /** Nothing, or values separated by commas. */
  ghost predicate IsValues(ts: seq<Token>, es: seq<Expression>)
    decreases |ts|, 1
  {
    || (ts == [] && es == [])
    || (|es| == 1 && IsValue(ts, es[0]))
    || (|es| > 1 && exists c | 0 < c < |ts| - 1 ::
          ts[c].kind == Comma && IsValue(ts[..c], es[0]) && IsValues(ts[c + 1..], es[1..]))
  }

  ghost predicate IsDomain(ts: seq<Token>, e: Expression) {
    || (|ts| == 2 && ts[0].kind == At && ts[1].kind == Identifier && e == Make(Reference, ts[1].text, []))
    || (IsCallOver(ts, e) && IsValues(ts[2..|ts| - 1], e.operands))
  }

  ghost predicate IsPredicate(ts: seq<Token>, e: Expression)
    decreases |ts|, 10
  {
    && ts != []
    && if Says(ts[0], "forall") then IsQuantified(ForAll, ts, e)
       else if Says(ts[0], "exists") then IsQuantified(Exists, ts, e)
       else IsImplication(ts, e)
  }

  /** The keyword, a variable, `in`, a domain, a colon and a body. */
  ghost predicate IsQuantified(kind: Kind, ts: seq<Token>, e: Expression)
    decreases |ts|, 9
  {
    && |ts| > 3 && ts[1].kind == Identifier && Says(ts[2], "in")
    && |e.operands| == 2 && e == Make(kind, ts[1].text, e.operands)
    && exists c | 3 < c < |ts| - 1 ::
         ts[c].kind == Colon && IsDomain(ts[3..c], e.operands[0]) && IsPredicate(ts[c + 1..], e.operands[1])
  }

  ghost predicate IsImplication(ts: seq<Token>, e: Expression)
    decreases |ts|, 9
  {
    || IsChain(Or, ts, e)
    || (|e.operands| == 2 && e == Make(Implies, "", e.operands) && exists c | 0 < c < |ts| - 1 ::
          && Says(ts[c], "implies")
          && IsChain(Or, ts[..c], e.operands[0]) && IsImplication(ts[c + 1..], e.operands[1]))
  }

  /** One operand, or the chain of several. */
  ghost predicate IsChain(kind: Kind, ts: seq<Token>, e: Expression)
    requires IsConnective(kind)
    decreases |ts|, if kind == Or then 8 else 5
  {
    || IsOperand(kind, ts, e)
    || exists parts: seq<Expression> :: |parts| > 1 && IsLinked(kind, ts, parts) && e == MakeConnective(kind, parts)
  }

  /** Operands joined by the word of the connective. */
  ghost predicate IsLinked(kind: Kind, ts: seq<Token>, parts: seq<Expression>)
    requires IsConnective(kind)
    decreases |ts|, if kind == Or then 7 else 4
  {
    || (|parts| == 1 && IsOperand(kind, ts, parts[0]))
    || (|parts| > 1 && exists c | 0 < c < |ts| - 1 ::
          && Says(ts[c], if kind == Or then "or" else "and")
          && IsOperand(kind, ts[..c], parts[0]) && IsLinked(kind, ts[c + 1..], parts[1..]))
  }

  /** `and` binds tighter than `or`, and a comparison tighter than both. */
  ghost predicate IsOperand(kind: Kind, ts: seq<Token>, e: Expression)
    requires IsConnective(kind)
    decreases |ts|, if kind == Or then 6 else 3
  {
    if kind == Or then IsChain(And, ts, e) else IsComparison(ts, e)
  }

  ghost predicate IsComparison(ts: seq<Token>, e: Expression)
    decreases |ts|, 2
  {
    || IsUnary(ts, e)
    || (|e.operands| == 2 && exists c | 0 < c < |ts| - 1 ::
          && OperatorOf(ts[c]) != "" && e == Make(Compare, OperatorOf(ts[c]), e.operands)
          && IsUnary(ts[..c], e.operands[0]) && IsUnary(ts[c + 1..], e.operands[1]))
  }

  ghost predicate IsUnary(ts: seq<Token>, e: Expression)
    decreases |ts|, 1
  {
    && ts != []
    && if Says(ts[0], "not") then |e.operands| == 1 && e == Make(Not, "", e.operands) && IsUnary(ts[1..], e.operands[0])
       else IsPrimary(ts, e)
  }

  /** Parentheses around a predicate, an atom, or a call over predicates. */
  ghost predicate IsPrimary(ts: seq<Token>, e: Expression)
    decreases |ts|, 0
  {
    || (|ts| > 2 && ts[0].kind == LeftParen && ts[|ts| - 1].kind == RightParen && IsPredicate(ts[1..|ts| - 1], e))
    || IsAtom(ts, e)
    || (IsCallOver(ts, e) && IsArguments(ts[2..|ts| - 1], e.operands))
  }

  ghost predicate IsArguments(ts: seq<Token>, es: seq<Expression>)
    decreases |ts|, 11
  {
    || (ts == [] && es == [])
    || (|es| == 1 && IsPredicate(ts, es[0]))
    || (|es| > 1 && exists c | 0 < c < |ts| - 1 ::
          ts[c].kind == Comma && IsPredicate(ts[..c], es[0]) && IsArguments(ts[c + 1..], es[1..]))
  }

  // ----- Slices -----

  lemma Sliced(ts: seq<Token>, p: nat, q: nat, c: nat)
    requires p <= c < q <= |ts|
    ensures ts[p..q][c - p] == ts[c] && ts[p..q][..c - p] == ts[p..c] && ts[p..q][c - p + 1..] == ts[c + 1..q]
  {}

  lemma Inside(ts: seq<Token>, p: nat, q: nat, a: nat, b: nat)
    requires p + a + b <= q <= |ts|
    ensures ts[p..q][a..q - p - b] == ts[p + a..q - b]
  {
    var inner := ts[p..q][a..q - p - b];
    assert |inner| == q - b - (p + a) && forall k | 0 <= k < |inner| :: inner[k] == ts[p + a + k];
  }

  // ----- Values -----

  lemma {:induction false} ValueDerived(ts: seq<Token>, p: nat)
    requires p < |ts| && Closed(ts) && ParseValue(ts, p).Some?
    ensures var (e, q) := ParseValue(ts, p).value;
            IsValue(ts[p..q], e)
    decreases |ts| - p, 0
  {
    hide IsValues, ReadInteger;
    var (e, q) := ParseValue(ts, p).value;
    var g := ts[p..q];
    assert forall k | 0 <= k < |g| :: g[k] == ts[p + k];
    if ts[p].kind == Identifier && ts[p + 1].kind == LeftParen {
      ValueListDerived(ts, p + 2);
      Inside(ts, p, q, 2, 1);
    }
  }

  lemma {:induction false} ValueListDerived(ts: seq<Token>, p: nat)
    requires p < |ts| && Closed(ts) && ParseValueList(ts, p).Some?
    ensures var (es, q) := ParseValueList(ts, p).value;
            IsValues(ts[p..q], es)
    decreases |ts| - p, 2
  {
    if ts[p].kind == RightParen {
      assert ts[p..p] == [];
    } else {
      ValuesDerived(ts, p);
    }
  }

  lemma {:induction false} ValuesDerived(ts: seq<Token>, p: nat)
    requires p < |ts| && Closed(ts) && ParseValues(ts, p).Some?
    ensures var (es, q) := ParseValues(ts, p).value;
            |es| > 0 && IsValues(ts[p..q], es)
    decreases |ts| - p, 1
  {
    hide IsValue, ParseValue;
    ValueDerived(ts, p);
    var (es, q) := ParseValues(ts, p).value;
    var c := ParseValue(ts, p).value.1;
    if ts[c].kind == Comma {
      ValuesDerived(ts, c + 1);
      Sliced(ts, p, q, c);
      assert es[1..] == ParseValues(ts, c + 1).value.0;
    }
  }

  lemma DomainDerived(ts: seq<Token>, p: nat)
    requires p < |ts| && Closed(ts) && ParseDomain(ts, p).Some?
    ensures var (e, q) := ParseDomain(ts, p).value;
            IsDomain(ts[p..q], e)
  {
    hide IsValues, ParseValueList;
    var (e, q) := ParseDomain(ts, p).value;
    var g := ts[p..q];
    assert forall k | 0 <= k < |g| :: g[k] == ts[p + k];
    if ts[p].kind != At {
      ValueListDerived(ts, p + 2);
      Inside(ts, p, q, 2, 1);
    }
  }

  // ----- Predicates -----

  /** Whatever the parser reads as a predicate, the tokens it reads derive it. */
  lemma {:induction false} PredicateDerived(ts: seq<Token>, p: nat)
    requires p < |ts| && Closed(ts) && ParsePredicate(ts, p).Some?
    ensures var (e, q) := ParsePredicate(ts, p).value;
            IsPredicate(ts[p..q], e)
    decreases |ts| - p, 8
  {
    hide ParseQuantified, ParseImplication, IsQuantified, IsImplication;
    var (e, q) := ParsePredicate(ts, p).value;
    assert ts[p..q][0] == ts[p];
    if IsKeyword(ts[p], "forall") {
      QuantifiedDerived(ForAll, ts, p + 1);
    } else if IsKeyword(ts[p], "exists") {
      QuantifiedDerived(Exists, ts, p + 1);
    } else {
      ImplicationDerived(ts, p);
    }
  }

  lemma {:induction false} QuantifiedDerived(kind: Kind, ts: seq<Token>, p: nat)
    requires 0 < p < |ts| && Closed(ts) && IsQuantifier(kind) && ParseQuantified(kind, ts, p).Some?
    ensures var (e, q) := ParseQuantified(kind, ts, p).value;
            IsQuantified(kind, ts[p - 1..q], e)
    decreases |ts| - p, 9
  {
    hide ParseDomain, ParsePredicate, IsDomain, IsPredicate;
    var (e, q) := ParseQuantified(kind, ts, p).value;
    var c := ParseDomain(ts, p + 2).value.1;
    DomainDerived(ts, p + 2);
    PredicateDerived(ts, c + 1);
    var g := ts[p - 1..q];
    assert g[1] == ts[p] && g[2] == ts[p + 1];
    Sliced(ts, p - 1, q, c);
    assert g[3..c - (p - 1)] == ts[p + 2..c] by { Inside(ts, p - 1, q, 3, q - c); }
  }

  lemma {:induction false} ImplicationDerived(ts: seq<Token>, p: nat)
    requires p < |ts| && Closed(ts) && ParseImplication(ts, p).Some?
    ensures var (e, q) := ParseImplication(ts, p).value;
            IsImplication(ts[p..q], e)
    decreases |ts| - p, 7
  {
    hide ParseConnective, IsChain;
    ChainDerived(Or, ts, p);
    var (e, q) := ParseImplication(ts, p).value;
    var c := ParseConnective(Or, ts, p).value.1;
    if IsKeyword(ts[c], "implies") {
      ImplicationDerived(ts, c + 1);
      Sliced(ts, p, q, c);
    }
  }

  lemma {:induction false} ChainDerived(kind: Kind, ts: seq<Token>, p: nat)
    requires p < |ts| && Closed(ts) && IsConnective(kind) && ParseConnective(kind, ts, p).Some?
    ensures var (e, q) := ParseConnective(kind, ts, p).value;
            IsChain(kind, ts[p..q], e)
    decreases |ts| - p, if kind == Or then 6 else 4
  {
    hide ParseOperands, IsOperand;
    LinkedDerived(kind, ts, p);
  }

  lemma {:induction false} LinkedDerived(kind: Kind, ts: seq<Token>, p: nat)
    requires p < |ts| && Closed(ts) && IsConnective(kind) && ParseOperands(kind, ts, p).Some?
    ensures var (parts, q) := ParseOperands(kind, ts, p).value;
            IsLinked(kind, ts[p..q], parts)
    decreases |ts| - p, if kind == Or then 5 else 3
  {
    hide ParseConnective, ParseComparison, IsOperand;
    OperandDerived(kind, ts, p);
    var (first, c) := ParseOperand(kind, ts, p).value;
    if IsKeyword(ts[c], ConnectiveWord(kind)) {
      LinkedDerived(kind, ts, c + 1);
      var (rest, q) := ParseOperands(kind, ts, c + 1).value;
      Links(kind, ts, p, c, q, first, rest);
    }
  }

  lemma {:induction false} OperandDerived(kind: Kind, ts: seq<Token>, p: nat)
    requires p < |ts| && Closed(ts) && IsConnective(kind) && ParseOperand(kind, ts, p).Some?
    ensures var (e, q) := ParseOperand(kind, ts, p).value;
            q < |ts| && IsOperand(kind, ts[p..q], e)
    decreases |ts| - p, if kind == Or then 5 else 3, 0
  {
    hide ParseConnective, ParseComparison, IsChain, IsComparison;
    if kind == Or {
      ChainDerived(And, ts, p);
    } else {
      ComparisonDerived(ts, p);
    }
  }

  lemma Links(kind: Kind, ts: seq<Token>, p: nat, c: nat, q: nat, first: Expression, rest: seq<Expression>)
    requires p < c < q - 1 < |ts| && IsConnective(kind) && Says(ts[c], if kind == Or then "or" else "and")
    requires IsOperand(kind, ts[p..c], first) && rest != [] && IsLinked(kind, ts[c + 1..q], rest)
    ensures IsLinked(kind, ts[p..q], [first] + rest)
  {
    hide IsOperand;
    Sliced(ts, p, q, c);
    assert ([first] + rest)[1..] == rest;
  }

  lemma {:induction false} ComparisonDerived(ts: seq<Token>, p: nat)
    requires p < |ts| && Closed(ts) && ParseComparison(ts, p).Some?
    ensures var (e, q) := ParseComparison(ts, p).value;
            IsComparison(ts[p..q], e)
    decreases |ts| - p, 2
  {
    hide ParseUnary, IsUnary;
    UnaryDerived(ts, p);
    var (e, q) := ParseComparison(ts, p).value;
    var c := ParseUnary(ts, p).value.1;
    if ComparisonText(ts[c].kind) != "" {
      UnaryDerived(ts, c + 1);
      Sliced(ts, p, q, c);
      OperatorsAgree(ts[c]);
    }
  }

  lemma OperatorsAgree(token: Token)
    ensures OperatorOf(token) == ComparisonText(token.kind)
  {}

  lemma {:induction false} UnaryDerived(ts: seq<Token>, p: nat)
    requires p < |ts| && Closed(ts) && ParseUnary(ts, p).Some?
    ensures var (e, q) := ParseUnary(ts, p).value;
            IsUnary(ts[p..q], e)
    decreases |ts| - p, 1
  {
    hide ParsePrimary, IsPrimary;
    var (e, q) := ParseUnary(ts, p).value;
    assert ts[p..q][0] == ts[p];
    if IsKeyword(ts[p], "not") {
      UnaryDerived(ts, p + 1);
      Sliced(ts, p, q, p);
    } else {
      PrimaryDerived(ts, p);
    }
  }

  lemma {:induction false} PrimaryDerived(ts: seq<Token>, p: nat)
    requires p < |ts| && Closed(ts) && ParsePrimary(ts, p).Some?
    ensures var (e, q) := ParsePrimary(ts, p).value;
            IsPrimary(ts[p..q], e)
    decreases |ts| - p, 0
  {
    hide IsArguments, IsPredicate, ReadInteger, ParsePredicate, ParseArgumentList;
    var (e, q) := ParsePrimary(ts, p).value;
    var g := ts[p..q];
    assert forall k | 0 <= k < |g| :: g[k] == ts[p + k];
    if ts[p].kind == LeftParen {
      PredicateDerived(ts, p + 1);
      Inside(ts, p, q, 1, 1);
    } else if ts[p].kind == Identifier && ts[p + 1].kind == LeftParen {
      ArgumentListDerived(ts, p + 2);
      Inside(ts, p, q, 2, 1);
    }
  }

  lemma {:induction false} ArgumentListDerived(ts: seq<Token>, p: nat)
    requires p < |ts| && Closed(ts) && ParseArgumentList(ts, p).Some?
    ensures var (es, q) := ParseArgumentList(ts, p).value;
            IsArguments(ts[p..q], es)
    decreases |ts| - p, 10
  {
    if ts[p].kind == RightParen {
      assert ts[p..p] == [];
    } else {
      ArgumentsDerived(ts, p);
    }
  }

  lemma {:induction false} ArgumentsDerived(ts: seq<Token>, p: nat)
    requires p < |ts| && Closed(ts) && ParseArguments(ts, p).Some?
    ensures var (es, q) := ParseArguments(ts, p).value;
            |es| > 0 && IsArguments(ts[p..q], es)
    decreases |ts| - p, 9
  {
    hide IsPredicate, ParsePredicate;
    PredicateDerived(ts, p);
    var (es, q) := ParseArguments(ts, p).value;
    var c := ParsePredicate(ts, p).value.1;
    if ts[c].kind == Comma {
      ArgumentsDerived(ts, c + 1);
      Sliced(ts, p, q, c);
      assert es[1..] == ParseArguments(ts, c + 1).value.0;
    }
  }
}
