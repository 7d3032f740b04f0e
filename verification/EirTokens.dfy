/** The tokens a written expression is cut back into. */
module EirTokens {
  import opened Basics
  import opened Numerals
  import opened Expressions
  import opened EirLexer
  import opened EirCutting
  import opened EirWriter
  import Utf8

  function Word(t: string): Token {
    Token(Identifier, t)
  }

  const LEFT_PAREN := Token(LeftParen, "(")
  const RIGHT_PAREN := Token(RightParen, ")")
  const COMMA := Token(Comma, ",")
  const COLON := Token(Colon, ":")
  const AT := Token(At, "@")

  function BooleanWord(b: bool): string {
    if b then "true" else "false"
  }

  function QuantifierWord(kind: Kind): string
    requires IsQuantifier(kind)
  {
    if kind == ForAll then "forall" else "exists"
  }

  function PredicateTokens(e: Expression, minPower: int): seq<Token>
    decreases e, 2
  {
    if BindingPower(e.kind) < minPower then [LEFT_PAREN] + BareTokens(e) + [RIGHT_PAREN] else BareTokens(e)
  }

  function BareTokens(e: Expression): seq<Token>
    decreases e, 1
  {
    match e.kind
    case Call => [Word(e.text), LEFT_PAREN] + ListTokens(e.operands, 0, COMMA) + [RIGHT_PAREN]
    case Not => if |e.operands| < 1 then [] else [Word("not")] + PredicateTokens(e.operands[0], 50)
    case Compare =>
      if |e.operands| < 2 || !IsComparisonOperator(e.text) then []
      else
        PredicateTokens(e.operands[0], 50) + [Token(ComparisonKind(e.text), e.text)]
        + PredicateTokens(e.operands[1], 50)
    case And | Or => ListTokens(e.operands, OperandPower(e.kind), Word(ConnectiveWord(e.kind)))
    case Implies =>
      if |e.operands| < 2 then []
      else PredicateTokens(e.operands[0], 20) + [Word("implies")] + PredicateTokens(e.operands[1], 10)
    case ForAll | Exists =>
      if |e.operands| < 2 then []
      else
        [Word(QuantifierWord(e.kind)), Word(e.text), Word("in")] + ValueTokens(e.operands[0])
        + [COLON] + PredicateTokens(e.operands[1], 0)
    case _ => ValueTokens(e)
  }

  function ListTokens(es: seq<Expression>, minPower: int, separator: Token): seq<Token>
    decreases es, 0
  {
    if es == [] then []
    else if |es| == 1 then PredicateTokens(es[0], minPower)
    else PredicateTokens(es[0], minPower) + [separator] + ListTokens(es[1..], minPower, separator)
  }

  function ValueTokens(e: Expression): seq<Token>
    decreases e, 0
  {
    match e.kind
    case Bool => [Word(BooleanWord(e.boolean))]
    case Integer => [Token(IntegerLiteral, Spelling(e.integer))]
    case String => [Token(StringLiteral, e.text)]
    case Symbol => [Word(e.text)]
    case Reference => [AT, Word(e.text)]
    case Call => [Word(e.text), LEFT_PAREN] + ValuesTokens(e.operands) + [RIGHT_PAREN]
    case _ => []
  }

  function ValuesTokens(es: seq<Expression>): seq<Token>
    decreases es, 0
  {
    if es == [] then []
    else if |es| == 1 then ValueTokens(es[0])
    else ValueTokens(es[0]) + [COMMA] + ValuesTokens(es[1..])
  }

  /** Every string literal carries well-formed UTF-8. */
  predicate Readable(e: Expression) {
    && (e.kind == String ==> Utf8.WellFormed(e.text))
    && forall operand <- e.operands :: Readable(operand)
  }

  // ----- Small spellings -----

  lemma CutsMark(s: string, i: nat, mark: string)
    requires |mark| == 1 && Punctuation(mark[0]).Some? && Occurs(s, i, mark)
    ensures Cuts(s, i, i + 1, [Token(Punctuation(mark[0]).value, mark)])
  {
    OccursAt(s, i, mark, 0);
    CutsPunctuation(s, i);
    assert mark == [mark[0]];
  }

  lemma CutsSpace(s: string, i: nat)
    requires Occurs(s, i, " ")
    ensures Cuts(s, i, i + 1, []) && Boundary(s, i)
  {
    OccursAt(s, i, " ", 0);
    CutsBlank(s, i);
  }

  /** A comma and the space that follows it. */
  lemma CutsComma(s: string, i: nat)
    requires Occurs(s, i, ", ")
    ensures Cuts(s, i, i + 2, [COMMA]) && Boundary(s, i)
  {
    hide Cuts;
    assert ", " == "," + " ";
    OccursSplit(s, i, ",", " ");
    OccursAt(s, i, ",", 0);
    CutsMark(s, i, ",");
    CutsSpace(s, i + 1);
    CutsThen(s, i, i + 1, i + 2, [COMMA], []);
    assert [COMMA] + [] == [COMMA];
  }

  /** A keyword with a space after it. */
  lemma CutsKeyword(s: string, i: nat, word: string)
    requires IsIdentifier(word) && Occurs(s, i, word + " ")
    ensures Cuts(s, i, i + |word| + 1, [Word(word)])
  {
    hide Cuts, IsIdentifier;
    OccursSplit(s, i, word, " ");
    CutsSpace(s, i + |word|);
    CutsIdentifier(s, i, word);
    CutsThen(s, i, i + |word|, i + |word| + 1, [Word(word)], []);
    assert [Word(word)] + [] == [Word(word)];
  }

  /** A keyword between two spaces. */
  lemma CutsInfix(s: string, i: nat, word: string)
    requires IsIdentifier(word) && Occurs(s, i, " " + word + " ")
    ensures Cuts(s, i, i + |word| + 2, [Word(word)]) && Boundary(s, i)
  {
    hide Cuts, IsIdentifier, Boundary;
    assert " " + word + " " == " " + (word + " ");
    OccursSplit(s, i, " ", word + " ");
    CutsSpace(s, i);
    CutsKeyword(s, i + 1, word);
    CutsThen(s, i, i + 1, i + |word| + 2, [], [Word(word)]);
    assert [] + [Word(word)] == [Word(word)];
  }

  /** A comparison operator between two spaces. */
  lemma CutsOperator(s: string, i: nat, t: string)
    requires IsComparisonOperator(t) && Occurs(s, i, " " + t + " ")
    ensures Cuts(s, i, i + |t| + 2, [Token(ComparisonKind(t), t)]) && Boundary(s, i)
  {
    hide Cuts, Boundary, IsComparisonOperator, ComparisonKind;
    var token := Token(ComparisonKind(t), t);
    assert " " + t + " " == " " + (t + " ");
    OccursSplit(s, i, " ", t + " ");
    CutsSpace(s, i);
    CutsComparison(s, i + 1, t);
    OccursSplit(s, i + 1, t, " ");
    CutsSpace(s, i + 1 + |t|);
    CutsThen(s, i, i + 1, i + 1 + |t|, [], [token]);
    CutsThen(s, i, i + 1 + |t|, i + 2 + |t|, [] + [token], []);
    assert [] + [token] + [] == [token];
  }

  lemma CutsJoin(s: string, i: nat, j: nat, k: nat, l: nat, left: seq<Token>, middle: seq<Token>, right: seq<Token>)
    requires i <= |s| && j <= |s| && k <= |s| && l <= |s|
    requires Cuts(s, i, j, left) && Cuts(s, j, k, middle) && Cuts(s, k, l, right)
    ensures Cuts(s, i, l, left + middle + right)
  {
    hide Cuts;
    CutsThen(s, i, j, k, left, middle);
    CutsThen(s, i, k, l, left + middle, right);
  }

  /** Text between parentheses is delimited by them. */
  lemma InsideParens(s: string, i: nat, inner: string)
    requires Occurs(s, i, "(" + inner + ")")
    ensures Occurs(s, i, "(") && Occurs(s, i + 1, inner) && Occurs(s, i + 1 + |inner|, ")")
    ensures Boundary(s, i) && Boundary(s, i + 1 + |inner|)
  {
    OccursSplit(s, i, "(" + inner, ")");
    OccursSplit(s, i, "(", inner);
    OccursAt(s, i, "(", 0);
    OccursAt(s, i + 1 + |inner|, ")", 0);
  }

  lemma CutsParens(s: string, i: nat, inner: string, tokens: seq<Token>)
    requires Occurs(s, i, "(" + inner + ")")
    requires Cuts(s, i + 1, i + 1 + |inner|, tokens)
    ensures Cuts(s, i, i + |inner| + 2, [LEFT_PAREN] + tokens + [RIGHT_PAREN])
  {
    hide Cuts;
    InsideParens(s, i, inner);
    CutsMark(s, i, "(");
    CutsMark(s, i + 1 + |inner|, ")");
    CutsJoin(s, i, i + 1, i + 1 + |inner|, i + 2 + |inner|, [LEFT_PAREN], tokens, [RIGHT_PAREN]);
  }

  lemma InsideCall(s: string, i: nat, name: string, inner: string)
    requires Occurs(s, i, name + "(" + inner + ")")
    ensures Occurs(s, i, name) && Occurs(s, i + |name|, "(" + inner + ")")
    ensures Occurs(s, i + |name| + 1, inner) && Boundary(s, i + |name| + 1 + |inner|)
  {
    assert name + "(" + inner + ")" == name + ("(" + inner + ")");
    OccursSplit(s, i, name, "(" + inner + ")");
    InsideParens(s, i + |name|, inner);
  }

  lemma CutsCall(s: string, i: nat, name: string, inner: string, tokens: seq<Token>)
    requires IsIdentifier(name) && Occurs(s, i, name + "(" + inner + ")")
    requires Cuts(s, i + |name| + 1, i + |name| + 1 + |inner|, tokens)
    ensures Cuts(s, i, i + |name| + |inner| + 2, [Word(name), LEFT_PAREN] + tokens + [RIGHT_PAREN])
  {
    hide Cuts, IsIdentifier;
    InsideCall(s, i, name, inner);
    InsideParens(s, i + |name|, inner);
    CutsIdentifier(s, i, name);
    CutsParens(s, i + |name|, inner, tokens);
    CutsThen(s, i, i + |name|, i + |name| + |inner| + 2, [Word(name)], [LEFT_PAREN] + tokens + [RIGHT_PAREN]);
    assert [Word(name)] + ([LEFT_PAREN] + tokens + [RIGHT_PAREN]) == [Word(name), LEFT_PAREN] + tokens + [RIGHT_PAREN];
  }

  lemma CutsReference(s: string, i: nat, name: string)
    requires IsIdentifier(name) && Occurs(s, i, "@" + name) && Boundary(s, i + 1 + |name|)
    ensures Cuts(s, i, i + 1 + |name|, [AT, Word(name)])
  {
    hide Cuts, IsIdentifier;
    OccursSplit(s, i, "@", name);
    CutsMark(s, i, "@");
    CutsIdentifier(s, i + 1, name);
    CutsThen(s, i, i + 1, i + 1 + |name|, [AT], [Word(name)]);
    assert [AT] + [Word(name)] == [AT, Word(name)];
  }

  // ----- Values -----

  /** The spelling `t` stands at `i` and is delimited there. */
  predicate Stands(s: string, i: nat, t: string) {
    Occurs(s, i, t) && Boundary(s, i + |t|)
  }

  lemma CutsBoolean(s: string, i: nat, b: bool)
    requires Stands(s, i, BooleanWord(b))
    ensures Cuts(s, i, i + |BooleanWord(b)|, [Word(BooleanWord(b))])
  {
    WordIsIdentifier(BooleanWord(b));
    CutsIdentifier(s, i, BooleanWord(b));
  }

  lemma {:induction false} ValueCuts(e: Expression, s: string, i: nat)
    requires Readable(e) && WriteValue(e).Some? && Stands(s, i, WriteValue(e).value)
    ensures Cuts(s, i, i + |WriteValue(e).value|, ValueTokens(e))
    decreases e, 0
  {
    hide Cuts, IsIdentifier, Boundary, Occurs;
    match e.kind
    case String => CutsString(s, i, e.text, true);
    case Integer => CutsInteger(s, i, e.integer);
    case Bool => CutsBoolean(s, i, e.boolean);
    case Reference => CutsReference(s, i, e.text);
    case Symbol => CutsIdentifier(s, i, e.text);
    case Call =>
      var arguments := WriteValues(e.operands).value;
      InsideCall(s, i, e.text, arguments);
      ValuesCut(e.operands, s, i + |e.text| + 1);
      CutsCall(s, i, e.text, arguments, ValuesTokens(e.operands));
  }

  lemma {:induction false} ValuesCut(es: seq<Expression>, s: string, i: nat)
    requires (forall e <- es :: Readable(e)) && WriteValues(es).Some? && Stands(s, i, WriteValues(es).value)
    ensures Cuts(s, i, i + |WriteValues(es).value|, ValuesTokens(es))
    decreases es, 0
  {
    hide Cuts, IsIdentifier, Boundary;
    if es == [] {
      CutsNothing(s, i);
    } else if |es| == 1 {
      ValueCuts(es[0], s, i);
    } else {
      var first, rest := WriteValue(es[0]).value, WriteValues(es[1..]).value;
      ListParts(s, i, first, ", ", rest);
      CutsComma(s, i + |first|);
      ValueCuts(es[0], s, i);
      ValuesCut(es[1..], s, i + |first| + 2);
      CutsJoin(s, i, i + |first|, i + |first| + 2, i + |first| + 2 + |rest|,
               ValueTokens(es[0]), [COMMA], ValuesTokens(es[1..]));
    }
  }

  lemma ListParts(s: string, i: nat, first: string, separator: string, rest: string)
    requires Occurs(s, i, first + separator + rest)
    ensures Occurs(s, i, first) && Occurs(s, i + |first|, separator) && Occurs(s, i + |first| + |separator|, rest)
  {
    OccursSplit(s, i, first + separator, rest);
    OccursSplit(s, i, first, separator);
  }

  // ----- Predicates -----

  lemma {:induction false} PredicateCuts(e: Expression, minPower: int, s: string, i: nat)
    requires Shaped(e) && Readable(e)
    requires WritePredicate(e, minPower).Some? && Stands(s, i, WritePredicate(e, minPower).value)
    ensures Cuts(s, i, i + |WritePredicate(e, minPower).value|, PredicateTokens(e, minPower))
    decreases e, 2
  {
    hide Cuts, Boundary, Occurs, WriteBare, BareTokens, ShapedNode;
    var body := WriteBare(e).value;
    if BindingPower(e.kind) < minPower {
      InsideParens(s, i, body);
      BareCuts(e, s, i + 1);
      CutsParens(s, i, body, BareTokens(e));
    } else {
      BareCuts(e, s, i);
    }
  }

  lemma {:induction false} BareCuts(e: Expression, s: string, i: nat)
    requires Shaped(e) && Readable(e) && WriteBare(e).Some? && Stands(s, i, WriteBare(e).value)
    ensures Cuts(s, i, i + |WriteBare(e).value|, BareTokens(e))
    decreases e, 1
  {
    hide Cuts, IsIdentifier, Boundary, Occurs, WritePredicate, PredicateTokens;
    match e.kind
    case Bool | Integer | String | Symbol | Reference => ValueCuts(e, s, i);
    case Call =>
      var arguments := WriteList(e.operands, 0, ", ").value;
      InsideCall(s, i, e.text, arguments);
      ListCuts(e.operands, 0, ", ", COMMA, s, i + |e.text| + 1);
      CutsCall(s, i, e.text, arguments, ListTokens(e.operands, 0, COMMA));
    case Not =>
      var operand := WritePredicate(e.operands[0], 50).value;
      OccursSplit(s, i, "not ", operand);
      CutsNot(s, i);
      PredicateCuts(e.operands[0], 50, s, i + 4);
      CutsThen(s, i, i + 4, i + 4 + |operand|, [Word("not")], PredicateTokens(e.operands[0], 50));
    case Compare => CompareCuts(e, s, i);
    case And | Or =>
      assert IsSeparator(ConnectiveSeparator(e.kind), Word(ConnectiveWord(e.kind)));
      ListCuts(e.operands, OperandPower(e.kind), ConnectiveSeparator(e.kind), Word(ConnectiveWord(e.kind)), s, i);
    case Implies => ImpliesCuts(e, s, i);
    case ForAll | Exists => QuantifierCuts(e, s, i);
  }

  lemma CutsNot(s: string, i: nat)
    requires Occurs(s, i, "not ")
    ensures Cuts(s, i, i + 4, [Word("not")])
  {
    WordIsIdentifier("not");
    CutsKeyword(s, i, "not");
  }

  lemma {:induction false} CompareCuts(e: Expression, s: string, i: nat)
    requires e.kind == Compare && Shaped(e) && Readable(e)
    requires WriteBare(e).Some? && Stands(s, i, WriteBare(e).value)
    ensures Cuts(s, i, i + |WriteBare(e).value|, BareTokens(e))
    decreases e, 0
  {
    hide Cuts, Boundary, Occurs, WritePredicate, PredicateTokens, IsComparisonOperator, ComparisonKind;
    var left, right := e.operands[0], e.operands[1];
    var l, r := WritePredicate(left, 50).value, WritePredicate(right, 50).value;
    var operator := " " + e.text + " ";
    assert l + " " + e.text + " " + r == l + operator + r;
    ListParts(s, i, l, operator, r);
    CutsOperator(s, i + |l|, e.text);
    PredicateCuts(left, 50, s, i);
    PredicateCuts(right, 50, s, i + |l| + |operator|);
    CutsJoin(s, i, i + |l|, i + |l| + |operator|, i + |l| + |operator| + |r|,
             PredicateTokens(left, 50), [Token(ComparisonKind(e.text), e.text)], PredicateTokens(right, 50));
  }

  lemma {:induction false} ImpliesCuts(e: Expression, s: string, i: nat)
    requires e.kind == Implies && Shaped(e) && Readable(e)
    requires WriteBare(e).Some? && Stands(s, i, WriteBare(e).value)
    ensures Cuts(s, i, i + |WriteBare(e).value|, BareTokens(e))
    decreases e, 0
  {
    hide Cuts, Boundary, Occurs, WritePredicate, PredicateTokens;
    var left, right := e.operands[0], e.operands[1];
    var l, r := WritePredicate(left, 20).value, WritePredicate(right, 10).value;
    ListParts(s, i, l, " implies ", r);
    CutsImplies(s, i + |l|);
    PredicateCuts(left, 20, s, i);
    PredicateCuts(right, 10, s, i + |l| + 9);
    CutsJoin(s, i, i + |l|, i + |l| + 9, i + |l| + 9 + |r|,
             PredicateTokens(left, 20), [Word("implies")], PredicateTokens(right, 10));
  }

  lemma CutsImplies(s: string, i: nat)
    requires Occurs(s, i, " implies ")
    ensures Cuts(s, i, i + 9, [Word("implies")]) && Boundary(s, i)
  {
    WordIsIdentifier("implies");
    CutsInfix(s, i, "implies");
  }

  /** The three separators of a written list, with the token each is cut into. */
  predicate IsSeparator(separator: string, token: Token) {
    (separator, token) in {(", ", COMMA), (" and ", Word("and")), (" or ", Word("or"))}
  }

  lemma {:induction false} ListCuts(
      es: seq<Expression>, minPower: int, separator: string, token: Token, s: string, i: nat)
    requires (forall e <- es :: Shaped(e) && Readable(e))
    requires IsSeparator(separator, token)
    requires WriteList(es, minPower, separator).Some? && Stands(s, i, WriteList(es, minPower, separator).value)
    ensures Cuts(s, i, i + |WriteList(es, minPower, separator).value|, ListTokens(es, minPower, token))
    decreases es, 0
  {
    hide Cuts, Boundary, WritePredicate, PredicateTokens, Shaped, Readable;
    if es == [] {
      CutsNothing(s, i);
    } else if |es| == 1 {
      PredicateCuts(es[0], minPower, s, i);
    } else {
      var first, rest := WritePredicate(es[0], minPower).value, WriteList(es[1..], minPower, separator).value;
      var j := i + |first|;
      var k := j + |separator|;
      ListParts(s, i, first, separator, rest);
      CutsSeparator(s, j, separator, token);
      PredicateCuts(es[0], minPower, s, i);
      ListCuts(es[1..], minPower, separator, token, s, k);
      CutsJoin(s, i, j, k, k + |rest|, PredicateTokens(es[0], minPower), [token], ListTokens(es[1..], minPower, token));
    }
  }

  lemma CutsSeparator(s: string, i: nat, separator: string, token: Token)
    requires IsSeparator(separator, token)
    requires Occurs(s, i, separator)
    ensures Cuts(s, i, i + |separator|, [token]) && Boundary(s, i)
  {
    hide Cuts, Boundary, IsIdentifier;
    if separator == ", " {
      CutsComma(s, i);
    } else {
      WordIsIdentifier(token.text);
      CutsInfix(s, i, token.text);
    }
  }

  lemma {:induction false} QuantifierCuts(e: Expression, s: string, i: nat)
    requires IsQuantifier(e.kind) && Shaped(e) && Readable(e)
    requires WriteBare(e).Some? && Stands(s, i, WriteBare(e).value)
    ensures Cuts(s, i, i + |WriteBare(e).value|, BareTokens(e))
    decreases e, 0
  {
    hide Cuts, Boundary, Occurs, IsIdentifier, WritePredicate, PredicateTokens, WriteValue, ValueTokens;
    var domain, body := e.operands[0], e.operands[1];
    var word := QuantifierWord(e.kind);
    var d, b := WriteDomain(domain).value, WritePredicate(body, 0).value;
    var head := word + " " + e.text + " in ";
    var j := i + |head|;
    var k := j + |d| + 2;
    assert WriteBare(e).value == head + d + ": " + b;
    ListParts(s, i, head + d, ": ", b);
    OccursSplit(s, i, head, d);
    CutsQuantifierHead(s, i, word, e.text);
    CutsColon(s, j + |d|);
    DomainCuts(domain, s, j);
    PredicateCuts(body, 0, s, k);
    CutsJoin(s, i, j, j + |d|, k, [Word(word), Word(e.text), Word("in")], ValueTokens(domain), [COLON]);
    CutsThen(s, i, k, k + |b|, [Word(word), Word(e.text), Word("in")] + ValueTokens(domain) + [COLON],
             PredicateTokens(body, 0));
  }

  lemma DomainCuts(e: Expression, s: string, i: nat)
    requires Readable(e) && WriteDomain(e).Some? && Stands(s, i, WriteDomain(e).value)
    ensures Cuts(s, i, i + |WriteDomain(e).value|, ValueTokens(e))
  {
    hide Cuts;
    ValueCuts(e, s, i);
  }

  lemma CutsColon(s: string, i: nat)
    requires Occurs(s, i, ": ")
    ensures Cuts(s, i, i + 2, [COLON]) && Boundary(s, i)
  {
    hide Cuts;
    assert ": " == ":" + " ";
    OccursSplit(s, i, ":", " ");
    OccursAt(s, i, ":", 0);
    CutsMark(s, i, ":");
    CutsSpace(s, i + 1);
    CutsThen(s, i, i + 1, i + 2, [COLON], []);
    assert [COLON] + [] == [COLON];
  }

  lemma CutsQuantifierHead(s: string, i: nat, word: string, variable: string)
    requires word == "forall" || word == "exists"
    requires IsIdentifier(variable) && Occurs(s, i, word + " " + variable + " in ")
    ensures Cuts(s, i, i + |word| + |variable| + 5, [Word(word), Word(variable), Word("in")])
  {
    hide Cuts, IsIdentifier, Boundary, Occurs;
    WordIsIdentifier(word);
    WordIsIdentifier("in");
    var j := i + |word| + 1;
    assert word + " " + variable + " in " == (word + " ") + (variable + " " + "in ");
    OccursSplit(s, i, word + " ", variable + " " + "in ");
    OccursSplit(s, j, variable + " ", "in ");
    CutsKeyword(s, i, word);
    CutsKeyword(s, j, variable);
    assert "in " == "in" + " ";
    CutsKeyword(s, j + |variable| + 1, "in");
    CutsJoin(s, i, j, j + |variable| + 1, j + |variable| + 4, [Word(word)], [Word(variable)], [Word("in")]);
    assert [Word(word)] + [Word(variable)] + [Word("in")] == [Word(word), Word(variable), Word("in")];
  }

  /** The whole spelling of a predicate lexes to its tokens. */
  lemma PredicateLexes(e: Expression)
    requires Shaped(e) && Readable(e) && WritePredicate(e, 0).Some?
    ensures Lex(WritePredicate(e, 0).value) == Some(PredicateTokens(e, 0) + [END_TOKEN])
  {
    hide Shaped, Readable, WritePredicate, PredicateTokens, Cuts;
    var s := WritePredicate(e, 0).value;
    OccursWhole(s);
    PredicateCuts(e, 0, s, 0);
    WholeText(s, PredicateTokens(e, 0));
  }
}
