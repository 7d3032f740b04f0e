/** EIR-T parsing over a token sequence: the precedence chain and the property values. */
module EirParser {
  import opened Basics
  import opened Numerals
  import opened Expressions
  import opened EirLexer

  /** The lexer's promise to the parser: the stream is closed by an end token. */
  predicate Closed(ts: seq<Token>) {
    |ts| > 0 && ts[|ts| - 1].kind == End
  }

  predicate IsKeyword(token: Token, word: string) {
    token.kind == Identifier && token.text == word
  }

  /** The spelling of a comparison token; empty for every other token. */
  function ComparisonText(kind: TokenKind): string {
    match kind
    case EqualEqual => "=="
    case NotEqual => "!="
    case Less => "<"
    case LessEqual => "<="
    case Greater => ">"
    case GreaterEqual => ">="
    case _ => ""
  }

  /** A parsed item and the position of the token after it. */
  type Parsed<+T> = Option<(T, nat)>

  /** The item, if any, was read from at least one token and stops before the stream's end. */
  predicate Advances<T>(r: Parsed<T>, ts: seq<Token>, p: nat) {
    r.Some? ==> p < r.value.1 < |ts|
  }

  /** Same-kind operands are spliced into one operand list. */
  function Splice(kind: Kind, operands: seq<Expression>): seq<Expression> {
    if operands == [] then []
    else
      var first := if operands[0].kind == kind then operands[0].operands else [operands[0]];
      first + Splice(kind, operands[1..])
  }

  function MakeConnective(kind: Kind, operands: seq<Expression>): Expression {
    Make(kind, "", Splice(kind, operands))
  }

  // ----- Cursor primitives -----

  function Expect(ts: seq<Token>, p: nat, kind: TokenKind): (r: Option<nat>)
    requires p < |ts| && Closed(ts) && kind != End
    ensures r.Some? ==> r.value == p + 1 < |ts|
  {
    if ts[p].kind == kind then Some(p + 1) else None
  }

  function TakeIdentifier(ts: seq<Token>, p: nat): (r: Parsed<string>)
    requires p < |ts| && Closed(ts)
    ensures Advances(r, ts, p)
  {
    if ts[p].kind == Identifier then Some((ts[p].text, p + 1)) else None
  }

  function TakeReference(ts: seq<Token>, p: nat): (r: Parsed<Expression>)
    requires p < |ts| && Closed(ts)
    ensures Advances(r, ts, p)
  {
    var q :- Expect(ts, p, At);
    var (name, e) :- TakeIdentifier(ts, q);
    Some((Make(Reference, name, []), e))
  }

  function TakeInteger(ts: seq<Token>, p: nat): (r: Parsed<Expression>)
    requires p < |ts| && Closed(ts) && ts[p].kind == IntegerLiteral
    ensures Advances(r, ts, p)
  {
    var value :- ReadInteger(ts[p].text);
    Some((Expression(Integer, "", value, false, []), p + 1))
  }

  /** A bare identifier: a boolean literal or a symbol. */
  function NameValue(text: string): Expression {
    if text == "true" || text == "false" then Expression(Bool, "", 0, text == "true", []) else Make(Symbol, text, [])
  }

  // ----- Predicates -----

  function ParsePredicate(ts: seq<Token>, p: nat): (r: Parsed<Expression>)
    requires p < |ts| && Closed(ts)
    ensures Advances(r, ts, p)
    decreases |ts| - p, 8
  {
    if IsKeyword(ts[p], "forall") then ParseQuantified(ForAll, ts, p + 1)
    else if IsKeyword(ts[p], "exists") then ParseQuantified(Exists, ts, p + 1)
    else ParseImplication(ts, p)
  }

  function ParseImplication(ts: seq<Token>, p: nat): (r: Parsed<Expression>)
    requires p < |ts| && Closed(ts)
    ensures Advances(r, ts, p)
    decreases |ts| - p, 7
  {
    var (left, q) :- ParseConnective(Or, ts, p);
    if !IsKeyword(ts[q], "implies") then Some((left, q))
    else
      var (right, e) :- ParseImplication(ts, q + 1);
      Some((Make(Implies, "", [left, right]), e))
  }

  /** `ParseOr` and `ParseAnd`: one operand, or a flattened chain of them. */
  function ParseConnective(kind: Kind, ts: seq<Token>, p: nat): (r: Parsed<Expression>)
    requires p < |ts| && Closed(ts) && IsConnective(kind)
    ensures Advances(r, ts, p)
    decreases |ts| - p, if kind == Or then 6 else 4
  {
    var (operands, q) :- ParseOperands(kind, ts, p);
    Some((if |operands| == 1 then operands[0] else MakeConnective(kind, operands), q))
  }

  function ParseOperands(kind: Kind, ts: seq<Token>, p: nat): (r: Parsed<seq<Expression>>)
    requires p < |ts| && Closed(ts) && IsConnective(kind)
    ensures Advances(r, ts, p) && (r.Some? ==> |r.value.0| > 0)
    decreases |ts| - p, if kind == Or then 5 else 3
  {
    var (first, q) :- if kind == Or then ParseConnective(And, ts, p) else ParseComparison(ts, p);
    if !IsKeyword(ts[q], ConnectiveWord(kind)) then Some(([first], q))
    else
      var (rest, e) :- ParseOperands(kind, ts, q + 1);
      Some(([first] + rest, e))
  }

  /** The production that reads one operand of a connective. */
  function ParseOperand(kind: Kind, ts: seq<Token>, p: nat): Parsed<Expression>
    requires p < |ts| && Closed(ts) && IsConnective(kind)
  {
    if kind == Or then ParseConnective(And, ts, p) else ParseComparison(ts, p)
  }

  function ParseComparison(ts: seq<Token>, p: nat): (r: Parsed<Expression>)
    requires p < |ts| && Closed(ts)
    ensures Advances(r, ts, p)
    decreases |ts| - p, 2
  {
    var (left, q) :- ParseUnary(ts, p);
    var operator := ComparisonText(ts[q].kind);
    if operator == "" then Some((left, q))
    else
      var (right, e) :- ParseUnary(ts, q + 1);
      if ComparisonText(ts[e].kind) != "" then None
      else Some((Make(Compare, operator, [left, right]), e))
  }

  function ParseUnary(ts: seq<Token>, p: nat): (r: Parsed<Expression>)
    requires p < |ts| && Closed(ts)
    ensures Advances(r, ts, p)
    decreases |ts| - p, 1
  {
    if IsKeyword(ts[p], "not") then
      var (operand, e) :- ParseUnary(ts, p + 1);
      Some((Make(Not, "", [operand]), e))
    else ParsePrimary(ts, p)
  }

  function ParseQuantified(kind: Kind, ts: seq<Token>, p: nat): (r: Parsed<Expression>)
    requires p < |ts| && Closed(ts) && IsQuantifier(kind)
    ensures Advances(r, ts, p)
    decreases |ts| - p, 9
  {
    var (variable, q) :- TakeIdentifier(ts, p);
    if !IsKeyword(ts[q], "in") then None
    else
      var (domain, d) :- ParseDomain(ts, q + 1);
      var b :- Expect(ts, d, Colon);
      var (body, e) :- ParsePredicate(ts, b);
      Some((Make(kind, variable, [domain, body]), e))
  }

  function ParseDomain(ts: seq<Token>, p: nat): (r: Parsed<Expression>)
    requires p < |ts| && Closed(ts)
    ensures Advances(r, ts, p)
    decreases |ts| - p, 0
  {
    if ts[p].kind == At then TakeReference(ts, p)
    else
      var (callee, q) :- TakeIdentifier(ts, p);
      var a :- Expect(ts, q, LeftParen);
      var (arguments, c) :- ParseValueList(ts, a);
      var e :- Expect(ts, c, RightParen);
      Some((Make(Call, callee, arguments), e))
  }

  function ParsePrimary(ts: seq<Token>, p: nat): (r: Parsed<Expression>)
    requires p < |ts| && Closed(ts)
    ensures Advances(r, ts, p)
    decreases |ts| - p, 0
  {
    match ts[p].kind
    case LeftParen =>
      var (inner, q) :- ParsePredicate(ts, p + 1);
      var e :- Expect(ts, q, RightParen);
      Some((inner, e))
    case StringLiteral => Some((Make(String, ts[p].text, []), p + 1))
    case IntegerLiteral => TakeInteger(ts, p)
    case At => TakeReference(ts, p)
    case Identifier =>
      if ts[p + 1].kind != LeftParen then Some((NameValue(ts[p].text), p + 1))
      else
        var (arguments, q) :- ParseArgumentList(ts, p + 2);
        var e :- Expect(ts, q, RightParen);
        Some((Make(Call, ts[p].text, arguments), e))
    case _ => None
  }

  /** Predicates separated by commas, up to a closing parenthesis that is not consumed. */
  function ParseArgumentList(ts: seq<Token>, p: nat): (r: Parsed<seq<Expression>>)
    requires p < |ts| && Closed(ts)
    ensures r.Some? ==> p <= r.value.1 < |ts|
    decreases |ts| - p, 10
  {
    if ts[p].kind == RightParen then Some(([], p)) else ParseArguments(ts, p)
  }

  function ParseArguments(ts: seq<Token>, p: nat): (r: Parsed<seq<Expression>>)
    requires p < |ts| && Closed(ts)
    ensures Advances(r, ts, p)
    decreases |ts| - p, 9
  {
    var (first, q) :- ParsePredicate(ts, p);
    if ts[q].kind != Comma then Some(([first], q))
    else
      var (rest, e) :- ParseArguments(ts, q + 1);
      Some(([first] + rest, e))
  }

  // ----- Values -----

  function ParseValue(ts: seq<Token>, p: nat): (r: Parsed<Expression>)
    requires p < |ts| && Closed(ts)
    ensures Advances(r, ts, p)
    decreases |ts| - p, 0
  {
    match ts[p].kind
    case StringLiteral => Some((Make(String, ts[p].text, []), p + 1))
    case IntegerLiteral => TakeInteger(ts, p)
    case At => TakeReference(ts, p)
    case Identifier =>
      if ts[p + 1].kind != LeftParen then Some((NameValue(ts[p].text), p + 1))
      else
        var (arguments, q) :- ParseValueList(ts, p + 2);
        var e :- Expect(ts, q, RightParen);
        Some((Make(Call, ts[p].text, arguments), e))
    case _ => None
  }

  function ParseValueList(ts: seq<Token>, p: nat): (r: Parsed<seq<Expression>>)
    requires p < |ts| && Closed(ts)
    ensures r.Some? ==> p <= r.value.1 < |ts|
    decreases |ts| - p, 2
  {
    if ts[p].kind == RightParen then Some(([], p)) else ParseValues(ts, p)
  }

  function ParseValues(ts: seq<Token>, p: nat): (r: Parsed<seq<Expression>>)
    requires p < |ts| && Closed(ts)
    ensures Advances(r, ts, p)
    decreases |ts| - p, 1
  {
    var (first, q) :- ParseValue(ts, p);
    if ts[q].kind != Comma then Some(([first], q))
    else
      var (rest, e) :- ParseValues(ts, q + 1);
      Some(([first] + rest, e))
  }
}
