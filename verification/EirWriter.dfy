/** The EIR-T writer over expressions: the spelling of a predicate or a value, or a refusal. */
module EirWriter {
  import opened Basics
  import opened Numerals
  import opened Expressions
  import opened EirCutting

  predicate IsBooleanSpelling(t: string) {
    t == "true" || t == "false"
  }

  predicate IsReservedPredicateName(t: string) {
    || IsBooleanSpelling(t)
    || t == "not" || t == "and" || t == "or" || t == "implies" || t == "forall" || t == "exists"
  }

  predicate IsReservedCalleeName(t: string) {
    t == "not" || t == "forall" || t == "exists"
  }

  function BindingPower(kind: Kind): int {
    match kind
    case Bool | Integer | String | Symbol | Reference | Call => 60
    case Not => 50
    case Compare => 40
    case And => 30
    case Or => 20
    case Implies => 10
    case ForAll | Exists => 0
    case Unspecified => -1
  }

  function OperandPower(kind: Kind): int
    requires IsConnective(kind)
  {
    if kind == And then 40 else 30
  }

  function ConnectiveSeparator(kind: Kind): string
    requires IsConnective(kind)
  {
    if kind == And then " and " else " or "
  }

  function Refuse(condition: bool, text: string): Option<string> {
    if condition then None else Some(text)
  }

  function WriteName(text: string): Option<string> {
    Refuse(!IsIdentifier(text), text)
  }

  function WriteReference(text: string): Option<string> {
    Refuse(!IsIdentifier(text), "@" + text)
  }

  /** A predicate in a position that reads binding powers of at least `minPower`. */
  function WritePredicate(e: Expression, minPower: int): Option<string>
    decreases e, 2
  {
    var body :- WriteBare(e);
    Some(if BindingPower(e.kind) < minPower then "(" + body + ")" else body)
  }

  /** A predicate without the parentheses its position may ask for. */
  function WriteBare(e: Expression): Option<string>
    decreases e, 1
  {
    match e.kind
    case Unspecified => None
    case Bool => Some(if e.boolean then "true" else "false")
    case Integer => Some(Spelling(e.integer))
    case String => Some(Quote(e.text, true))
    case Symbol => if IsReservedPredicateName(e.text) then None else WriteName(e.text)
    case Reference => WriteReference(e.text)
    case Call =>
      if IsReservedCalleeName(e.text) then None
      else
        var callee :- WriteName(e.text);
        var arguments :- WriteList(e.operands, 0, ", ");
        Some(callee + "(" + arguments + ")")
    case Not =>
      if |e.operands| < 1 then None
      else
        var operand :- WritePredicate(e.operands[0], 50);
        Some("not " + operand)
    case Compare =>
      if |e.operands| < 2 then None
      else
        var left :- WritePredicate(e.operands[0], 50);
        var right :- WritePredicate(e.operands[1], 50);
        Some(left + " " + e.text + " " + right)
    case And | Or =>
      if |e.operands| < 2 then None
      else WriteList(e.operands, OperandPower(e.kind), ConnectiveSeparator(e.kind))
    case Implies =>
      if |e.operands| < 2 then None
      else
        var left :- WritePredicate(e.operands[0], 20);
        var right :- WritePredicate(e.operands[1], 10);
        Some(left + " implies " + right)
    case ForAll | Exists =>
      if |e.operands| < 2 then None
      else
        var variable :- WriteName(e.text);
        var domain :- WriteDomain(e.operands[0]);
        var body :- WritePredicate(e.operands[1], 0);
        Some((if e.kind == ForAll then "forall " else "exists ") + variable + " in " + domain + ": " + body)
  }

  /** Predicates in one position, joined by `separator`. */
  function WriteList(es: seq<Expression>, minPower: int, separator: string): Option<string>
    decreases es, 0
  {
    if es == [] then Some("")
    else
      var first :- WritePredicate(es[0], minPower);
      var rest :- WriteList(es[1..], minPower, separator);
      Some(if |es| == 1 then first else first + separator + rest)
  }

  /** A quantifier's domain: a reference, or a call over property values. */
  function WriteDomain(e: Expression): Option<string>
    decreases e, 1
  {
    match e.kind
    case Reference => WriteReference(e.text)
    case Call => WriteValue(e)
    case _ => None
  }

  /** A property value: nothing here is ever parenthesised. */
  function WriteValue(e: Expression): Option<string>
    decreases e, 0
  {
    match e.kind
    case String => Some(Quote(e.text, true))
    case Integer => Some(Spelling(e.integer))
    case Bool => Some(if e.boolean then "true" else "false")
    case Reference => WriteReference(e.text)
    case Symbol => if IsBooleanSpelling(e.text) then None else WriteName(e.text)
    case Call =>
      var callee :- WriteName(e.text);
      var arguments :- WriteValues(e.operands);
      Some(callee + "(" + arguments + ")")
    case _ => None
  }

  function WriteValues(es: seq<Expression>): Option<string>
    decreases es, 0
  {
    if es == [] then Some("")
    else
      var first :- WriteValue(es[0]);
      var rest :- WriteValues(es[1..]);
      Some(if |es| == 1 then first else first + ", " + rest)
  }
}
