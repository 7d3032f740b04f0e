/** The predicate and value expressions of an evidence case, and what its validator asks of their shape. */
module Expressions {
  import opened Basics

  datatype Kind =
    | Unspecified
    | Bool | Integer | String | Symbol | Reference | Call
    | Not | Compare | And | Or | Implies | ForAll | Exists

  /** One node. Every kind owns all five fields; the shape rules say which of them are active. */
  datatype Expression = Expression(
    kind: Kind,
    text: string,
    integer: int64,
    boolean: bool,
    operands: seq<Expression>)

  function Make(kind: Kind, text: string, operands: seq<Expression>): Expression {
    Expression(kind, text, 0, false, operands)
  }

  predicate IsConnective(kind: Kind) {
    kind == And || kind == Or
  }

  function ConnectiveWord(kind: Kind): string
    requires IsConnective(kind)
  {
    if kind == And then "and" else "or"
  }

  predicate IsQuantifier(kind: Kind) {
    kind == ForAll || kind == Exists
  }

  predicate IsComparisonOperator(t: string) {
    t == "==" || t == "!=" || t == "<" || t == "<=" || t == ">" || t == ">="
  }

  predicate TextIsActive(kind: Kind) {
    kind in {String, Symbol, Reference, Call, Compare, ForAll, Exists}
  }

  /** Arity, operator and payload rules for one node. */
  predicate ShapedNode(e: Expression) {
    && (e.kind != Bool ==> !e.boolean)
    && (e.kind != Integer ==> e.integer == 0)
    && (!TextIsActive(e.kind) ==> e.text == "")
    && match e.kind
       case Unspecified => false
       case Bool | Integer | String | Symbol | Reference => e.operands == []
       case Call => e.text != ""
       case Not => |e.operands| == 1
       case Compare => IsComparisonOperator(e.text) && |e.operands| == 2
       case And | Or => |e.operands| >= 2
       case Implies => |e.operands| == 2
       case ForAll | Exists => e.text != "" && |e.operands| == 2
  }

  /** The validator's shape rules at every node, without its flatness rule. */
  predicate Shaped(e: Expression) {
    ShapedNode(e) && forall operand <- e.operands :: Shaped(operand)
  }

  /** No connective stands directly under a connective of its own kind. */
  predicate Flat(e: Expression) {
    && (IsConnective(e.kind) ==> forall operand <- e.operands :: operand.kind != e.kind)
    && forall operand <- e.operands :: Flat(operand)
  }
}
