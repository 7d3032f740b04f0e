/** Where the writer puts parentheses, as a table of what stands under what. */
module EirParens {
  import opened Basics
  import opened Expressions
  import opened EirWriter

  predicate IsQuantification(kind: Kind) {
    kind == ForAll || kind == Exists
  }

  /** An operand of kind `child` stands in parentheses as operand `i` under `parent`. */
  predicate InParens(parent: Kind, i: nat, child: Kind) {
    match parent
    case Not | Compare => child in {Compare, And, Or, Implies} || IsQuantification(child)
    case And => child in {And, Or, Implies} || IsQuantification(child)
    case Or => child in {Or, Implies} || IsQuantification(child)
    case Implies => (i == 0 && child == Implies) || IsQuantification(child)
    case _ => false
  }

  /** The spelling of an operand where it stands. */
  function Placed(parent: Kind, i: nat, e: Expression): Option<string> {
    var text :- WriteBare(e);
    Some(if InParens(parent, i, e.kind) then "(" + text + ")" else text)
  }

  /** All operands, each where it stands, with a separator between each two. */
  function PlacedAll(parent: Kind, es: seq<Expression>, separator: string): Option<string> {
    if es == [] then Some("")
    else if |es| == 1 then Placed(parent, 0, es[0])
    else
      var start :- PlacedAll(parent, es[..|es| - 1], separator);
      var last :- Placed(parent, |es| - 1, es[|es| - 1]);
      Some(start + separator + last)
  }

  lemma PlacedBy(parent: Kind, i: nat, e: Expression, power: int)
    requires WriteBare(e).Some? ==> (InParens(parent, i, e.kind) <==> BindingPower(e.kind) < power)
    ensures WritePredicate(e, power) == Placed(parent, i, e)
  {
    hide WriteBare;
  }

  lemma Speakable(e: Expression)
    ensures WriteBare(e).Some? ==> e.kind != Unspecified
  {}

  lemma {:induction false} ListFromEnd(es: seq<Expression>, power: int, separator: string)
    requires |es| > 1
    ensures var start, last := WriteList(es[..|es| - 1], power, separator), WritePredicate(es[|es| - 1], power);
            WriteList(es, power, separator)
            == if start.None? || last.None? then None else Some(start.value + separator + last.value)
    decreases |es|
  {
    hide WritePredicate;
    var rest := es[1..];
    if |es| == 2 {
      assert es[..1] == [es[0]] && rest == [es[1]];
      assert WriteList([es[0]][1..], power, separator) == Some("");
      assert WriteList([es[1]][1..], power, separator) == Some("");
    } else {
      ListFromEnd(rest, power, separator);
      assert rest[..|rest| - 1] == es[..|es| - 1][1..];
      Regrouped(WritePredicate(es[0], power), WriteList(rest[..|rest| - 1], power, separator), separator,
                WritePredicate(es[|es| - 1], power));
    }
  }

  lemma Regrouped(first: Option<string>, middle: Option<string>, separator: string, last: Option<string>)
    ensures first.Some? && middle.Some? && last.Some? ==>
              first.value + separator + (middle.value + separator + last.value)
              == (first.value + separator + middle.value) + separator + last.value
  {}

  lemma {:induction false} ListPlaced(parent: Kind, es: seq<Expression>, power: int, separator: string)
    requires forall i: nat, e <- es | WriteBare(e).Some? ::
               InParens(parent, i, e.kind) <==> BindingPower(e.kind) < power
    ensures WriteList(es, power, separator) == PlacedAll(parent, es, separator)
    decreases |es|
  {
    hide WritePredicate, Placed;
    if |es| == 1 {
      PlacedBy(parent, 0, es[0], power);
      assert WriteList(es[1..], power, separator) == Some("");
    } else if |es| > 1 {
      ListFromEnd(es, power, separator);
      ListPlaced(parent, es[..|es| - 1], power, separator);
      PlacedBy(parent, |es| - 1, es[|es| - 1], power);
    }
  }

  function Prefixed(word: string, operand: Option<string>): Option<string> {
    var text :- operand;
    Some(word + text)
  }

  function Between(left: Option<string>, word: string, right: Option<string>): Option<string> {
    var l :- left;
    var r :- right;
    Some(l + word + r)
  }

  /** A negation puts comparisons, chains, implications and quantifications in parentheses, and nothing else. */
  lemma NegationPlaced(e: Expression)
    requires e.kind == Not && |e.operands| == 1
    ensures WriteBare(e) == Prefixed("not ", Placed(Not, 0, e.operands[0]))
  {
    hide WritePredicate, Placed;
    Speakable(e.operands[0]);
    PlacedBy(Not, 0, e.operands[0], 50);
  }

  lemma ComparisonPlaced(e: Expression)
    requires e.kind == Compare && |e.operands| == 2
    ensures WriteBare(e) ==
            Between(Placed(Compare, 0, e.operands[0]), " " + e.text + " ", Placed(Compare, 1, e.operands[1]))
  {
    hide WritePredicate, Placed;
    Speakable(e.operands[0]);
    Speakable(e.operands[1]);
    PlacedBy(Compare, 0, e.operands[0], 50);
    PlacedBy(Compare, 1, e.operands[1], 50);
    Spaced(WritePredicate(e.operands[0], 50), e.text, WritePredicate(e.operands[1], 50));
  }

  lemma Spaced(left: Option<string>, text: string, right: Option<string>)
    ensures left.Some? && right.Some? ==>
              left.value + " " + text + " " + right.value == left.value + (" " + text + " ") + right.value
  {}

  /** Only another implication on the left, and quantifications, stand in parentheses: implications nest rightwards. */
  lemma ImplicationPlaced(e: Expression)
    requires e.kind == Implies && |e.operands| == 2
    ensures WriteBare(e) ==
            Between(Placed(Implies, 0, e.operands[0]), " implies ", Placed(Implies, 1, e.operands[1]))
  {
    hide WritePredicate, Placed;
    Speakable(e.operands[0]);
    Speakable(e.operands[1]);
    PlacedBy(Implies, 0, e.operands[0], 20);
    PlacedBy(Implies, 1, e.operands[1], 10);
  }

  /** A chain puts what binds no tighter than it in parentheses, a chain of its own kind included. */
  lemma ChainPlaced(e: Expression)
    requires IsConnective(e.kind) && |e.operands| >= 2
    ensures WriteBare(e) == PlacedAll(e.kind, e.operands, if e.kind == And then " and " else " or ")
  {
    hide WritePredicate, Placed, WriteList, PlacedAll;
    forall operand <- e.operands {
      Speakable(operand);
    }
    ListPlaced(e.kind, e.operands, OperandPower(e.kind), ConnectiveSeparator(e.kind));
  }

  /** Arguments of a call and the body of a quantification never stand in parentheses of their own. */
  lemma ArgumentsPlaced(e: Expression)
    requires e.kind == Call && WriteBare(e).Some?
    ensures PlacedAll(Call, e.operands, ", ").Some?
            && WriteBare(e) == Some(e.text + "(" + PlacedAll(Call, e.operands, ", ").value + ")")
  {
    hide WritePredicate, Placed, WriteList, PlacedAll;
    forall operand <- e.operands {
      Speakable(operand);
    }
    ListPlaced(Call, e.operands, 0, ", ");
  }
}
