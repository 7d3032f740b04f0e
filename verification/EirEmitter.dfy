/** The writer as it runs: text appended to one output, and a refusal that latches. */
module EirEmitter {
  import opened Basics
  import opened Numerals
  import opened Expressions
  import opened EirCutting
  import opened EirWriter
  import EirScanner

  lemma Two(o: string, a: string, b: string)
    ensures o + a + b == o + (a + b)
  {}

  lemma Three(o: string, a: string, b: string, c: string)
    ensures o + a + b + c == o + (a + b + c)
  {}

  lemma Four(o: string, a: string, b: string, c: string, d: string)
    ensures o + a + b + c + d == o + (a + b + c + d)
  {}

  lemma Five(o: string, a: string, b: string, c: string, d: string, e: string)
    ensures o + a + b + c + d + e == o + (a + b + c + d + e)
  {}

  lemma Six(o: string, a: string, b: string, c: string, d: string, e: string, f: string)
    ensures o + a + b + c + d + e + f == o + (a + b + c + d + e + f)
  {}

  class Writer {
    var out: string
    var failed: bool

    constructor ()
      ensures out == "" && !failed
    {
      out, failed := "", false;
    }

    method Refuse()
      modifies this
      ensures failed && out == old(out)
    {
      failed := true;
    }

    method Raw(text: string)
      modifies this
      ensures failed == old(failed) && out == old(out) + if failed then "" else text
    {
      if !failed {
        out := out + text;
      }
    }

    method StringLiteral(text: string)
      modifies this
      ensures failed == old(failed) && out == old(out) + if failed then "" else Quote(text, true)
    {
      if failed {
        return;
      }
      var literal := "\"";
      for i := 0 to |text|
        invariant out == old(out) && !failed
        invariant literal + EscapeFrom(text, i, true) == "\"" + EscapeFrom(text, 0, true)
      {
        EscapeStep(text, i, true);
        Append3(literal, EscapeByte(text[i], true), EscapeFrom(text, i + 1, true));
        literal := literal + EscapeByte(text[i], true);
      }
      assert EscapeFrom(text, |text|, true) == "" && literal + "" == literal;
      out := out + (literal + "\"");
    }

    method Identifier(text: string)
      modifies this
      ensures old(failed) ==> failed && out == old(out)
      ensures !old(failed) ==> failed == WriteName(text).None?
      ensures !failed ==> out == old(out) + WriteName(text).value
    {
      if failed {
        return;
      }
      var ok := EirScanner.TestIdentifier(text);
      if !ok {
        Refuse();
        return;
      }
      out := out + text;
    }

    method Reference(text: string)
      modifies this
      ensures old(failed) ==> failed && out == old(out)
      ensures !old(failed) ==> failed == WriteReference(text).None?
      ensures !failed ==> out == old(out) + WriteReference(text).value
    {
      if failed {
        return;
      }
      var ok := EirScanner.TestIdentifier(text);
      if !ok {
        Refuse();
        return;
      }
      Two(out, "@", text);
      out := out + "@" + text;
    }

    /** A predicate, parenthesised when it binds more loosely than its position admits. */
    method Predicate(e: Expression, minPower: int)
      modifies this
      ensures old(failed) ==> failed && out == old(out)
      ensures !old(failed) ==> failed == WritePredicate(e, minPower).None?
      ensures !failed ==> out == old(out) + WritePredicate(e, minPower).value
      decreases e, 2
    {
      hide WriteBare;
      if failed {
        return;
      }
      if BindingPower(e.kind) < 0 {
        NoSpelling(e);
        Refuse();
        return;
      }
      ghost var before := out;
      var parenthesise := BindingPower(e.kind) < minPower;
      if parenthesise {
        Raw("(");
      }
      Bare(e);
      if parenthesise {
        Raw(")");
        if WriteBare(e).Some? {
          Three(before, "(", WriteBare(e).value, ")");
        }
      }
    }

    method Bare(e: Expression)
      modifies this
      ensures old(failed) ==> failed && out == old(out)
      ensures !old(failed) ==> failed == WriteBare(e).None?
      ensures !failed ==> out == old(out) + WriteBare(e).value
      decreases e, 1
    {
      match e.kind
      case Unspecified => Refuse();
      case Bool => Raw(if e.boolean then "true" else "false");
      case Integer => Raw(Spelling(e.integer));
      case String => StringLiteral(e.text);
      case Symbol =>
        if IsReservedPredicateName(e.text) {
          Refuse();
        } else {
          Identifier(e.text);
        }
      case Reference => this.Reference(e.text);
      case Call => PredicateCall(e);
      case Not => Negation(e);
      case Compare => Comparison(e);
      case And | Or => Connective(e);
      case Implies => Implication(e);
      case ForAll | Exists => Quantified(e);
    }

    method PredicateCall(e: Expression)
      requires e.kind == Call
      modifies this
      ensures old(failed) ==> failed && out == old(out)
      ensures !old(failed) ==> failed == WriteBare(e).None?
      ensures !failed ==> out == old(out) + WriteBare(e).value
      decreases e, 0
    {
      hide WriteList, WriteName, IsReservedCalleeName;
      if failed {
        return;
      }
      if IsReservedCalleeName(e.text) {
        Refuse();
        return;
      }
      ghost var before := out;
      Identifier(e.text);
      Raw("(");
      List(e.operands, 0, ", ");
      Raw(")");
      if !failed {
        Four(before, WriteName(e.text).value, "(", WriteList(e.operands, 0, ", ").value, ")");
      }
    }

    method Negation(e: Expression)
      requires e.kind == Not
      modifies this
      ensures old(failed) ==> failed && out == old(out)
      ensures !old(failed) ==> failed == WriteBare(e).None?
      ensures !failed ==> out == old(out) + WriteBare(e).value
      decreases e, 0
    {
      hide WritePredicate;
      if |e.operands| < 1 {
        Refuse();
        return;
      }
      ghost var before := out;
      Raw("not ");
      Predicate(e.operands[0], 50);
      if !failed {
        Two(before, "not ", WritePredicate(e.operands[0], 50).value);
      }
    }

    method Comparison(e: Expression)
      requires e.kind == Compare
      modifies this
      ensures old(failed) ==> failed && out == old(out)
      ensures !old(failed) ==> failed == WriteBare(e).None?
      ensures !failed ==> out == old(out) + WriteBare(e).value
      decreases e, 0
    {
      hide WritePredicate;
      if |e.operands| < 2 {
        Refuse();
        return;
      }
      ghost var before := out;
      Predicate(e.operands[0], 50);
      Raw(" ");
      Raw(e.text);
      Raw(" ");
      Predicate(e.operands[1], 50);
      if !failed {
        Five(before, WritePredicate(e.operands[0], 50).value, " ", e.text, " ",
             WritePredicate(e.operands[1], 50).value);
      }
    }

    method Connective(e: Expression)
      requires e.kind == And || e.kind == Or
      modifies this
      ensures old(failed) ==> failed && out == old(out)
      ensures !old(failed) ==> failed == WriteBare(e).None?
      ensures !failed ==> out == old(out) + WriteBare(e).value
      decreases e, 0
    {
      hide WriteList;
      if |e.operands| < 2 {
        Refuse();
        return;
      }
      List(e.operands, OperandPower(e.kind), ConnectiveSeparator(e.kind));
    }

    method Implication(e: Expression)
      requires e.kind == Implies
      modifies this
      ensures old(failed) ==> failed && out == old(out)
      ensures !old(failed) ==> failed == WriteBare(e).None?
      ensures !failed ==> out == old(out) + WriteBare(e).value
      decreases e, 0
    {
      hide WritePredicate;
      if |e.operands| < 2 {
        Refuse();
        return;
      }
      ghost var before := out;
      Predicate(e.operands[0], 20);
      Raw(" implies ");
      Predicate(e.operands[1], 10);
      if !failed {
        Three(before, WritePredicate(e.operands[0], 20).value, " implies ",
              WritePredicate(e.operands[1], 10).value);
      }
    }

    method Quantified(e: Expression)
      requires e.kind == ForAll || e.kind == Exists
      modifies this
      ensures old(failed) ==> failed && out == old(out)
      ensures !old(failed) ==> failed == WriteBare(e).None?
      ensures !failed ==> out == old(out) + WriteBare(e).value
      decreases e, 0
    {
      hide WritePredicate, WriteDomain, WriteName;
      if |e.operands| < 2 {
        Refuse();
        return;
      }
      ghost var before := out;
      var word := if e.kind == ForAll then "forall " else "exists ";
      Raw(word);
      Identifier(e.text);
      Raw(" in ");
      Domain(e.operands[0]);
      Raw(": ");
      Predicate(e.operands[1], 0);
      if !failed {
        Six(before, word, WriteName(e.text).value, " in ", WriteDomain(e.operands[0]).value, ": ",
            WritePredicate(e.operands[1], 0).value);
      }
    }

    method Domain(e: Expression)
      modifies this
      ensures old(failed) ==> failed && out == old(out)
      ensures !old(failed) ==> failed == WriteDomain(e).None?
      ensures !failed ==> out == old(out) + WriteDomain(e).value
      decreases e, 1
    {
      hide WriteValue;
      match e.kind
      case Reference => this.Reference(e.text);
      case Call => Value(e);
      case _ => Refuse();
    }

    /** Operands in one position, one after the other. */
    method List(es: seq<Expression>, minPower: int, separator: string)
      modifies this
      ensures old(failed) ==> failed && out == old(out)
      ensures !old(failed) ==> failed == WriteList(es, minPower, separator).None?
      ensures !failed ==> out == old(out) + WriteList(es, minPower, separator).value
      decreases es, 0
    {
      hide WritePredicate, WriteList, RestOfList;
      if failed {
        return;
      }
      ghost var whole := WriteList(es, minPower, separator);
      ListStart(es, minPower, separator);
      assert out + "" == out;
      ghost var before := out;
      for i := 0 to |es|
        invariant if failed then whole.None? else Owes(before, whole, out, RestOfList(es, i, minPower, separator))
      {
        ListStep(es, i, minPower, separator);
        ghost var sofar, lead, piece := out, if i == 0 then "" else separator, WritePredicate(es[i], minPower);
        if i != 0 {
          Raw(separator);
        } else {
          assert out + lead == out;
        }
        Predicate(es[i], minPower);
        if !failed {
          OwesLess(before, whole, sofar, lead, piece.value, RestOfList(es, i + 1, minPower, separator));
        }
      }
      ListEnd(es, minPower, separator);
      assert out + "" == out;
    }

    /** A property value: nothing here is ever parenthesised, and a compound has no spelling. */
    method Value(e: Expression)
      modifies this
      ensures old(failed) ==> failed && out == old(out)
      ensures !old(failed) ==> failed == WriteValue(e).None?
      ensures !failed ==> out == old(out) + WriteValue(e).value
      decreases e, 0
    {
      hide WriteName, WriteReference, WriteValues;
      if failed {
        return;
      }
      match e.kind
      case String => StringLiteral(e.text);
      case Integer => Raw(Spelling(e.integer));
      case Bool => Raw(if e.boolean then "true" else "false");
      case Reference => this.Reference(e.text);
      case Symbol =>
        if IsBooleanSpelling(e.text) {
          Refuse();
        } else {
          Identifier(e.text);
        }
      case Call =>
        ghost var before := out;
        Identifier(e.text);
        Raw("(");
        Values(e.operands);
        Raw(")");
        if !failed {
          Four(before, WriteName(e.text).value, "(", WriteValues(e.operands).value, ")");
        }
      case _ => Refuse();
    }

    method Values(es: seq<Expression>)
      modifies this
      ensures old(failed) ==> failed && out == old(out)
      ensures !old(failed) ==> failed == WriteValues(es).None?
      ensures !failed ==> out == old(out) + WriteValues(es).value
      decreases es, 0
    {
      hide WriteValue, WriteValues, RestOfValues;
      if failed {
        return;
      }
      ghost var whole := WriteValues(es);
      ValuesStart(es);
      assert out + "" == out;
      ghost var before := out;
      for i := 0 to |es|
        invariant if failed then whole.None? else Owes(before, whole, out, RestOfValues(es, i))
      {
        ValuesStep(es, i);
        ghost var sofar, lead, piece := out, if i == 0 then "" else ", ", WriteValue(es[i]);
        if i != 0 {
          Raw(", ");
        } else {
          assert out + lead == out;
        }
        Value(es[i]);
        if !failed {
          OwesLess(before, whole, sofar, lead, piece.value, RestOfValues(es, i + 1));
        }
      }
      ValuesEnd(es);
      assert out + "" == out;
    }
  }

  // ----- What a list still owes -----

  /** What has been written and what is left make up the whole, which fails when the rest does. */
  predicate Owes(before: string, whole: Option<string>, out: string, rest: Option<string>) {
    whole.None? == rest.None? && (rest.Some? ==> before + whole.value == out + rest.value)
  }

  lemma OwesLess(before: string, whole: Option<string>, out: string, lead: string, piece: string, rest: Option<string>)
    requires rest.None? ==> Owes(before, whole, out, None)
    requires rest.Some? ==> Owes(before, whole, out, Some(lead + piece + rest.value))
    ensures Owes(before, whole, out + lead + piece, rest)
  {
    if rest.Some? {
      Three(out, lead, piece, rest.value);
    }
  }

  /** What is left of a predicate list once `i` of its members are written. */
  function RestOfList(es: seq<Expression>, i: nat, minPower: int, separator: string): Option<string>
    requires i <= |es|
  {
    if i == 0 then WriteList(es, minPower, separator)
    else if i == |es| then Some("")
    else
      var rest :- WriteList(es[i..], minPower, separator);
      Some(separator + rest)
  }

  lemma ListStart(es: seq<Expression>, minPower: int, separator: string)
    ensures RestOfList(es, 0, minPower, separator) == WriteList(es, minPower, separator)
  {}

  lemma ListEnd(es: seq<Expression>, minPower: int, separator: string)
    ensures RestOfList(es, |es|, minPower, separator) == Some("")
  {}

  lemma ListStep(es: seq<Expression>, i: nat, minPower: int, separator: string)
    requires i < |es|
    ensures var lead := if i == 0 then "" else separator;
            var piece, rest := WritePredicate(es[i], minPower), RestOfList(es, i + 1, minPower, separator);
            RestOfList(es, i, minPower, separator) ==
            if piece.None? || rest.None? then None else Some(lead + piece.value + rest.value)
  {
    hide WritePredicate;
    var tail := es[i..];
    assert tail[0] == es[i] && tail[1..] == es[i + 1..] && (i == 0 ==> tail == es);
    var piece := WritePredicate(es[i], minPower);
    if piece.Some? {
      if |tail| == 1 {
        assert tail[1..] == [] && WriteList(tail[1..], minPower, separator) == Some("");
        assert piece.value + "" == piece.value && separator + piece.value + "" == separator + piece.value;
        assert "" + piece.value + "" == piece.value;
      } else {
        var rest := WriteList(tail[1..], minPower, separator);
        if rest.Some? {
          ListPieces(separator, piece.value, rest.value);
        }
      }
    }
  }

  lemma ListPieces(separator: string, piece: string, rest: string)
    ensures "" + piece + (separator + rest) == piece + separator + rest
    ensures separator + piece + (separator + rest) == separator + (piece + separator + rest)
  {}

  function RestOfValues(es: seq<Expression>, i: nat): Option<string>
    requires i <= |es|
  {
    if i == 0 then WriteValues(es)
    else if i == |es| then Some("")
    else
      var rest :- WriteValues(es[i..]);
      Some(", " + rest)
  }

  lemma ValuesStart(es: seq<Expression>)
    ensures RestOfValues(es, 0) == WriteValues(es)
  {}

  lemma ValuesEnd(es: seq<Expression>)
    ensures RestOfValues(es, |es|) == Some("")
  {}

  lemma ValuesStep(es: seq<Expression>, i: nat)
    requires i < |es|
    ensures var lead := if i == 0 then "" else ", ";
            var piece, rest := WriteValue(es[i]), RestOfValues(es, i + 1);
            RestOfValues(es, i) ==
            if piece.None? || rest.None? then None else Some(lead + piece.value + rest.value)
  {
    hide WriteValue;
    var tail := es[i..];
    assert tail[0] == es[i] && tail[1..] == es[i + 1..] && (i == 0 ==> tail == es);
    var piece := WriteValue(es[i]);
    if piece.Some? {
      if |tail| == 1 {
        assert tail[1..] == [] && WriteValues(tail[1..]) == Some("");
        assert piece.value + "" == piece.value && ", " + piece.value + "" == ", " + piece.value;
        assert "" + piece.value + "" == piece.value;
      } else {
        var rest := WriteValues(tail[1..]);
        if rest.Some? {
          ListPieces(", ", piece.value, rest.value);
        }
      }
    }
  }

  lemma NoSpelling(e: Expression)
    requires BindingPower(e.kind) < 0
    ensures WriteBare(e).None?
  {}
}
