/** Reading canonical values back as expressions: their fields and names against tables of the reader's own. */
module CanonicalReader {
  import opened Basics
  import opened Orders
  import opened Expressions
  import opened CanonicalValue
  import opened Canonicalizer

  /** The kind a name stands for. */
  function KindNamed(name: string): Option<Kind> {
    if name == "unspecified" then Some(Unspecified)
    else if name == "bool" then Some(Bool)
    else if name == "integer" then Some(Integer)
    else if name == "string" then Some(String)
    else if name == "symbol" then Some(Symbol)
    else if name == "reference" then Some(Reference)
    else if name == "call" then Some(Call)
    else if name == "not" then Some(Not)
    else if name == "compare" then Some(Compare)
    else if name == "and" then Some(And)
    else if name == "or" then Some(Or)
    else if name == "implies" then Some(Implies)
    else if name == "forall" then Some(ForAll)
    else if name == "exists" then Some(Exists)
    else None
  }

  /** Five fields, in the order of their keys. */
  predicate HasFields(v: Value) {
    && v.Object? && |v.fields| == 5
    && v.fields[0].key == "boolean" && v.fields[0].value.Boolean?
    && v.fields[1].key == "integer" && v.fields[1].value.Number?
    && v.fields[2].key == "kind" && v.fields[2].value.Text?
    && v.fields[3].key == "operands" && v.fields[3].value.Array?
    && v.fields[4].key == "text" && v.fields[4].value.Text?
  }

  function ReadExpression(v: Value): Option<Expression>
    decreases v, 1
  {
    if !HasFields(v) then None
    else
      var kind :- KindNamed(v.fields[2].value.text);
      var operands :- ReadAll(v.fields[3].value.items);
      Some(Expression(kind, v.fields[4].value.text, v.fields[1].value.number, v.fields[0].value.flag, operands))
  }

  function ReadAll(vs: seq<Value>): Option<seq<Expression>>
    decreases vs, 0
  {
    if vs == [] then Some([])
    else
      var first :- ReadExpression(vs[0]);
      var others :- ReadAll(vs[1..]);
      Some([first] + others)
  }

  /** Byte for byte, each operand of a connective comes no later than the next, at every depth. */
  predicate OperandsAscend(v: Value)
    requires ReadExpression(v).Some?
    decreases v
  {
    var items := v.fields[3].value.items;
    && (ReadExpression(v).value.kind in {And, Or} ==>
          forall i, j | 0 <= i < j < |items| :: LexLeq(Encode(items[i]), Encode(items[j])))
    && forall item <- items :: ReadExpression(item).Some? && OperandsAscend(item)
  }

  lemma KindNameReads(kind: Kind)
    ensures KindNamed(KindName(kind)) == Some(kind)
  {}

  lemma KindNameSpelled(name: string)
    requires KindNamed(name).Some?
    ensures KindName(KindNamed(name).value) == name
  {}

  lemma {:induction false} ReadAllAt(vs: seq<Value>, i: nat)
    requires ReadAll(vs).Some? && i < |vs|
    ensures |ReadAll(vs).value| == |vs| && ReadExpression(vs[i]) == Some(ReadAll(vs).value[i])
    decreases |vs|
  {
    hide ReadExpression;
    if i > 0 {
      ReadAllAt(vs[1..], i - 1);
    } else if |vs| > 1 {
      ReadAllAt(vs[1..], 0);
    }
  }

  lemma {:induction false} AllRead(vs: seq<Value>, es: seq<Expression>)
    requires |vs| == |es| && forall i | 0 <= i < |vs| :: ReadExpression(vs[i]) == Some(es[i])
    ensures ReadAll(vs) == Some(es)
    decreases |vs|
  {
    hide ReadExpression;
    if vs != [] {
      AllRead(vs[1..], es[1..]);
      assert es == [es[0]] + es[1..];
    }
  }

  lemma CanonicalFields(e: Expression)
    ensures HasFields(Canonical(e))
    ensures var items := CanonicalAll(e.operands);
            Canonical(e).fields[3].value.items == if IsConnective(e.kind) then SortByEncoding(items) else items
    ensures Canonical(e).fields[0].value == Boolean(e.boolean) && Canonical(e).fields[1].value == Number(e.integer)
    ensures Canonical(e).fields[2].value == Text(KindName(e.kind)) && Canonical(e).fields[4].value == Text(e.text)
  {
    hide CanonicalAll, SortByEncoding, KindName;
  }

  /** Each operand's canonical value reads as a reordering of it, and is in order. */
  ghost predicate ReadsBack(e: Expression) {
    var back := ReadExpression(Canonical(e));
    back.Some? && Reorders(e, back.value) && OperandsAscend(Canonical(e))
  }

  /** What the operands' values are listed as: all of them, and in order below a connective. */
  lemma Listed(e: Expression)
    ensures var items := Canonical(e).fields[3].value.items;
            && multiset(items) == multiset(CanonicalAll(e.operands))
            && (!IsConnective(e.kind) ==> items == CanonicalAll(e.operands))
            && (IsConnective(e.kind) ==> SortedBy(items, EncodingLeq))
  {
    hide Canonical, EncodingLeq, CanonicalAll, Sort;
    CanonicalFields(e);
    EncodingIsPreorder();
    SortSorted(CanonicalAll(e.operands), EncodingLeq);
  }

  /** Which operand each listed value comes from. */
  lemma ListedFrom(e: Expression, items: seq<Value>) returns (p: seq<nat>)
    requires multiset(items) == multiset(CanonicalAll(e.operands))
    ensures |items| == |e.operands| && IsPermutation(p, |items|)
    ensures forall i | 0 <= i < |items| :: items[p[i]] == Canonical(e.operands[i])
    ensures forall item <- items :: exists operand <- e.operands :: item == Canonical(operand)
  {
    hide Canonical;
    var all := CanonicalAll(e.operands);
    SameElements(items, all);
    p := FindRearrangement(all, items);
    assert |multiset(items)| == |multiset(all)|;
    forall i | 0 <= i < |all| ensures all[i] == Canonical(e.operands[i]) {
      CanonicalAllAt(e.operands, i);
    }
    forall item <- items ensures exists operand <- e.operands :: item == Canonical(operand) {
      var i :| 0 <= i < |all| && all[i] == item;
      assert e.operands[i] in e.operands;
    }
  }

  lemma ReorderedConnective(e: Expression, f: Expression, p: seq<nat>)
    requires e.kind == f.kind && e.text == f.text && e.integer == f.integer && e.boolean == f.boolean
    requires |f.operands| == |e.operands| && IsPermutation(p, |e.operands|) && IsConnective(e.kind)
    requires forall i :: 0 <= i < |e.operands| ==> Reorders(e.operands[i], f.operands[p[i]])
    ensures Reorders(e, f)
  {}

  lemma ReorderedInPlace(e: Expression, f: Expression)
    requires e.kind == f.kind && e.text == f.text && e.integer == f.integer && e.boolean == f.boolean
    requires |f.operands| == |e.operands| && !IsConnective(e.kind)
    requires forall i :: 0 <= i < |e.operands| ==> Reorders(e.operands[i], f.operands[i])
    ensures Reorders(e, f)
  {}

  lemma InOrder(v: Value)
    requires ReadExpression(v).Some?
    requires var items := v.fields[3].value.items;
             && (forall item <- items :: ReadExpression(item).Some? && OperandsAscend(item))
             && (IsConnective(ReadExpression(v).value.kind) ==> SortedBy(items, EncodingLeq))
    ensures OperandsAscend(v)
  {
    hide Encode, ReadExpression;
  }

  /** What an object with the right fields reads as. */
  lemma ReadsAs(v: Value, kind: Kind, operands: seq<Expression>)
    requires HasFields(v) && KindNamed(v.fields[2].value.text) == Some(kind)
    requires ReadAll(v.fields[3].value.items) == Some(operands)
    ensures ReadExpression(v) == Some(Expression(kind, v.fields[4].value.text, v.fields[1].value.number,
                                                 v.fields[0].value.flag, operands))
  {
    hide KindNamed, ReadAll;
  }

  /** The canonical value of every expression reads as a reordering of it, with the operands of connectives in order. */
  lemma {:induction false} CanonicalReads(e: Expression)
    ensures ReadsBack(e)
    decreases e
  {
    hide Canonical, Reorders, Encode, KindName, KindNamed, OperandsAscend, ReadExpression, ReadAll;
    CanonicalFields(e);
    KindNameReads(e.kind);
    Listed(e);
    var v := Canonical(e);
    var items := v.fields[3].value.items;
    var p := ListedFrom(e, items);
    forall operand <- e.operands ensures ReadsBack(operand) {
      CanonicalReads(operand);
    }
    assert forall item <- items :: ReadExpression(item).Some? && OperandsAscend(item);
    var read := seq(|items|, i requires 0 <= i < |items| => assert items[i] in items; ReadExpression(items[i]).value);
    AllRead(items, read);
    ReadsAs(v, e.kind, read);
    ReadReorders(e, ReadExpression(v).value, items, p);
    InOrder(v);
  }

  lemma ReadReorders(e: Expression, f: Expression, items: seq<Value>, p: seq<nat>)
    requires e.kind == f.kind && e.text == f.text && e.integer == f.integer && e.boolean == f.boolean
    requires |items| == |f.operands| == |e.operands| && IsPermutation(p, |items|)
    requires forall i | 0 <= i < |items| :: ReadExpression(items[i]) == Some(f.operands[i])
    requires forall i | 0 <= i < |items| :: items[p[i]] == Canonical(e.operands[i])
    requires !IsConnective(e.kind) ==> items == CanonicalAll(e.operands)
    requires forall operand <- e.operands :: ReadsBack(operand)
    ensures Reorders(e, f)
  {
    hide Canonical, Reorders, ReadExpression, OperandsAscend;
    if IsConnective(e.kind) {
      forall i | 0 <= i < |items| ensures Reorders(e.operands[i], f.operands[p[i]]) {
        assert ReadsBack(e.operands[i]);
      }
      ReorderedConnective(e, f, p);
    } else {
      forall i | 0 <= i < |items| ensures Reorders(e.operands[i], f.operands[i]) {
        CanonicalAllAt(e.operands, i);
        assert ReadsBack(e.operands[i]);
      }
      ReorderedInPlace(e, f);
    }
  }

  /** Whatever reads as an expression and is in order is the canonical value of that expression. */
  lemma {:induction false} ReadWasCanonical(v: Value)
    requires ReadExpression(v).Some? && OperandsAscend(v)
    ensures Canonical(ReadExpression(v).value) == v
    decreases v
  {
    hide Encode, KindName, KindNamed, Sort;
    var f, items := ReadExpression(v).value, v.fields[3].value.items;
    KindNameSpelled(v.fields[2].value.text);
    var all := CanonicalAll(f.operands);
    assert |all| == |items| by {
      if items != [] {
        ReadAllAt(items, 0);
      }
    }
    forall i | 0 <= i < |items| ensures all[i] == items[i] {
      ReadAllAt(items, i);
      assert items[i] in items;
      ReadWasCanonical(items[i]);
      CanonicalAllAt(f.operands, i);
    }
    assert all == items;
    if IsConnective(f.kind) {
      assert SortedBy(items, EncodingLeq);
      SortedStays(items, EncodingLeq);
    }
    CanonicalFields(f);
    SameObject(v, Canonical(f));
  }

  lemma SameObject(v: Value, w: Value)
    requires HasFields(v) && HasFields(w) && forall i | 0 <= i < 5 :: v.fields[i].value == w.fields[i].value
    ensures v == w
  {
    assert forall i | 0 <= i < 5 :: v.fields[i] == w.fields[i];
    assert v.fields == w.fields;
  }
}
