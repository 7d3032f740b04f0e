/** The canonical bytes of an expression: equal exactly for reorderings of commutative operands. */
module Canonicalizer {
  import opened Basics
  import opened Orders
  import opened Expressions
  import opened CanonicalValue

  function KindName(kind: Kind): string {
    match kind
    case Unspecified => "unspecified"
    case Bool => "bool"
    case Integer => "integer"
    case String => "string"
    case Symbol => "symbol"
    case Reference => "reference"
    case Call => "call"
    case Not => "not"
    case Compare => "compare"
    case And => "and"
    case Or => "or"
    case Implies => "implies"
    case ForAll => "forall"
    case Exists => "exists"
  }

  /** Values ordered by their own encodings. */
  predicate EncodingLeq(v: Value, w: Value) {
    LexLeq(Encode(v), Encode(w))
  }

  function SortByEncoding(values: seq<Value>): seq<Value> {
    Sort(values, EncodingLeq)
  }

  /** The value tree of an expression; `and` and `or` order their operands, every other kind keeps them. */
  function Canonical(e: Expression): Value
    decreases e, 1
  {
    var operands := CanonicalAll(e.operands);
    Object([
      Field("boolean", Boolean(e.boolean)),
      Field("integer", Number(e.integer)),
      Field("kind", Text(KindName(e.kind))),
      Field("operands", Array(if IsConnective(e.kind) then SortByEncoding(operands) else operands)),
      Field("text", Text(e.text))])
  }

  function CanonicalAll(es: seq<Expression>): (r: seq<Value>)
    ensures |r| == |es|
    decreases es, 0
  {
    if es == [] then [] else [Canonical(es[0])] + CanonicalAll(es[1..])
  }

  function CanonicalBytes(e: Expression): string {
    Encode(Canonical(e))
  }

  /** Every text and operand list has a length that fits a `std::size_t`. */
  predicate SizedExpression(e: Expression) {
    |e.text| < TWO_64 && |e.operands| < TWO_64 && forall operand <- e.operands :: SizedExpression(operand)
  }

  // ----- Reordering -----

  /** `f` is `e` with the operands of `and` and `or` reordered, at any depth. */
  ghost predicate Reorders(e: Expression, f: Expression)
    decreases e
  {
    && e.kind == f.kind && e.text == f.text && e.integer == f.integer && e.boolean == f.boolean
    && |e.operands| == |f.operands|
    && if IsConnective(e.kind) then
         exists p: seq<nat> :: IsPermutation(p, |e.operands|) &&
           forall i :: 0 <= i < |e.operands| ==> Reorders(e.operands[i], f.operands[p[i]])
       else
         forall i :: 0 <= i < |e.operands| ==> Reorders(e.operands[i], f.operands[i])
  }

  // ----- Support -----

  lemma EncodingIsPreorder()
    ensures TotalPreorder(EncodingLeq)
  {
    hide Encode;
    forall x, y
      ensures EncodingLeq(x, y) || EncodingLeq(y, x)
    {
      LexTotal(Encode(x), Encode(y));
    }
    forall x, y, z | EncodingLeq(x, y) && EncodingLeq(y, z)
      ensures EncodingLeq(x, z)
    {
      LexTransitive(Encode(x), Encode(y), Encode(z));
    }
  }

  lemma EncodingSeparates(values: seq<Value>)
    requires forall v <- values :: Sized(v)
    ensures Antisymmetric(values, EncodingLeq)
  {
    hide Encode, Sized;
    forall x, y | x in values && y in values && EncodingLeq(x, y) && EncodingLeq(y, x)
      ensures x == y
    {
      LexAntisymmetric(Encode(x), Encode(y));
      EncodeInjective(x, y);
    }
  }

  lemma {:induction false} CanonicalAllAt(es: seq<Expression>, i: nat)
    requires i < |es|
    ensures CanonicalAll(es)[i] == Canonical(es[i])
  {
    hide Canonical;
    if i > 0 { CanonicalAllAt(es[1..], i - 1); }
  }

  lemma ShortKindName(kind: Kind)
    ensures |KindName(kind)| < TWO_64
  {}

  lemma FieldsSized(e: Expression, listed: seq<Value>)
    requires |e.text| < TWO_64 && |listed| < TWO_64 && forall v <- listed :: Sized(v)
    ensures Sized(Object([
              Field("boolean", Boolean(e.boolean)), Field("integer", Number(e.integer)),
              Field("kind", Text(KindName(e.kind))), Field("operands", Array(listed)), Field("text", Text(e.text))]))
  {
    hide KindName;
    ShortKindName(e.kind);
    assert Sized(Array(listed)) && Sized(Text(e.text)) && Sized(Text(KindName(e.kind)));
  }

  lemma {:induction false} CanonicalSized(e: Expression)
    requires SizedExpression(e)
    ensures Sized(Canonical(e))
    decreases e, 1
  {
    hide Sized, SortByEncoding, KindName, CanonicalAll;
    CanonicalAllSized(e.operands);
    var operands := CanonicalAll(e.operands);
    var listed := if IsConnective(e.kind) then SortByEncoding(operands) else operands;
    SortKeepsSized(operands);
    FieldsSized(e, listed);
  }

  lemma SortKeepsSized(values: seq<Value>)
    requires forall v <- values :: Sized(v)
    ensures |SortByEncoding(values)| == |values| && forall v <- SortByEncoding(values) :: Sized(v)
  {
    hide Sized, Encode;
    var sorted := SortByEncoding(values);
    SameElements(values, sorted);
    assert |multiset(values)| == |multiset(sorted)|;
    forall v | v in sorted ensures Sized(v) {
      assert v in multiset(sorted);
    }
  }

  lemma {:induction false} CanonicalAllSized(es: seq<Expression>)
    requires forall e <- es :: SizedExpression(e)
    ensures forall v <- CanonicalAll(es) :: Sized(v)
    decreases es, 0
  {
    hide Sized, Canonical;
    if es != [] {
      CanonicalSized(es[0]);
      CanonicalAllSized(es[1..]);
    }
  }

  lemma KindNamesDiffer(k: Kind, l: Kind)
    requires KindName(k) == KindName(l)
    ensures k == l
  {}

  // ----- Reordered expressions have the same canonical value -----

  lemma {:induction false} ReorderedIsCanonical(e: Expression, f: Expression)
    requires SizedExpression(e) && SizedExpression(f) && Reorders(e, f)
    ensures Canonical(e) == Canonical(f)
    decreases e
  {
    var a, b := CanonicalAll(e.operands), CanonicalAll(f.operands);
    if IsConnective(e.kind) {
      var p :| IsPermutation(p, |e.operands|) &&
        forall i :: 0 <= i < |e.operands| ==> Reorders(e.operands[i], f.operands[p[i]]);
      forall i | 0 <= i < |a|
        ensures a[i] == b[p[i]]
      {
        ReorderedIsCanonical(e.operands[i], f.operands[p[i]]);
        CanonicalAllAt(e.operands, i);
        CanonicalAllAt(f.operands, p[i]);
      }
      assert Rearranges(a, b, p);
      RearrangedMultiset(a, b, p);
      SortOfRearranged(a, b, e.operands);
    } else {
      forall i | 0 <= i < |a|
        ensures a[i] == b[i]
      {
        ReorderedIsCanonical(e.operands[i], f.operands[i]);
        CanonicalAllAt(e.operands, i);
        CanonicalAllAt(f.operands, i);
      }
      assert a == b;
    }
  }

  lemma SortOfRearranged(a: seq<Value>, b: seq<Value>, es: seq<Expression>)
    requires multiset(a) == multiset(b) && a == CanonicalAll(es) && forall e <- es :: SizedExpression(e)
    ensures SortByEncoding(a) == SortByEncoding(b)
  {
    hide Canonical, SizedExpression;
    CanonicalAllSized(es);
    SortDeterminedByElements(a, b);
  }

  /** Sorting by encoding forgets the order its input came in. */
  lemma SortDeterminedByElements(a: seq<Value>, b: seq<Value>)
    requires multiset(a) == multiset(b) && forall v <- a :: Sized(v)
    ensures SortByEncoding(a) == SortByEncoding(b)
  {
    hide Sized, EncodingLeq, Sort;
    EncodingIsPreorder();
    SortSorted(a, EncodingLeq);
    SortSorted(b, EncodingLeq);
    var s := SortByEncoding(a);
    SameElements(a, s);
    forall v | v in s
      ensures Sized(v)
    {
      assert v in multiset(a);
    }
    EncodingSeparates(s);
    SortedUnique(s, SortByEncoding(b), EncodingLeq);
  }

  // ----- Equal canonical values come from reordered expressions -----

  lemma {:induction false} CanonicalIsReordered(e: Expression, f: Expression)
    requires SizedExpression(e) && SizedExpression(f) && Canonical(e) == Canonical(f)
    ensures Reorders(e, f)
    decreases e
  {
    var a, b := CanonicalAll(e.operands), CanonicalAll(f.operands);
    SameFields(e, f);
    if IsConnective(e.kind) {
      assert multiset(a) == multiset(SortByEncoding(a)) == multiset(SortByEncoding(b)) == multiset(b);
      SameElements(a, b);
      var p := FindRearrangement(a, b);
      forall i | 0 <= i < |e.operands|
        ensures Reorders(e.operands[i], f.operands[p[i]])
      {
        CanonicalAllAt(e.operands, i);
        CanonicalAllAt(f.operands, p[i]);
        CanonicalIsReordered(e.operands[i], f.operands[p[i]]);
      }
    } else {
      forall i | 0 <= i < |e.operands|
        ensures Reorders(e.operands[i], f.operands[i])
      {
        CanonicalAllAt(e.operands, i);
        CanonicalAllAt(f.operands, i);
        CanonicalIsReordered(e.operands[i], f.operands[i]);
      }
    }
  }

  lemma SameFields(e: Expression, f: Expression)
    requires Canonical(e) == Canonical(f)
    ensures e.kind == f.kind && e.text == f.text && e.integer == f.integer && e.boolean == f.boolean
    ensures var a, b := CanonicalAll(e.operands), CanonicalAll(f.operands);
            if IsConnective(e.kind) then SortByEncoding(a) == SortByEncoding(b) else a == b
  {
    hide CanonicalAll, SortByEncoding, KindName;
    var x, y := Canonical(e).fields, Canonical(f).fields;
    assert x[0] == y[0] && x[1] == y[1] && x[2] == y[2] && x[3] == y[3] && x[4] == y[4];
    KindNamesDiffer(e.kind, f.kind);
  }

  /** Same bytes if and only if one expression is the other with commutative operands reordered. */
  lemma SameBytesExactlyWhenReordered(e: Expression, f: Expression)
    requires SizedExpression(e) && SizedExpression(f)
    ensures CanonicalBytes(e) == CanonicalBytes(f) <==> Reorders(e, f)
  {
    hide Canonical, Reorders, SizedExpression;
    CanonicalSized(e);
    CanonicalSized(f);
    if CanonicalBytes(e) == CanonicalBytes(f) {
      EncodeInjective(Canonical(e), Canonical(f));
      CanonicalIsReordered(e, f);
    }
    if Reorders(e, f) {
      ReorderedIsCanonical(e, f);
    }
  }

  // ----- Collections ordered by kind, identity, handle, then bytes -----

  datatype Keyed = Keyed(kind: string, stableId: string, localId: string, value: Value)

  predicate KeyedLess(a: Keyed, b: Keyed) {
    if a.kind != b.kind then LexLess(a.kind, b.kind)
    else if a.stableId != b.stableId then LexLess(a.stableId, b.stableId)
    else if a.localId != b.localId then LexLess(a.localId, b.localId)
    else LexLess(Encode(a.value), Encode(b.value))
  }

  predicate KeyedLeq(a: Keyed, b: Keyed) {
    !KeyedLess(b, a)
  }

  function Values(elements: seq<Keyed>): seq<Value> {
    seq(|elements|, i requires 0 <= i < |elements| => elements[i].value)
  }

  function SortedArray(elements: seq<Keyed>): Value {
    Array(Values(Sort(elements, KeyedLeq)))
  }

  /** For strings, "not after" is the order and its converse. */
  lemma LexNotLess(a: string, b: string)
    ensures !LexLess(b, a) <==> LexLeq(a, b)
  {
    LexTotal(a, b);
    if LexLeq(a, b) && LexLeq(b, a) {
      LexAntisymmetric(a, b);
    }
    LexReflexive(a);
  }

  lemma KeyedCompares(a: Keyed, b: Keyed)
    ensures KeyedLeq(a, b) <==>
            if a.kind != b.kind then LexLeq(a.kind, b.kind)
            else if a.stableId != b.stableId then LexLeq(a.stableId, b.stableId)
            else if a.localId != b.localId then LexLeq(a.localId, b.localId)
            else EncodingLeq(a.value, b.value)
  {
    hide LexLess, LexLeq, Encode;
    LexNotLess(a.kind, b.kind);
    LexNotLess(a.stableId, b.stableId);
    LexNotLess(a.localId, b.localId);
    LexNotLess(Encode(a.value), Encode(b.value));
  }

  lemma LexChain(a: string, b: string, c: string)
    requires LexLeq(a, b) && LexLeq(b, c)
    ensures LexLeq(a, c) && (a == c ==> a == b)
  {
    LexTransitive(a, b, c);
    if a == c { LexAntisymmetric(a, b); }
  }

  lemma KeyedTransitive(a: Keyed, b: Keyed, c: Keyed)
    requires KeyedLeq(a, b) && KeyedLeq(b, c)
    ensures KeyedLeq(a, c)
  {
    hide KeyedLeq, LexLeq, Encode;
    KeyedCompares(a, b);
    KeyedCompares(b, c);
    KeyedCompares(a, c);
    LexReflexive(a.kind);
    LexReflexive(b.kind);
    LexReflexive(a.stableId);
    LexReflexive(b.stableId);
    LexReflexive(a.localId);
    LexReflexive(b.localId);
    LexChain(a.kind, b.kind, c.kind);
    if a.kind == c.kind {
      LexChain(a.stableId, b.stableId, c.stableId);
      if a.stableId == c.stableId {
        LexChain(a.localId, b.localId, c.localId);
        if a.localId == c.localId {
          LexTransitive(Encode(a.value), Encode(b.value), Encode(c.value));
        }
      }
    }
  }

  lemma KeyedIsPreorder()
    ensures TotalPreorder(KeyedLeq)
  {
    hide KeyedLeq, LexLeq, Encode;
    forall a, b
      ensures KeyedLeq(a, b) || KeyedLeq(b, a)
    {
      KeyedCompares(a, b);
      KeyedCompares(b, a);
      LexTotal(a.kind, b.kind);
      LexTotal(a.stableId, b.stableId);
      LexTotal(a.localId, b.localId);
      LexTotal(Encode(a.value), Encode(b.value));
    }
    forall a, b, c | KeyedLeq(a, b) && KeyedLeq(b, c)
      ensures KeyedLeq(a, c)
    {
      KeyedTransitive(a, b, c);
    }
  }

  /** A collection's array does not depend on the order its members were added in. */
  lemma SortedArrayForgetsOrder(a: seq<Keyed>, b: seq<Keyed>)
    requires multiset(a) == multiset(b) && forall element <- a :: Sized(element.value)
    ensures SortedArray(a) == SortedArray(b)
  {
    hide Sized, KeyedLeq, Sort, Encode, LexLeq;
    KeyedIsPreorder();
    SortSorted(a, KeyedLeq);
    SortSorted(b, KeyedLeq);
    var s := Sort(a, KeyedLeq);
    forall x, y | x in s && y in s && KeyedLeq(x, y) && KeyedLeq(y, x)
      ensures x == y
    {
      assert x in multiset(a) && y in multiset(a);
      KeyedCompares(x, y);
      KeyedCompares(y, x);
      SameKeyed(x, y);
    }
    SortedUnique(s, Sort(b, KeyedLeq), KeyedLeq);
  }

  lemma SameKeyed(x: Keyed, y: Keyed)
    requires Sized(x.value) && Sized(y.value) && KeyedLeq(x, y) && KeyedLeq(y, x)
    ensures x == y
  {
    hide Sized, KeyedLeq, LexLeq, Encode;
    KeyedCompares(x, y);
    KeyedCompares(y, x);
    if x.kind != y.kind { LexAntisymmetric(x.kind, y.kind); }
    if x.stableId != y.stableId { LexAntisymmetric(x.stableId, y.stableId); }
    if x.localId != y.localId { LexAntisymmetric(x.localId, y.localId); }
    LexAntisymmetric(Encode(x.value), Encode(y.value));
    EncodeInjective(x.value, y.value);
  }
}
