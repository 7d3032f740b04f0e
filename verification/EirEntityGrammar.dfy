/** The grammar of an entity declaration, which the entity parser reads exactly. */
module EirEntityGrammar {
  import opened Basics
  import opened Orders
  import opened EirLexer
  import opened EirParser
  import opened EirGrammar
  import opened EirGrammarExact
  import opened EirEntity

  // ----- The grammar -----

  predicate Names(token: Token, text: string) {
    token.kind == Identifier && token.text == text
  }

  /** A key, `=`, a value and a semicolon. */
  ghost predicate IsProperty(ts: seq<Token>, p: Property) {
    && |ts| >= 4 && Names(ts[0], p.key) && ts[1].kind == Equal && ts[|ts| - 1].kind == Semicolon
    && IsValue(ts[2..|ts| - 1], p.value)
  }

  /** Properties one after the other, in the order they are written. */
  ghost predicate AreProperties(ts: seq<Token>, written: seq<Property>) {
    if written == [] then ts == []
    else exists c | 0 < c <= |ts| :: IsProperty(ts[..c], written[0]) && AreProperties(ts[c..], written[1..])
  }

  predicate IsIdentity(ts: seq<Token>, text: string) {
    |ts| == 4 && Names(ts[0], "stable_id") && ts[1].kind == Equal && ts[2].kind == StringLiteral && ts[2].text == text
    && ts[3].kind == Semicolon
  }

  predicate DistinctKeys(written: seq<Property>) {
    forall i, j | 0 <= i < j < |written| :: written[i].key != written[j].key
  }

  /** The bag holds what is written, in ascending order of key. */
  ghost predicate IsBagOf(properties: seq<Property>, written: seq<Property>) {
    AscendingKeys(properties) && multiset(properties) == multiset(written)
  }

  /** An identity may come first, and nothing else that comes first may look like one. */
  ghost predicate IsBody(words: Vocabulary, ts: seq<Token>, identity: Option<string>, written: seq<Property>) {
    match identity
    case Some(text) =>
      |ts| >= 4 && IsIdentity(ts[..4], text) && words.isStableId(text) && AreProperties(ts[4..], written)
    case None => AreProperties(ts, written) && (written == [] || written[0].key != "stable_id")
  }

  ghost predicate IsEntity(words: Vocabulary, ts: seq<Token>, e: Entity) {
    && |ts| >= 6 && Names(ts[0], "entity") && Names(ts[1], e.id) && ts[2].kind == Colon && Names(ts[3], e.kind)
    && e.kind in words.kinds && ts[4].kind == LeftBrace && ts[|ts| - 1].kind == RightBrace
    && exists written ::
         && IsBody(words, ts[5..|ts| - 1], e.identity, written)
         && DistinctKeys(written) && IsBagOf(e.properties, written)
  }

  // ----- The bag -----

  function Bag(properties: seq<Property>, written: seq<Property>): seq<Property>
    decreases |written|
  {
    if written == [] then properties else Bag(InBag(properties, written[0]), written[1..])
  }

  /** No key of the one list is in the other. */
  predicate Apart(properties: seq<Property>, written: seq<Property>) {
    forall p <- written :: !HasKey(properties, p.key)
  }

  lemma {:induction false} InBagHolds(properties: seq<Property>, p: Property)
    ensures multiset(InBag(properties, p)) == multiset(properties) + multiset{p}
    ensures AscendingKeys(properties) && !HasKey(properties, p.key) ==> AscendingKeys(InBag(properties, p))
    decreases |properties|
  {
    hide LexLeq, AscendingKeys;
    if properties != [] && !LexLess(p.key, properties[0].key) {
      var first, rest := properties[0], properties[1..];
      assert properties == [first] + rest;
      InBagHolds(rest, p);
      if AscendingKeys(properties) && !HasKey(properties, p.key) {
        LexTotal(p.key, first.key);
        assert first in properties;
        AscendsOver(properties);
        forall x <- InBag(rest, p) ensures LexLess(first.key, x.key) {
          assert x in multiset(InBag(rest, p));
        }
        AscendsFrom(first, InBag(rest, p));
      }
    } else if AscendingKeys(properties) {
      if properties != [] {
        AscendsOver(properties);
        forall x <- properties ensures LexLess(p.key, x.key) {
          if x != properties[0] {
            assert properties == [properties[0]] + properties[1..];
            LessLessEqual(p.key, properties[0].key, x.key);
          }
        }
      }
      AscendsFrom(p, properties);
    }
  }

  lemma AscendsOver(properties: seq<Property>)
    requires properties != [] && AscendingKeys(properties)
    ensures AscendingKeys(properties[1..]) && forall x <- properties[1..] :: LexLess(properties[0].key, x.key)
  {
    forall x <- properties[1..] ensures LexLess(properties[0].key, x.key) {
      var k :| 0 < k < |properties| && properties[k] == x;
    }
  }

  lemma AscendsFrom(first: Property, rest: seq<Property>)
    requires AscendingKeys(rest) && forall x <- rest :: LexLess(first.key, x.key)
    ensures AscendingKeys([first] + rest)
  {}

  lemma {:induction false} BagHolds(properties: seq<Property>, written: seq<Property>)
    requires AscendingKeys(properties) && DistinctKeys(written) && Apart(properties, written)
    ensures AscendingKeys(Bag(properties, written))
    ensures multiset(Bag(properties, written)) == multiset(properties) + multiset(written)
    decreases |written|
  {
    hide AscendingKeys;
    if written != [] {
      assert written == [written[0]] + written[1..];
      assert written[0] in written;
      InBagHolds(properties, written[0]);
      StaysApart(properties, written);
      BagHolds(InBag(properties, written[0]), written[1..]);
    }
  }

  lemma StaysApart(properties: seq<Property>, written: seq<Property>)
    requires written != [] && DistinctKeys(written) && Apart(properties, written)
    ensures DistinctKeys(written[1..]) && Apart(InBag(properties, written[0]), written[1..])
  {
    InBagHolds(properties, written[0]);
    var more := InBag(properties, written[0]);
    forall p <- written[1..] ensures !HasKey(more, p.key) {
      var k :| 0 < k < |written| && written[k] == p;
      assert p in written && written[0].key != p.key;
      forall q <- more ensures q.key != p.key {
        assert q in multiset(more);
      }
    }
  }

  /** One bag for one set of properties. */
  lemma BagUnique(a: seq<Property>, b: seq<Property>)
    requires AscendingKeys(a) && AscendingKeys(b) && multiset(a) == multiset(b)
    ensures a == b
  {
    hide LexLeq;
    var leq := (x: Property, y: Property) => LexLeq(x.key, y.key);
    forall x: Property, y: Property ensures leq(x, y) || leq(y, x) {
      LexTotal(x.key, y.key);
    }
    forall x: Property, y: Property, z: Property | leq(x, y) && leq(y, z) ensures leq(x, z) {
      LexTransitive(x.key, y.key, z.key);
    }
    forall x <- a, y <- a | leq(x, y) && leq(y, x) ensures x == y {
      LexAntisymmetric(x.key, y.key);
    }
    SortedUnique(a, b, leq);
  }

  // ----- Properties -----

  /** A property is read where it stands, unless its key is taken or it stands for the identity. */
  lemma PropertyParses(words: Vocabulary, ts: seq<Token>, p: nat, q: nat, first: bool, e: Entity, next: Property)
    requires p <= q < |ts| && Closed(ts) && IsProperty(ts[p..q], next)
    requires !HasKey(e.properties, next.key) && (first ==> next.key != "stable_id")
    ensures p < q && ts[p].kind != RightBrace
    ensures ParseAttribute(words, ts, p, first, e) == Some((e.(properties := InBag(e.properties, next)), q))
  {
    hide IsValue, ParseValue, InBag;
    Begins(ts, p, q);
    Inside(ts, p, q, 2, 1);
    ValueParses(ts, p + 2, q - 1, next.value);
  }

  lemma PropertyDerived(words: Vocabulary, ts: seq<Token>, p: nat, first: bool, e: Entity) returns (next: Property)
    requires p < |ts| && Closed(ts) && ParseAttribute(words, ts, p, first, e).Some?
    requires !(first && ts[p].text == "stable_id")
    ensures var (after, q) := ParseAttribute(words, ts, p, first, e).value;
            && p < q < |ts| && IsProperty(ts[p..q], next) && !HasKey(e.properties, next.key)
            && next.key == ts[p].text && after == e.(properties := InBag(e.properties, next))
  {
    hide IsValue, ParseValue, InBag;
    var (value, c) := ParseValue(ts, p + 2).value;
    next := Property(ts[p].text, value);
    var q := c + 1;
    ValueDerived(ts, p + 2);
    Begins(ts, p, q);
    Inside(ts, p, q, 2, 1);
  }

  lemma IdentityRead(words: Vocabulary, ts: seq<Token>, p: nat, e: Entity)
    requires p < |ts| && Closed(ts) && Names(ts[p], "stable_id")
    ensures ParseAttribute(words, ts, p, true, e).Some?
            <==> p + 4 < |ts| && IsIdentity(ts[p..p + 4], ts[p + 2].text) && words.isStableId(ts[p + 2].text)
    ensures ParseAttribute(words, ts, p, true, e).Some? ==>
              ParseAttribute(words, ts, p, true, e).value == (e.(identity := Some(ts[p + 2].text)), p + 4)
  {
    if p + 4 < |ts| {
      Begins(ts, p, p + 4);
    }
  }

  // ----- Bodies -----

  /** Reading on from an entity, with no identity to come. */
  lemma {:induction false} RestParses(words: Vocabulary, ts: seq<Token>, p: nat, q: nat, first: bool, e: Entity,
                                      written: seq<Property>)
    requires p <= q < |ts| && Closed(ts) && AreProperties(ts[p..q], written) && ts[q].kind == RightBrace
    requires DistinctKeys(written) && Apart(e.properties, written)
    requires first ==> written == [] || written[0].key != "stable_id"
    ensures ParseBody(words, ts, p, first, e) == Some((e.(properties := Bag(e.properties, written)), q + 1))
    decreases |written|
  {
    hide ParseAttribute, IsProperty, InBag;
    if written == [] {
      assert ts[p..q] == [];
    } else {
      var g := ts[p..q];
      var k :| 0 < k <= |g| && IsProperty(g[..k], written[0]) && AreProperties(g[k..], written[1..]);
      var c := p + k;
      assert g[..k] == ts[p..c] && g[k..] == ts[c..q];
      assert written[0] in written;
      PropertyParses(words, ts, p, c, first, e, written[0]);
      StaysApart(e.properties, written);
      var more := e.(properties := InBag(e.properties, written[0]));
      RestParses(words, ts, c, q, false, more, written[1..]);
    }
  }

  lemma {:induction false} RestDerived(words: Vocabulary, ts: seq<Token>, p: nat, first: bool, e: Entity)
    returns (written: seq<Property>)
    requires p < |ts| && Closed(ts) && ParseBody(words, ts, p, first, e).Some?
    requires !(first && Names(ts[p], "stable_id"))
    ensures var (after, q) := ParseBody(words, ts, p, first, e).value;
            && p < q <= |ts| && ts[q - 1].kind == RightBrace && AreProperties(ts[p..q - 1], written)
            && DistinctKeys(written) && Apart(e.properties, written)
            && (first ==> written == [] || written[0].key != "stable_id")
            && after == e.(properties := Bag(e.properties, written))
    decreases |ts| - p
  {
    hide ParseAttribute, IsProperty, InBag;
    var (after, q) := ParseBody(words, ts, p, first, e).value;
    if ts[p].kind == RightBrace {
      written := [];
      assert ts[p..p] == [];
    } else {
      KeyRead(words, ts, p, first, e);
      var next := PropertyDerived(words, ts, p, first, e);
      var (more, c) := ParseAttribute(words, ts, p, first, e).value;
      var rest := RestDerived(words, ts, c, false, more);
      written := [next] + rest;
      MoreWritten(e.properties, next, rest);
      var g := ts[p..q - 1];
      var k := c - p;
      assert g[..k] == ts[p..c] && g[k..] == ts[c..q - 1] && written[1..] == rest;
      assert IsProperty(g[..k], written[0]) && AreProperties(g[k..], written[1..]);
    }
  }

  lemma KeyRead(words: Vocabulary, ts: seq<Token>, p: nat, first: bool, e: Entity)
    requires p < |ts| && Closed(ts) && ParseAttribute(words, ts, p, first, e).Some?
    ensures ts[p].kind == Identifier
  {}

  lemma MoreWritten(properties: seq<Property>, next: Property, rest: seq<Property>)
    requires !HasKey(properties, next.key) && DistinctKeys(rest) && Apart(InBag(properties, next), rest)
    ensures DistinctKeys([next] + rest) && Apart(properties, [next] + rest)
  {
    InBagHolds(properties, next);
    var more := InBag(properties, next);
    forall q <- properties ensures q in more {
      assert q in multiset(more);
    }
    assert next in multiset(more);
    forall p <- rest ensures p.key != next.key && !HasKey(properties, p.key) {
      assert !HasKey(more, p.key);
    }
  }

  // ----- Entities -----

  /** The parser reads an entity exactly if the grammar derives it from the tokens consumed. */
  lemma EntityExactly(words: Vocabulary, ts: seq<Token>, p: nat, q: nat, e: Entity)
    requires p <= q <= |ts| && p < |ts| && Closed(ts)
    ensures ParseEntity(words, ts, p) == Some((e, q)) <==> q < |ts| && IsEntity(words, ts[p..q], e)
  {
    hide ParseEntity, IsEntity;
    if q < |ts| && IsEntity(words, ts[p..q], e) {
      EntityParses(words, ts, p, q, e);
    }
    if ParseEntity(words, ts, p) == Some((e, q)) {
      EntityDerived(words, ts, p, q, e);
    }
  }

  lemma EntityParses(words: Vocabulary, ts: seq<Token>, p: nat, q: nat, e: Entity)
    requires p <= q < |ts| && Closed(ts) && IsEntity(words, ts[p..q], e)
    ensures ParseEntity(words, ts, p) == Some((e, q))
  {
    hide IsBody, ParseBody, AscendingKeys;
    var g := ts[p..q];
    Begins(ts, p, q);
    var written :| IsBody(words, g[5..|g| - 1], e.identity, written) && DistinctKeys(written)
                   && IsBagOf(e.properties, written);
    Inside(ts, p, q, 5, 1);
    BodyParses(words, ts, p + 5, q - 1, Entity(e.id, e.kind, None, []), e, written);
  }

  lemma BodyParses(words: Vocabulary, ts: seq<Token>, p: nat, q: nat, start: Entity, e: Entity, written: seq<Property>)
    requires p <= q < |ts| && Closed(ts) && ts[q].kind == RightBrace
    requires start == Entity(e.id, e.kind, None, [])
    requires IsBody(words, ts[p..q], e.identity, written) && DistinctKeys(written) && IsBagOf(e.properties, written)
    ensures ParseBody(words, ts, p, true, start) == Some((e, q + 1))
  {
    hide ParseAttribute, AreProperties, InBag;
    BagHolds([], written);
    BagUnique(Bag([], written), e.properties);
    if e.identity.Some? {
      var g := ts[p..q];
      Begins(ts, p, q);
      assert g[..4] == ts[p..p + 4] && g[4..] == ts[p + 4..q];
      Begins(ts, p, p + 4);
      IdentityRead(words, ts, p, start);
      RestParses(words, ts, p + 4, q, false, start.(identity := e.identity), written);
    } else {
      RestParses(words, ts, p, q, true, start, written);
    }
  }

  lemma EntityDerived(words: Vocabulary, ts: seq<Token>, p: nat, q: nat, e: Entity)
    requires p < q <= |ts| && Closed(ts) && ParseEntity(words, ts, p) == Some((e, q))
    ensures q < |ts| && IsEntity(words, ts[p..q], e)
  {
    hide IsBody, ParseBody, AscendingKeys;
    var start := Entity(ts[p + 1].text, ts[p + 3].text, None, []);
    var written := BodyDerived(words, ts, p + 5, start);
    Begins(ts, p, q);
    Inside(ts, p, q, 5, 1);
  }

  lemma BodyDerived(words: Vocabulary, ts: seq<Token>, p: nat, start: Entity) returns (written: seq<Property>)
    requires p < |ts| && Closed(ts) && start.identity == None && start.properties == []
    requires ParseBody(words, ts, p, true, start).Some?
    ensures var (e, q) := ParseBody(words, ts, p, true, start).value;
            && p < q < |ts| && ts[q - 1].kind == RightBrace && e.id == start.id && e.kind == start.kind
            && IsBody(words, ts[p..q - 1], e.identity, written) && DistinctKeys(written)
            && IsBagOf(e.properties, written)
  {
    hide ParseAttribute, AreProperties, InBag, IsIdentity, AscendingKeys, ParseBody, Bag;
    if Names(ts[p], "stable_id") {
      var text := IdentityFirst(words, ts, p, start);
      var identified := start.(identity := Some(text));
      written := RestDerived(words, ts, p + 4, false, identified);
      var q := ParseBody(words, ts, p, true, start).value.1;
      var g := ts[p..q - 1];
      assert g[..4] == ts[p..p + 4] && g[4..] == ts[p + 4..q - 1];
    } else {
      written := RestDerived(words, ts, p, true, start);
    }
    NoneYet(written);
    BagHolds([], written);
  }

  lemma NoneYet(written: seq<Property>)
    ensures AscendingKeys([]) && Apart([], written)
  {}

  /** A body that begins with the name of the identity has one, and goes on behind it. */
  lemma IdentityFirst(words: Vocabulary, ts: seq<Token>, p: nat, start: Entity) returns (text: string)
    requires p < |ts| && Closed(ts) && Names(ts[p], "stable_id") && ParseBody(words, ts, p, true, start).Some?
    ensures p + 4 < |ts| && IsIdentity(ts[p..p + 4], text) && words.isStableId(text)
    ensures ParseBody(words, ts, p, true, start) ==
            ParseBody(words, ts, p + 4, false, start.(identity := Some(text)))
  {
    hide ParseAttribute, IsIdentity;
    IdentityRead(words, ts, p, start);
    text := ts[p + 2].text;
  }
}
