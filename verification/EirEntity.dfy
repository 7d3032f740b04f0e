/** Entity declarations: an identity bound by position beside an open bag of properties. */
module EirEntity {
  import opened Basics
  import opened Expressions
  import opened EirLexer
  import opened EirCutting
  import opened EirWriter
  import opened EirTokens
  import opened EirParser
  import opened EirRoundTrip
  import opened Orders
  import Utf8

  datatype Property = Property(key: string, value: Expression)

  /** The bag is an ordered map, listed here by ascending key. */
  datatype Entity = Entity(id: string, kind: string, identity: Option<string>, properties: seq<Property>)

  /** The words an entity kind is spelled with, and the texts that are stable ids. */
  datatype Vocabulary = Vocabulary(kinds: set<string>, isStableId: string -> bool)

  predicate IsVocabulary(words: Vocabulary) {
    forall kind <- words.kinds :: IsIdentifier(kind)
  }

  predicate AscendingKeys(properties: seq<Property>) {
    forall i, j | 0 <= i < j < |properties| :: LexLess(properties[i].key, properties[j].key)
  }

  predicate HasKey(properties: seq<Property>, key: string) {
    exists p <- properties :: p.key == key
  }

  // ----- Writing -----

  const OUTER := "    "
  const INNER := "        "
  const STABLE_ID := "stable_id"

  function PropertyLine(p: Property): Option<string> {
    var key :- WriteName(p.key);
    var value :- WriteValue(p.value);
    Some(INNER + (key + (" = " + (value + ";\n"))))
  }

  function PropertyLines(properties: seq<Property>): Option<string> {
    if properties == [] then Some("")
    else
      var first :- PropertyLine(properties[0]);
      var rest :- PropertyLines(properties[1..]);
      Some(first + rest)
  }

  function IdentityLine(identity: Option<string>): string {
    if identity.None? then ""
    else INNER + (STABLE_ID + (" = " + (Quote(identity.value, true) + ";\n")))
  }

  /** An unidentified entity may not carry a property named like an identity. */
  function WriteEntity(words: Vocabulary, e: Entity): Option<string> {
    if e.identity.None? && HasKey(e.properties, STABLE_ID) then None else SpellEntity(words, e)
  }

  /** The declaration itself, whatever its properties are named. */
  function SpellEntity(words: Vocabulary, e: Entity): Option<string> {
    var id :- WriteName(e.id);
    if e.kind !in words.kinds then None
    else
      var lines :- PropertyLines(e.properties);
      Some(OUTER + ("entity " + (id + (" : " + (e.kind + (" {\n" +
        (IdentityLine(e.identity) + (lines + "    }\n"))))))))
  }

  // ----- Reading -----

  /** Puts a property in its place in the bag. */
  function InBag(properties: seq<Property>, p: Property): seq<Property> {
    if properties == [] || LexLess(p.key, properties[0].key) then [p] + properties
    else [properties[0]] + InBag(properties[1..], p)
  }

  /** One attribute of a body; only the very first can be the identity. */
  function ParseAttribute(words: Vocabulary, ts: seq<Token>, p: nat, first: bool, e: Entity): (r: Parsed<Entity>)
    requires p < |ts| && Closed(ts)
    ensures Advances(r, ts, p)
  {
    var (key, q) :- TakeIdentifier(ts, p);
    var isIdentity := first && key == STABLE_ID;
    if !isIdentity && HasKey(e.properties, key) then None
    else
      var v :- Expect(ts, q, Equal);
      if isIdentity then
        if ts[v].kind != StringLiteral || !words.isStableId(ts[v].text) then None
        else
          var next :- Expect(ts, v + 1, Semicolon);
          Some((e.(identity := Some(ts[v].text)), next))
      else
        var (value, c) :- ParseValue(ts, v);
        var next :- Expect(ts, c, Semicolon);
        Some((e.(properties := InBag(e.properties, Property(key, value))), next))
  }

  function ParseBody(words: Vocabulary, ts: seq<Token>, p: nat, first: bool, e: Entity): (r: Parsed<Entity>)
    requires p < |ts| && Closed(ts)
    ensures Advances(r, ts, p)
    decreases |ts| - p
  {
    if ts[p].kind == RightBrace then Some((e, p + 1))
    else
      var (entity, next) :- ParseAttribute(words, ts, p, first, e);
      ParseBody(words, ts, next, false, entity)
  }

  function ParseEntity(words: Vocabulary, ts: seq<Token>, p: nat): (r: Parsed<Entity>)
    requires p < |ts| && Closed(ts)
    ensures Advances(r, ts, p)
  {
    if !IsKeyword(ts[p], "entity") then None
    else
      var (id, c) :- TakeIdentifier(ts, p + 1);
      var k :- Expect(ts, c, Colon);
      var (kind, b) :- TakeIdentifier(ts, k);
      if kind !in words.kinds then None
      else
        var body :- Expect(ts, b, LeftBrace);
        ParseBody(words, ts, body, true, Entity(id, kind, None, []))
  }

  /** Reads one entity declaration that takes up the whole text. */
  function ReadEntity(words: Vocabulary, text: string): Option<Entity> {
    var ts :- Lex(text);
    var (e, p) :- ParseEntity(words, ts, 0);
    if ts[p].kind == End then Some(e) else None
  }

  // ----- Tokens -----

  const EQUAL := Token(Equal, "=")
  const SEMICOLON := Token(Semicolon, ";")
  const OPEN_BRACE := Token(LeftBrace, "{")
  const CLOSE_BRACE := Token(RightBrace, "}")

  function PropertyTokens(p: Property): seq<Token> {
    [Word(p.key)] + ([EQUAL] + (ValueTokens(p.value) + [SEMICOLON]))
  }

  function PropertiesTokens(properties: seq<Property>): seq<Token> {
    if properties == [] then [] else PropertyTokens(properties[0]) + PropertiesTokens(properties[1..])
  }

  function IdentityTokens(identity: Option<string>): seq<Token> {
    if identity.None? then []
    else [Word(STABLE_ID)] + ([EQUAL] + ([Token(StringLiteral, identity.value)] + [SEMICOLON]))
  }

  function EntityTokens(e: Entity): seq<Token> {
    [Word("entity")] + ([Word(e.id)] + ([COLON] + ([Word(e.kind)] + ([OPEN_BRACE]
    + (IdentityTokens(e.identity) + (PropertiesTokens(e.properties) + [CLOSE_BRACE]))))))
  }

  // ----- Lexing -----

  lemma {:induction false} CutsBlanks(s: string, i: nat, blanks: string)
    requires Occurs(s, i, blanks) && forall c <- blanks :: IsBlank(c)
    ensures Cuts(s, i, i + |blanks|, [])
    decreases |blanks|
  {
    hide Cuts;
    if blanks == [] {
      CutsNothing(s, i);
    } else {
      OccursAt(s, i, blanks, 0);
      assert blanks == blanks[..1] + blanks[1..];
      OccursSplit(s, i, blanks[..1], blanks[1..]);
      CutsBlank(s, i);
      CutsBlanks(s, i + 1, blanks[1..]);
      CutsThen(s, i, i + 1, i + |blanks|, [], []);
    }
  }

  lemma CutsEqual(s: string, i: nat)
    requires Occurs(s, i, " = ")
    ensures Cuts(s, i, i + 3, [EQUAL]) && Boundary(s, i)
  {
    hide Cuts;
    OccursAt(s, i, " = ", 0);
    OccursAt(s, i, " = ", 1);
    OccursAt(s, i, " = ", 2);
    CutsBlank(s, i);
    assert s[i + 1..i + 2] == "=";
    CutsToken(s, i + 1, EQUAL, i + 2);
    CutsBlank(s, i + 2);
    CutsThen(s, i, i + 1, i + 2, [], [EQUAL]);
    CutsThen(s, i, i + 2, i + 3, [] + [EQUAL], []);
    assert [] + [EQUAL] + [] == [EQUAL];
  }

  /** A mark followed by a line break. */
  lemma CutsMarkLine(s: string, i: nat, mark: string)
    requires |mark| == 1 && Punctuation(mark[0]).Some? && Occurs(s, i, mark + "\n")
    ensures Cuts(s, i, i + 2, [Token(Punctuation(mark[0]).value, mark)]) && Boundary(s, i)
  {
    hide Cuts;
    OccursSplit(s, i, mark, "\n");
    OccursAt(s, i, mark, 0);
    OccursAt(s, i + 1, "\n", 0);
    CutsMark(s, i, mark);
    CutsBlank(s, i + 1);
    CutsThen(s, i, i + 1, i + 2, [Token(Punctuation(mark[0]).value, mark)], []);
    assert [Token(Punctuation(mark[0]).value, mark)] + [] == [Token(Punctuation(mark[0]).value, mark)];
  }

  /** `key = `, after its indentation. */
  lemma CutsKey(s: string, i: nat, key: string)
    requires IsIdentifier(key) && Occurs(s, i, INNER + (key + " = "))
    ensures Cuts(s, i, i + 8 + |key| + 3, [Word(key)] + [EQUAL])
  {
    hide Cuts, IsIdentifier;
    OccursSplit(s, i, INNER, key + " = ");
    OccursSplit(s, i + 8, key, " = ");
    CutsBlanks(s, i, INNER);
    CutsEqual(s, i + 8 + |key|);
    CutsIdentifier(s, i + 8, key);
    CutsThen(s, i, i + 8, i + 8 + |key|, [], [Word(key)]);
    assert [] + [Word(key)] == [Word(key)];
    CutsThen(s, i, i + 8 + |key|, i + 8 + |key| + 3, [Word(key)], [EQUAL]);
  }

  lemma KeyParts(s: string, i: nat, key: string, value: string)
    requires Occurs(s, i, INNER + (key + (" = " + (value + ";\n"))))
    ensures Occurs(s, i, INNER + (key + " = "))
    ensures Occurs(s, i + 8 + |key| + 3, value + ";\n")
  {
    assert INNER + (key + (" = " + (value + ";\n"))) == (INNER + (key + " = ")) + (value + ";\n");
    OccursSplit(s, i, INNER + (key + " = "), value + ";\n");
  }

  lemma PropertyCuts(p: Property, s: string, i: nat)
    requires PropertyLine(p).Some? && Readable(p.value) && Occurs(s, i, PropertyLine(p).value)
    ensures Cuts(s, i, i + |PropertyLine(p).value|, PropertyTokens(p))
  {
    hide Cuts, IsIdentifier, WriteValue, ValueTokens, Readable, Boundary;
    var value := WriteValue(p.value).value;
    KeyParts(s, i, p.key, value);
    CutsKey(s, i, p.key);
    var v := i + 8 + |p.key| + 3;
    OccursSplit(s, v, value, ";\n");
    assert ";" + "\n" == ";\n";
    CutsMarkLine(s, v + |value|, ";");
    ValueCuts(p.value, s, v);
    CutsThen(s, v, v + |value|, v + |value| + 2, ValueTokens(p.value), [SEMICOLON]);
    CutsThen(s, i, v, v + |value| + 2, [Word(p.key)] + [EQUAL], ValueTokens(p.value) + [SEMICOLON]);
    Append3([Word(p.key)], [EQUAL], ValueTokens(p.value) + [SEMICOLON]);
  }

  lemma {:induction false} PropertiesCut(properties: seq<Property>, s: string, i: nat)
    requires PropertyLines(properties).Some? && Occurs(s, i, PropertyLines(properties).value)
    requires forall p <- properties :: Readable(p.value)
    ensures Cuts(s, i, i + |PropertyLines(properties).value|, PropertiesTokens(properties))
    decreases |properties|
  {
    hide Cuts, PropertyLine, PropertyTokens, Readable;
    if properties == [] {
      CutsNothing(s, i);
    } else {
      var first, rest := PropertyLine(properties[0]).value, PropertyLines(properties[1..]).value;
      OccursSplit(s, i, first, rest);
      PropertyCuts(properties[0], s, i);
      PropertiesCut(properties[1..], s, i + |first|);
      CutsThen(s, i, i + |first|, i + |first| + |rest|, PropertyTokens(properties[0]),
               PropertiesTokens(properties[1..]));
    }
  }

  lemma {:induction false} WholeSegment(t: string, k: nat)
    requires k <= |t| && forall c <- t :: IsWordChar(c)
    ensures SegmentEnd(t, k) == |t|
    decreases |t| - k
  {
    if k < |t| {
      assert t[k] in t;
      WholeSegment(t, k + 1);
    }
  }

  lemma StableIdIsName()
    ensures IsIdentifier(STABLE_ID) && IsIdentifier("entity")
  {
    WholeSegment(STABLE_ID, 0);
    WordIsIdentifier("entity");
  }

  lemma IdentityCuts(identity: Option<string>, s: string, i: nat)
    requires Occurs(s, i, IdentityLine(identity)) && (identity.Some? ==> Utf8.WellFormed(identity.value))
    ensures Cuts(s, i, i + |IdentityLine(identity)|, IdentityTokens(identity))
  {
    hide Cuts, IsIdentifier, Quote, Utf8.WellFormed;
    if identity.None? {
      CutsNothing(s, i);
    } else {
      hide Occurs, Boundary;
      var text, key := Quote(identity.value, true), STABLE_ID;
      StableIdIsName();
      KeyParts(s, i, key, text);
      CutsKey(s, i, key);
      var v := i + 8 + |key| + 3;
      OccursSplit(s, v, text, ";\n");
      assert ";" + "\n" == ";\n";
      CutsString(s, v, identity.value, true);
      CutsMarkLine(s, v + |text|, ";");
      var token := Token(StringLiteral, identity.value);
      CutsThen(s, v, v + |text|, v + |text| + 2, [token], [SEMICOLON]);
      CutsThen(s, i, v, v + |text| + 2, [Word(key)] + [EQUAL], [token] + [SEMICOLON]);
      Append3([Word(key)], [EQUAL], [token] + [SEMICOLON]);
    }
  }

  /** The heading up to and including its brace. */
  lemma HeadCuts(words: Vocabulary, e: Entity, s: string, i: nat)
    requires IsVocabulary(words) && IsIdentifier(e.id) && e.kind in words.kinds
    requires Occurs(s, i, OUTER + ("entity " + (e.id + (" : " + (e.kind + " {\n")))))
    ensures Cuts(s, i, i + 4 + 7 + |e.id| + 3 + |e.kind| + 3,
                 [Word("entity")] + ([Word(e.id)] + ([COLON] + ([Word(e.kind)] + [OPEN_BRACE]))))
  {
    hide Cuts, IsIdentifier, Occurs, Boundary;
    StableIdIsName();
    OccursSplit(s, i, OUTER, "entity " + (e.id + (" : " + (e.kind + " {\n"))));
    var a := i + 4;
    OccursSplit(s, a, "entity ", e.id + (" : " + (e.kind + " {\n")));
    var b := a + 7;
    OccursSplit(s, b, e.id, " : " + (e.kind + " {\n"));
    var c := b + |e.id|;
    OccursSplit(s, c, " : ", e.kind + " {\n");
    var d := c + 3;
    OccursSplit(s, d, e.kind, " {\n");
    var f := d + |e.kind|;
    CutsBlanks(s, i, OUTER);
    assert "entity" + " " == "entity ";
    CutsKeyword(s, a, "entity");
    CutsSpacedColon(s, c);
    CutsBraceLine(s, f);
    CutsIdentifier(s, b, e.id);
    CutsIdentifier(s, d, e.kind);
    CutsThen(s, d, f, f + 3, [Word(e.kind)], [OPEN_BRACE]);
    CutsThen(s, c, d, f + 3, [COLON], [Word(e.kind)] + [OPEN_BRACE]);
    CutsThen(s, b, c, f + 3, [Word(e.id)], [COLON] + ([Word(e.kind)] + [OPEN_BRACE]));
    var rest := [Word(e.id)] + ([COLON] + ([Word(e.kind)] + [OPEN_BRACE]));
    CutsThen(s, a, b, f + 3, [Word("entity")], rest);
    CutsThen(s, i, a, f + 3, [], [Word("entity")] + rest);
    assert [] + ([Word("entity")] + rest) == [Word("entity")] + rest;
  }

  lemma CutsSpacedColon(s: string, i: nat)
    requires Occurs(s, i, " : ")
    ensures Cuts(s, i, i + 3, [COLON]) && Boundary(s, i)
  {
    hide Cuts;
    assert " : " == " " + (":" + " ");
    OccursSplit(s, i, " ", ":" + " ");
    OccursSplit(s, i + 1, ":", " ");
    OccursAt(s, i + 1, ":", 0);
    CutsSpace(s, i);
    CutsMark(s, i + 1, ":");
    CutsSpace(s, i + 2);
    CutsThen(s, i, i + 1, i + 2, [], [COLON]);
    CutsThen(s, i, i + 2, i + 3, [] + [COLON], []);
    assert [] + [COLON] + [] == [COLON];
  }

  lemma CutsBraceLine(s: string, i: nat)
    requires Occurs(s, i, " {\n")
    ensures Cuts(s, i, i + 3, [OPEN_BRACE]) && Boundary(s, i)
  {
    hide Cuts;
    assert " {\n" == " " + ("{" + "\n");
    OccursSplit(s, i, " ", "{" + "\n");
    CutsSpace(s, i);
    CutsMarkLine(s, i + 1, "{");
    CutsThen(s, i, i + 1, i + 3, [], [OPEN_BRACE]);
    assert [] + [OPEN_BRACE] == [OPEN_BRACE];
  }

  lemma CutsClose(s: string, i: nat)
    requires Occurs(s, i, "    }\n")
    ensures Cuts(s, i, i + 6, [CLOSE_BRACE])
  {
    hide Cuts;
    assert "    }\n" == OUTER + ("}" + "\n");
    OccursSplit(s, i, OUTER, "}" + "\n");
    CutsBlanks(s, i, OUTER);
    CutsMarkLine(s, i + 4, "}");
    CutsThen(s, i, i + 4, i + 6, [], [CLOSE_BRACE]);
    assert [] + [CLOSE_BRACE] == [CLOSE_BRACE];
  }

  /** An entity as the model holds it: an ordered bag, shape-valid values, and a stable id for an identity. */
  predicate WellShaped(words: Vocabulary, e: Entity) {
    && AscendingKeys(e.properties) && (forall p <- e.properties :: Shaped(p.value))
    && (e.identity.Some? ==> words.isStableId(e.identity.value))
  }

  /** Every text the entity carries in quotes is well-formed UTF-8. */
  predicate ReadableEntity(e: Entity) {
    && (forall p <- e.properties :: Readable(p.value))
    && (e.identity.Some? ==> Utf8.WellFormed(e.identity.value))
  }

  /** Without an identity of its own, it would begin with a property named like one. */
  predicate LeadsWithStableId(e: Entity) {
    e.identity.None? && e.properties != [] && e.properties[0].key == STABLE_ID
  }

  lemma EntityLexes(words: Vocabulary, e: Entity)
    requires IsVocabulary(words) && ReadableEntity(e) && SpellEntity(words, e).Some?
    ensures Lex(SpellEntity(words, e).value) == Some(EntityTokens(e) + [END_TOKEN])
  {
    hide Cuts, IsIdentifier, PropertyLines, IdentityLine, Readable, IdentityTokens, PropertiesTokens;
    var s, lines := SpellEntity(words, e).value, PropertyLines(e.properties).value;
    var head := OUTER + ("entity " + (e.id + (" : " + (e.kind + " {\n"))));
    EntityParts(e, lines, head);
    OccursWhole(s);
    OccursSplit(s, 0, head, IdentityLine(e.identity) + (lines + "    }\n"));
    HeadCuts(words, e, s, 0);
    BodyCuts(e, s, |head|, lines);
    var body := IdentityTokens(e.identity) + (PropertiesTokens(e.properties) + [CLOSE_BRACE]);
    var top := [Word("entity")] + ([Word(e.id)] + ([COLON] + ([Word(e.kind)] + [OPEN_BRACE])));
    CutsThen(s, 0, |head|, |s|, top, body);
    assert top + body == EntityTokens(e);
    WholeText(s, EntityTokens(e));
  }

  lemma BodyCuts(e: Entity, s: string, a: nat, lines: string)
    requires ReadableEntity(e) && PropertyLines(e.properties) == Some(lines)
    requires Occurs(s, a, IdentityLine(e.identity) + (lines + "    }\n"))
    ensures var end := a + |IdentityLine(e.identity)| + |lines| + 6;
            && end <= |s|
            && Cuts(s, a, end, IdentityTokens(e.identity) + (PropertiesTokens(e.properties) + [CLOSE_BRACE]))
  {
    hide Cuts, PropertyLines, IdentityLine, Readable, IdentityTokens, PropertiesTokens;
    var b := a + |IdentityLine(e.identity)|;
    var c := b + |lines|;
    OccursSplit(s, a, IdentityLine(e.identity), lines + "    }\n");
    OccursSplit(s, b, lines, "    }\n");
    IdentityCuts(e.identity, s, a);
    PropertiesCut(e.properties, s, b);
    CutsClose(s, c);
    CutsThen(s, b, c, c + 6, PropertiesTokens(e.properties), [CLOSE_BRACE]);
    CutsThen(s, a, b, c + 6, IdentityTokens(e.identity), PropertiesTokens(e.properties) + [CLOSE_BRACE]);
  }

  lemma EntityParts(e: Entity, lines: string, head: string)
    requires head == OUTER + ("entity " + (e.id + (" : " + (e.kind + " {\n"))))
    ensures OUTER + ("entity " + (e.id + (" : " + (e.kind + (" {\n" +
              (IdentityLine(e.identity) + (lines + "    }\n")))))))
         == head + (IdentityLine(e.identity) + (lines + "    }\n"))
    ensures |head| == 4 + 7 + |e.id| + 3 + |e.kind| + 3
  {
    hide IdentityLine;
  }

  // ----- Parsing -----

  /** A key above every other goes to the end. */
  lemma {:induction false} InBagLast(properties: seq<Property>, p: Property)
    requires forall q <- properties :: LexLess(q.key, p.key)
    ensures InBag(properties, p) == properties + [p]
    decreases |properties|
  {
    hide LexLeq;
    if properties != [] {
      assert properties[0] in properties;
      if LexLess(p.key, properties[0].key) {
        LexAntisymmetric(p.key, properties[0].key);
      }
      InBagLast(properties[1..], p);
      assert properties == [properties[0]] + properties[1..];
    }
  }

  lemma Below(done: seq<Property>, p: Property, rest: seq<Property>)
    requires AscendingKeys(done + ([p] + rest))
    ensures (forall q <- done :: LexLess(q.key, p.key)) && !HasKey(done, p.key)
    ensures AscendingKeys((done + [p]) + rest)
  {
    hide LexLeq;
    var all := done + ([p] + rest);
    forall q <- done ensures LexLess(q.key, p.key) {
      var i :| 0 <= i < |done| && done[i] == q;
      assert all[i] == q && all[|done|] == p;
    }
    assert all == (done + [p]) + rest;
  }

  lemma PropertyParts(ts: seq<Token>, p: nat, property: Property, rest: seq<Token>)
    requires Occurs(ts, p, PropertyTokens(property) + rest)
    ensures var n := |ValueTokens(property.value)|;
            && p + 3 + n <= |ts| && ts[p] == Word(property.key) && ts[p + 1] == EQUAL
            && Occurs(ts, p + 2, ValueTokens(property.value)) && ts[p + 2 + n] == SEMICOLON
            && Occurs(ts, p + 3 + n, rest)
  {
    hide ValueTokens, Occurs;
    var value := ValueTokens(property.value);
    assert Occurs(ts, p, PropertyTokens(property) + rest);
    OccursSplit(ts, p, PropertyTokens(property), rest);
    OccursSplit(ts, p, [Word(property.key)], [EQUAL] + (value + [SEMICOLON]));
    OccursSplit(ts, p + 1, [EQUAL], value + [SEMICOLON]);
    OccursSplit(ts, p + 2, value, [SEMICOLON]);
    OccursAt(ts, p, [Word(property.key)], 0);
    OccursAt(ts, p + 1, [EQUAL], 0);
    OccursAt(ts, p + 2 + |value|, [SEMICOLON], 0);
  }

  /** One attribute of the bag. */
  lemma BodyProperty(words: Vocabulary, ts: seq<Token>, p: nat, first: bool, e: Entity, property: Property, c: nat)
    requires p + 2 < |ts| && c + 1 < |ts| && EirParser.Closed(ts)
    requires ts[p] == Word(property.key) && ts[p + 1] == EQUAL && ts[c] == SEMICOLON
    requires ParseValue(ts, p + 2) == Some((property.value, c))
    requires !HasKey(e.properties, property.key) && (first ==> property.key != STABLE_ID)
    ensures ParseBody(words, ts, p, first, e) ==
            ParseBody(words, ts, c + 1, false, e.(properties := InBag(e.properties, property)))
  {
    hide ParseValue, InBag, HasKey;
    var entity := e.(properties := InBag(e.properties, property));
    assert ParseAttribute(words, ts, p, first, e) == Some((entity, c + 1));
    hide ParseAttribute;
  }

  lemma BodyIdentity(words: Vocabulary, ts: seq<Token>, p: nat, e: Entity, text: string)
    requires p + 4 < |ts| && EirParser.Closed(ts) && words.isStableId(text)
    requires ts[p] == Word(STABLE_ID) && ts[p + 1] == EQUAL && ts[p + 2] == Token(StringLiteral, text)
    requires ts[p + 3] == SEMICOLON
    ensures ParseBody(words, ts, p, true, e) == ParseBody(words, ts, p + 4, false, e.(identity := Some(text)))
  {
    hide ParseValue, InBag, HasKey;
  }

  lemma BodyEnd(words: Vocabulary, ts: seq<Token>, p: nat, first: bool, e: Entity)
    requires p + 1 < |ts| && EirParser.Closed(ts) && ts[p] == CLOSE_BRACE
    ensures ParseBody(words, ts, p, first, e) == Some((e, p + 1))
  {}

  /** The first of the remaining properties is read off. */
  lemma ParsesOneProperty(words: Vocabulary, ts: seq<Token>, p: nat, first: bool, e: Entity, head: Property,
                          tail: seq<Property>, rest: seq<Token>)
    requires p < |ts| && EirParser.Closed(ts) && rest != [] && Occurs(ts, p, PropertyTokens(head) + rest)
    requires AscendingKeys(e.properties + ([head] + tail)) && Shaped(head.value) && WriteValue(head.value).Some?
    requires first ==> head.key != STABLE_ID
    ensures var next := p + |PropertyTokens(head)|;
            && next < |ts| && Occurs(ts, next, rest)
            && ParseBody(words, ts, p, first, e) ==
               ParseBody(words, ts, next, false, e.(properties := e.properties + [head]))
  {
    hide ParseBody, ValueTokens, ParseValue, Shaped, WriteValue, PropertyTokens, LexLess, AscendingKeys, Occurs;
    var n := |ValueTokens(head.value)|;
    PropertyParts(ts, p, head, rest);
    PropertySize(head);
    assert p + 3 + n < |ts| by { Fits(ts, p + 3 + n, rest); }
    Below(e.properties, head, tail);
    InBagLast(e.properties, head);
    ParsesValue(head.value, ts, p + 2);
    BodyProperty(words, ts, p, first, e, head, p + 2 + n);
  }

  lemma Fits(ts: seq<Token>, p: nat, part: seq<Token>)
    requires Occurs(ts, p, part) && part != []
    ensures p < |ts|
  {}

  lemma PropertiesSplit(properties: seq<Property>)
    requires properties != []
    ensures var head, tail := properties[0], properties[1..];
            && properties == [head] + tail && head in properties
            && |PropertiesTokens(properties)| == |PropertyTokens(head)| + |PropertiesTokens(tail)|
            && PropertiesTokens(properties) + [CLOSE_BRACE] ==
               PropertyTokens(head) + (PropertiesTokens(tail) + [CLOSE_BRACE])
            && (PropertyLines(properties).Some? ==> WriteValue(head.value).Some? && PropertyLines(tail).Some?)
  {
    hide PropertyTokens, WriteValue, IsIdentifier;
  }

  lemma {:induction false} ParsesProperties(words: Vocabulary, ts: seq<Token>, p: nat, first: bool, e: Entity,
                                            rest: seq<Property>)
    requires p < |ts| && EirParser.Closed(ts)
    requires Occurs(ts, p, PropertiesTokens(rest) + [CLOSE_BRACE])
    requires AscendingKeys(e.properties + rest) && PropertyLines(rest).Some?
    requires (forall q <- rest :: Shaped(q.value)) && (first && rest != [] ==> rest[0].key != STABLE_ID)
    ensures ParseBody(words, ts, p, first, e) ==
            Some((e.(properties := e.properties + rest), p + |PropertiesTokens(rest)| + 1))
    decreases |rest|
  {
    hide ParseBody, Shaped, AscendingKeys, PropertyLines, WriteValue, PropertyTokens;
    if rest == [] {
      assert [] + [CLOSE_BRACE] == [CLOSE_BRACE];
      OccursAt(ts, p, [CLOSE_BRACE], 0);
      assert e.properties + [] == e.properties;
      BodyEnd(words, ts, p, first, e);
    } else {
      hide PropertiesTokens, Occurs;
      var head, tail := rest[0], rest[1..];
      PropertiesSplit(rest);
      ParsesOneProperty(words, ts, p, first, e, head, tail, PropertiesTokens(tail) + [CLOSE_BRACE]);
      Below(e.properties, head, tail);
      ParsesProperties(words, ts, p + |PropertyTokens(head)|, false, e.(properties := e.properties + [head]), tail);
      assert e.properties + [head] + tail == e.properties + rest;
    }
  }

  lemma PropertySize(p: Property)
    ensures |PropertyTokens(p)| == 3 + |ValueTokens(p.value)|
  {
    hide ValueTokens;
  }

  lemma IdentityParts(ts: seq<Token>, p: nat, identity: Option<string>)
    requires identity.Some? && Occurs(ts, p, IdentityTokens(identity))
    ensures |IdentityTokens(identity)| == 4 && p + 4 <= |ts|
    ensures ts[p] == Word(STABLE_ID) && ts[p + 1] == EQUAL
    ensures ts[p + 2] == Token(StringLiteral, identity.value) && ts[p + 3] == SEMICOLON
  {
    var line := IdentityTokens(identity);
    assert line == [Word(STABLE_ID), EQUAL, Token(StringLiteral, identity.value), SEMICOLON];
    OccursAt(ts, p, line, 0);
    OccursAt(ts, p, line, 1);
    OccursAt(ts, p, line, 2);
    OccursAt(ts, p, line, 3);
  }

  lemma ParsesBody(words: Vocabulary, ts: seq<Token>, p: nat, e: Entity)
    requires p < |ts| && EirParser.Closed(ts) && WellShaped(words, e) && PropertyLines(e.properties).Some?
    requires !LeadsWithStableId(e)
    requires Occurs(ts, p, IdentityTokens(e.identity) + (PropertiesTokens(e.properties) + [CLOSE_BRACE]))
    ensures ParseBody(words, ts, p, true, Entity(e.id, e.kind, None, [])) ==
            Some((e, p + |IdentityTokens(e.identity)| + |PropertiesTokens(e.properties)| + 1))
  {
    hide ParseBody, PropertiesTokens, PropertyLines, Shaped, AscendingKeys, Occurs;
    var empty, rest := Entity(e.id, e.kind, None, []), PropertiesTokens(e.properties) + [CLOSE_BRACE];
    assert [] + e.properties == e.properties;
    OccursSplit(ts, p, IdentityTokens(e.identity), rest);
    if e.identity.None? {
      ParsesProperties(words, ts, p, true, empty, e.properties);
    } else {
      IdentityParts(ts, p, e.identity);
      Fits(ts, p + 4, rest);
      BodyIdentity(words, ts, p, empty, e.identity.value);
      ParsesProperties(words, ts, p + 4, false, empty.(identity := e.identity), e.properties);
    }
  }

  lemma ParsesHead(words: Vocabulary, ts: seq<Token>, e: Entity)
    requires |ts| > 5 && EirParser.Closed(ts) && e.kind in words.kinds
    requires ts[..5] == [Word("entity"), Word(e.id), COLON, Word(e.kind), OPEN_BRACE]
    ensures ParseEntity(words, ts, 0) == ParseBody(words, ts, 5, true, Entity(e.id, e.kind, None, []))
  {
    hide ParseBody;
    assert ts[0] == ts[..5][0] && ts[1] == ts[..5][1] && ts[2] == ts[..5][2];
    assert ts[3] == ts[..5][3] && ts[4] == ts[..5][4];
  }

  /** A readable declaration that does not lead with a property named like an identity reads back as itself. */
  lemma EntityRoundTrip(words: Vocabulary, e: Entity)
    requires IsVocabulary(words) && WellShaped(words, e) && ReadableEntity(e) && SpellEntity(words, e).Some?
    requires !LeadsWithStableId(e)
    ensures ReadEntity(words, SpellEntity(words, e).value) == Some(e)
  {
    hide PropertiesTokens, IdentityTokens, PropertyLines, ParseBody, Shaped, Readable, Lex, IsIdentifier;
    hide AscendingKeys, LeadsWithStableId;
    EntityLexes(words, e);
    var ts := EntityTokens(e) + [END_TOKEN];
    var body := IdentityTokens(e.identity) + (PropertiesTokens(e.properties) + [CLOSE_BRACE]);
    assert EntityTokens(e) == [Word("entity"), Word(e.id), COLON, Word(e.kind), OPEN_BRACE] + body;
    assert ts[5..5 + |body|] == body;
    assert ts[..5] == [Word("entity"), Word(e.id), COLON, Word(e.kind), OPEN_BRACE];
    ParsesHead(words, ts, e);
    hide ParseEntity, EntityTokens;
    ParsesBody(words, ts, 5, e);
  }

  /** Without the identity line, a first property named like it would be taken for the identity. */
  lemma FirstStableIdIsIdentity(words: Vocabulary, ts: seq<Token>, p: nat, e: Entity)
    requires p + 1 < |ts| && EirParser.Closed(ts) && IsKeyword(ts[p], STABLE_ID)
    ensures var r := ParseBody(words, ts, p, true, e.(identity := None));
            r.Some? ==> r.value.0.identity.Some?
  {
    hide ParseValue, InBag;
    if ts[p + 1].kind == Equal && ts[p + 2].kind == StringLiteral && words.isStableId(ts[p + 2].text)
       && ts[p + 3].kind == Semicolon {
      IdentityStays(words, ts, p + 4, e.(identity := Some(ts[p + 2].text)));
    }
  }

  /** One that does lead with such a property does not: whatever it reads back as has an identity. */
  lemma LeadingIsTaken(words: Vocabulary, e: Entity)
    requires IsVocabulary(words) && ReadableEntity(e) && SpellEntity(words, e).Some? && LeadsWithStableId(e)
    ensures var back := ReadEntity(words, SpellEntity(words, e).value);
            back.Some? ==> back.value.identity.Some?
  {
    hide PropertyLines, ParseBody, Readable, Lex, IsIdentifier, ValueTokens;
    EntityLexes(words, e);
    var ts := EntityTokens(e) + [END_TOKEN];
    var body := PropertiesTokens(e.properties) + [CLOSE_BRACE];
    assert EntityTokens(e) == [Word("entity"), Word(e.id), COLON, Word(e.kind), OPEN_BRACE] + ([] + body);
    assert ts[..5] == [Word("entity"), Word(e.id), COLON, Word(e.kind), OPEN_BRACE];
    LeadingWord(e.properties);
    assert ts[5] == Word(STABLE_ID);
    ParsesHead(words, ts, e);
    FirstStableIdIsIdentity(words, ts, 5, Entity(e.id, e.kind, None, []));
  }

  lemma LeadingWord(properties: seq<Property>)
    requires properties != []
    ensures |PropertiesTokens(properties)| > 1 && PropertiesTokens(properties)[0] == Word(properties[0].key)
  {
    hide ValueTokens;
  }

  lemma {:induction false} IdentityStays(words: Vocabulary, ts: seq<Token>, p: nat, e: Entity)
    requires p < |ts| && EirParser.Closed(ts)
    ensures var r := ParseBody(words, ts, p, false, e); r.Some? ==> r.value.0.identity == e.identity
    decreases |ts| - p
  {
    hide ParseValue, InBag;
    if ts[p].kind == Identifier && ts[p + 1].kind == Equal && !HasKey(e.properties, ts[p].text) {
      var value := ParseValue(ts, p + 2);
      if value.Some? && ts[value.value.1].kind == Semicolon {
        var property := Property(ts[p].text, value.value.0);
        IdentityStays(words, ts, value.value.1 + 1, e.(properties := InBag(e.properties, property)));
      }
    }
  }
}
