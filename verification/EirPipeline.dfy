/** Text out and text in: the running writer, lexer and parser put together. */
module EirPipeline {
  import opened Basics
  import opened Expressions
  import opened EirLexer
  import opened EirCutting
  import opened EirWriter
  import opened EirTokens
  import opened EirParser
  import opened EirRoundTrip
  import opened EirTokenizer
  import opened EirReader
  import opened EirEmitter
  import opened EirEntity
  import opened EirEntityExact
  import EirUnreadable
  import EirScanner
  import CanonicalCall

  /** Tokens of a text, as the parser takes them. */
  method TokenizeText(text: string) returns (tokens: Option<seq<Token>>)
    ensures tokens == Lex(text)
  {
    hide LexFrom;
    var lexer := new Lexer(text);
    var placed := lexer.Tokenize();
    return if placed.Some? then Some(Tokens(placed.value)) else None;
  }

  method ReadPredicateText(text: string) returns (e: Option<Expression>)
    ensures e == ReadPredicate(text)
  {
    hide LexFrom, ParsePredicate;
    var tokens := TokenizeText(text);
    if tokens.None? {
      return None;
    }
    var parser := new Parser(tokens.value);
    e := parser.Predicate();
    if e.Some? && tokens.value[parser.cursor].kind != End {
      return None;
    }
  }

  method WritePredicateText(e: Expression) returns (text: Option<string>)
    ensures text == WritePredicate(e, 0)
  {
    hide WritePredicate;
    var writer := new Writer();
    writer.Predicate(e, 0);
    if writer.failed {
      return None;
    }
    assert "" + WritePredicate(e, 0).value == WritePredicate(e, 0).value;
    return Some(writer.out);
  }

  /** A predicate written and read again is itself exactly when it is flat and its strings are UTF-8. */
  method PredicateThroughText(e: Expression) returns (text: Option<string>, back: Option<Expression>)
    requires Shaped(e)
    ensures text.None? ==> back.None?
    ensures text.Some? ==> (back == Some(e) <==> Flat(e) && Readable(e)) && (back.Some? <==> Readable(e))
  {
    hide WritePredicate, ReadPredicate, Shaped, Flat, Readable;
    text := WritePredicateText(e);
    if text.None? {
      return text, None;
    }
    back := ReadPredicateText(text.value);
    EirUnreadable.RoundTripExactly(e);
  }

  // ----- Entities -----

  method EmitProperty(writer: Writer, p: Property)
    modifies writer
    ensures old(writer.failed) ==> writer.failed
    ensures !old(writer.failed) ==> writer.failed == PropertyLine(p).None?
    ensures !writer.failed ==> writer.out == old(writer.out) + PropertyLine(p).value
  {
    hide WriteName, WriteValue;
    ghost var before := writer.out;
    writer.Raw(INNER);
    writer.Identifier(p.key);
    writer.Raw(" = ");
    writer.Value(p.value);
    writer.Raw(";\n");
    if !writer.failed {
      var key, value := WriteName(p.key).value, WriteValue(p.value).value;
      Nest5(before, INNER, key, " = ", value, ";\n");
    }
  }

  lemma Nest5(o: string, a: string, b: string, c: string, d: string, e: string)
    ensures o + a + b + c + d + e == o + (a + (b + (c + (d + e))))
  {}

  lemma {:induction false} LinesSplit(properties: seq<Property>, i: nat)
    requires i < |properties|
    ensures PropertyLines(properties[i..]) ==
            if PropertyLine(properties[i]).None? || PropertyLines(properties[i + 1..]).None? then None
            else Some(PropertyLine(properties[i]).value + PropertyLines(properties[i + 1..]).value)
  {
    hide PropertyLine;
    assert properties[i..][1..] == properties[i + 1..];
  }

  method EmitProperties(writer: Writer, properties: seq<Property>)
    modifies writer
    ensures old(writer.failed) ==> writer.failed
    ensures !old(writer.failed) ==> writer.failed == PropertyLines(properties).None?
    ensures !writer.failed ==> writer.out == old(writer.out) + PropertyLines(properties).value
  {
    hide PropertyLine, PropertyLines;
    if writer.failed {
      return;
    }
    ghost var whole, before := PropertyLines(properties), writer.out;
    assert properties[0..] == properties;
    for i := 0 to |properties|
      invariant if writer.failed then whole.None? else Owes(before, whole, writer.out, PropertyLines(properties[i..]))
    {
      LinesSplit(properties, i);
      ghost var sofar := writer.out;
      EmitProperty(writer, properties[i]);
      if !writer.failed && PropertyLines(properties[i + 1..]).Some? {
        Two(sofar, PropertyLine(properties[i]).value, PropertyLines(properties[i + 1..]).value);
      }
    }
    assert properties[|properties|..] == [];
    NoLines();
    assert writer.out + "" == writer.out;
  }

  lemma NoLines()
    ensures PropertyLines([]) == Some("")
  {}

  method EmitIdentity(writer: Writer, identity: Option<string>)
    modifies writer
    ensures writer.failed == old(writer.failed)
    ensures !writer.failed ==> writer.out == old(writer.out) + IdentityLine(identity)
  {
    hide Quote;
    ghost var before := writer.out;
    if identity.None? {
      assert before + "" == before;
      return;
    }
    writer.Raw(INNER);
    writer.Raw(STABLE_ID);
    writer.Raw(" = ");
    writer.StringLiteral(identity.value);
    writer.Raw(";\n");
    Nest5(before, INNER, STABLE_ID, " = ", Quote(identity.value, true), ";\n");
  }

  method EmitEntity(writer: Writer, words: Vocabulary, e: Entity)
    modifies writer
    ensures old(writer.failed) ==> writer.failed
    ensures !old(writer.failed) ==> writer.failed == WriteEntity(words, e).None?
    ensures !writer.failed ==> writer.out == old(writer.out) + WriteEntity(words, e).value
  {
    hide WriteName, PropertyLines, IdentityLine, HasKey;
    if writer.failed {
      return;
    }
    ghost var before := writer.out;
    writer.Raw(OUTER);
    writer.Raw("entity ");
    writer.Identifier(e.id);
    writer.Raw(" : ");
    if e.kind !in words.kinds {
      writer.Refuse();
    }
    writer.Raw(e.kind);
    writer.Raw(" {\n");
    ghost var head := writer.out;
    if e.identity.None? && HasKey(e.properties, STABLE_ID) {
      writer.Refuse();
    }
    EmitIdentity(writer, e.identity);
    EmitProperties(writer, e.properties);
    writer.Raw("    }\n");
    if !writer.failed {
      NestEntity(before, WriteName(e.id).value, e.kind, IdentityLine(e.identity), PropertyLines(e.properties).value);
    }
  }

  lemma NestEntity(o: string, id: string, kind: string, identity: string, lines: string)
    ensures o + OUTER + "entity " + id + " : " + kind + " {\n" + identity + lines + "    }\n" ==
            o + (OUTER + ("entity " + (id + (" : " + (kind + (" {\n" + (identity + (lines + "    }\n"))))))))
  {
    var tail := identity + (lines + "    }\n");
    Nest5(o + OUTER, "entity ", id, " : ", kind, " {\n" + tail);
    Three(o + OUTER + "entity " + id + " : " + kind, " {\n", identity, lines + "    }\n");
    assert " {\n" + identity + (lines + "    }\n") == " {\n" + tail;
    Two(o + OUTER + "entity " + id + " : " + kind + " {\n" + identity, lines, "    }\n");
    Two(o, OUTER, "entity " + (id + (" : " + (kind + (" {\n" + tail)))));
  }

  /** Reads a body's attributes one by one; only the first can bind the identity. */
  method TakeAttribute(parser: Parser, words: Vocabulary, first: bool, entity: Entity) returns (e: Option<Entity>)
    requires parser.Valid()
    modifies parser
    ensures parser.Valid() && e.Some? == ParseAttribute(words, parser.tokens, old(parser.cursor), first, entity).Some?
    ensures e.Some? ==> ParseAttribute(words, parser.tokens, old(parser.cursor), first, entity).value ==
                        (e.value, parser.cursor)
  {
    hide ParseValue, InBag, HasKey;
    var key := parser.ReadIdentifier();
    if key.None? {
      return None;
    }
    var isIdentity := first && key.value == STABLE_ID;
    if !isIdentity && HasKey(entity.properties, key.value) {
      return None;
    }
    var ok := parser.Match(Equal);
    if !ok {
      return None;
    }
    if isIdentity {
      var token := parser.tokens[parser.cursor];
      ok := parser.Match(StringLiteral);
      if !ok || !words.isStableId(token.text) {
        return None;
      }
      e := Some(entity.(identity := Some(token.text)));
    } else {
      var value := parser.Value();
      if value.None? {
        return None;
      }
      e := Some(entity.(properties := InBag(entity.properties, Property(key.value, value.value))));
    }
    ok := parser.Match(Semicolon);
    if !ok {
      e := None;
    }
  }

  method TakeBody(parser: Parser, words: Vocabulary, start: Entity) returns (e: Option<Entity>)
    requires parser.Valid()
    modifies parser
    ensures parser.Valid() && e.Some? == ParseBody(words, parser.tokens, old(parser.cursor), true, start).Some?
    ensures e.Some? ==>
              ParseBody(words, parser.tokens, old(parser.cursor), true, start).value == (e.value, parser.cursor)
  {
    hide ParseAttribute;
    var entity, first := start, true;
    ghost var from := parser.cursor;
    while true
      invariant parser.Valid() && parser.cursor >= from
      invariant ParseBody(words, parser.tokens, parser.cursor, first, entity) ==
                ParseBody(words, parser.tokens, from, true, start)
      decreases |parser.tokens| - parser.cursor
    {
      var closed := parser.Match(RightBrace);
      if closed {
        return Some(entity);
      }
      var taken := TakeAttribute(parser, words, first, entity);
      if taken.None? {
        return None;
      }
      entity, first := taken.value, false;
    }
  }

  method TakeEntity(parser: Parser, words: Vocabulary) returns (e: Option<Entity>)
    requires parser.Valid()
    modifies parser
    ensures parser.Valid() && e.Some? == ParseEntity(words, parser.tokens, old(parser.cursor)).Some?
    ensures e.Some? ==> ParseEntity(words, parser.tokens, old(parser.cursor)).value == (e.value, parser.cursor)
  {
    hide ParseBody;
    var ok := parser.MatchKeyword("entity");
    if !ok {
      return None;
    }
    var id := parser.ReadIdentifier();
    if id.None? {
      return None;
    }
    ok := parser.Match(Colon);
    if !ok {
      return None;
    }
    var kind := parser.ReadIdentifier();
    if kind.None? || kind.value !in words.kinds {
      return None;
    }
    ok := parser.Match(LeftBrace);
    if !ok {
      return None;
    }
    e := TakeBody(parser, words, Entity(id.value, kind.value, None, []));
  }

  method ReadEntityText(words: Vocabulary, text: string) returns (e: Option<Entity>)
    ensures e == ReadEntity(words, text)
  {
    hide LexFrom, ParseEntity;
    var tokens := TokenizeText(text);
    if tokens.None? {
      return None;
    }
    var parser := new Parser(tokens.value);
    e := TakeEntity(parser, words);
    if e.Some? && parser.tokens[parser.cursor].kind != End {
      e := None;
    }
  }

  /** An entity written and read again is itself exactly when its quoted texts are UTF-8. */
  method EntityThroughText(words: Vocabulary, e: Entity) returns (text: Option<string>, back: Option<Entity>)
    requires IsVocabulary(words) && WellShaped(words, e)
    ensures text == WriteEntity(words, e) && (text.None? ==> back.None?)
    ensures text.Some? ==> (back == Some(e) <==> ReadableEntity(e)) && (back.Some? <==> ReadableEntity(e))
  {
    hide WriteEntity, ReadEntity, WellShaped, ReadableEntity, IsVocabulary;
    var writer := new Writer();
    EmitEntity(writer, words, e);
    if writer.failed {
      return None, None;
    }
    assert "" + WriteEntity(words, e).value == WriteEntity(words, e).value;
    text := Some(writer.out);
    back := ReadEntityText(words, writer.out);
    WrittenReadsBackExactly(words, e);
  }

  // ----- Call carriers -----

  /** Writes a carrier through the scanner: a canonical call as it stands, or a bare name where one may be. */
  method EmitCarrier(writer: Writer, text: string, allowBareName: bool)
    modifies writer
    ensures old(writer.failed) ==> writer.failed
    ensures !old(writer.failed) ==> writer.failed == CanonicalCall.WriteCarrier(text, allowBareName).None?
    ensures !writer.failed ==> writer.out == old(writer.out) + CanonicalCall.WriteCarrier(text, allowBareName).value
  {
    hide CanonicalCall.IsCanonicalCall;
    if writer.failed {
      return;
    }
    if CanonicalCall.HasLineBreak(text) {
      writer.Refuse();
      return;
    }
    if allowBareName {
      var bare := EirScanner.TestIdentifier(text);
      if bare && !IsBooleanSpelling(text) {
        writer.Raw(text);
        return;
      }
    }
    var scanner := new EirScanner.CanonicalCallScanner(text);
    var canonical := scanner.Scan();
    if canonical {
      writer.Raw(text);
    } else {
      writer.Refuse();
    }
  }
}
