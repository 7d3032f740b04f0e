/** When a written entity reads back, exactly; and when the writer's refusal of a `stable_id` property is needed. */
module EirEntityExact {
  import opened Basics
  import opened Expressions
  import opened EirLexer
  import opened EirCutting
  import opened EirWriter
  import opened EirTokens
  import opened EirEntity
  import opened EirUnreadable
  import Utf8

  // ----- Text that is not UTF-8 is refused -----

  lemma PropertyFails(p: Property, s: string, i: nat)
    requires PropertyLine(p).Some? && Shaped(p.value) && !Readable(p.value) && Occurs(s, i, PropertyLine(p).value)
    ensures Fails(s, i)
  {
    hide Cuts, IsIdentifier, WriteValue, Shaped, Readable, Boundary, Fails, Occurs;
    var value := WriteValue(p.value).value;
    KeyParts(s, i, p.key, value);
    CutsKey(s, i, p.key);
    var v := i + 8 + |p.key| + 3;
    OccursSplit(s, v, value, ";\n");
    assert ";" + "\n" == ";\n";
    CutsMarkLine(s, v + |value|, ";");
    ValueFails(p.value, s, v);
    CutsThenFails(s, i, v, [Word(p.key)] + [EQUAL]);
  }

  lemma {:induction false} PropertiesFail(properties: seq<Property>, s: string, i: nat)
    requires PropertyLines(properties).Some? && Occurs(s, i, PropertyLines(properties).value)
    requires (forall p <- properties :: Shaped(p.value)) && (exists p <- properties :: !Readable(p.value))
    ensures Fails(s, i)
    decreases |properties|
  {
    hide Cuts, PropertyLine, PropertyTokens, Readable, Shaped, Fails, Occurs;
    var head, tail := properties[0], properties[1..];
    var first, rest := PropertyLine(head).value, PropertyLines(tail).value;
    OccursSplit(s, i, first, rest);
    if Readable(head.value) {
      assert properties == [head] + tail;
      PropertyCuts(head, s, i);
      PropertiesFail(tail, s, i + |first|);
      CutsThenFails(s, i, i + |first|, PropertyTokens(head));
    } else {
      PropertyFails(head, s, i);
    }
  }

  lemma IdentityFails(identity: string, s: string, i: nat)
    requires !Utf8.WellFormed(identity) && Occurs(s, i, IdentityLine(Some(identity)))
    ensures Fails(s, i)
  {
    hide Cuts, IsIdentifier, Quote, Utf8.WellFormed, Fails, Occurs;
    var text := Quote(identity, true);
    StableIdIsName();
    KeyParts(s, i, STABLE_ID, text);
    CutsKey(s, i, STABLE_ID);
    var v := i + 8 + |STABLE_ID| + 3;
    OccursSplit(s, v, text, ";\n");
    QuoteFails(s, v, identity);
    CutsThenFails(s, i, v, [Word(STABLE_ID)] + [EQUAL]);
  }

  lemma BodyFails(e: Entity, s: string, a: nat, lines: string)
    requires PropertyLines(e.properties) == Some(lines) && (forall p <- e.properties :: Shaped(p.value))
    requires !ReadableEntity(e) && Occurs(s, a, IdentityLine(e.identity) + (lines + "    }\n"))
    ensures Fails(s, a)
  {
    hide Cuts, PropertyLines, IdentityLine, IdentityTokens, Readable, Shaped, Utf8.WellFormed, Fails, Occurs;
    OccursSplit(s, a, IdentityLine(e.identity), lines + "    }\n");
    var b := a + |IdentityLine(e.identity)|;
    OccursSplit(s, b, lines, "    }\n");
    if e.identity.Some? && !Utf8.WellFormed(e.identity.value) {
      IdentityFails(e.identity.value, s, a);
    } else {
      IdentityCuts(e.identity, s, a);
      PropertiesFail(e.properties, s, b);
      CutsThenFails(s, a, b, IdentityTokens(e.identity));
    }
  }

  lemma EntityFails(words: Vocabulary, e: Entity)
    requires IsVocabulary(words) && WellShaped(words, e) && !ReadableEntity(e) && SpellEntity(words, e).Some?
    ensures Lex(SpellEntity(words, e).value).None?
  {
    hide Cuts, IsIdentifier, PropertyLines, IdentityLine, ReadableEntity, AscendingKeys, Shaped;
    var s, lines := SpellEntity(words, e).value, PropertyLines(e.properties).value;
    var head := OUTER + ("entity " + (e.id + (" : " + (e.kind + " {\n"))));
    EntityParts(e, lines, head);
    OccursWhole(s);
    OccursSplit(s, 0, head, IdentityLine(e.identity) + (lines + "    }\n"));
    HeadCuts(words, e, s, 0);
    BodyFails(e, s, |head|, lines);
    CutsThenFails(s, 0, |head|, [Word("entity")] + ([Word(e.id)] + ([COLON] + ([Word(e.kind)] + [OPEN_BRACE]))));
  }

  // ----- Exactly -----

  /**
   * A spelled entity reads back as itself exactly when its quoted texts are UTF-8 and it does not lead with a
   * property named like the identity it lacks.
   */
  lemma SpelledReadsBackExactly(words: Vocabulary, e: Entity)
    requires IsVocabulary(words) && WellShaped(words, e) && SpellEntity(words, e).Some?
    ensures ReadEntity(words, SpellEntity(words, e).value) == Some(e) <==>
            ReadableEntity(e) && !LeadsWithStableId(e)
    ensures ReadEntity(words, SpellEntity(words, e).value).Some? ==> ReadableEntity(e)
  {
    hide SpellEntity, ReadEntity, WellShaped, ReadableEntity, IsVocabulary, Lex;
    if !ReadableEntity(e) {
      EntityFails(words, e);
      Unlexed(words, SpellEntity(words, e).value);
    } else if LeadsWithStableId(e) {
      LeadingIsTaken(words, e);
    } else {
      EntityRoundTrip(words, e);
    }
  }

  lemma Unlexed(words: Vocabulary, text: string)
    requires Lex(text).None?
    ensures ReadEntity(words, text).None?
  {}

  /** What the writer accepts reads back, and as itself, exactly when its quoted texts are UTF-8. */
  lemma WrittenReadsBackExactly(words: Vocabulary, e: Entity)
    requires IsVocabulary(words) && WellShaped(words, e) && WriteEntity(words, e).Some?
    ensures ReadEntity(words, WriteEntity(words, e).value) == Some(e) <==> ReadableEntity(e)
    ensures ReadEntity(words, WriteEntity(words, e).value).Some? <==> ReadableEntity(e)
  {
    hide SpellEntity, ReadEntity, WellShaped, ReadableEntity, IsVocabulary;
    assert !LeadsWithStableId(e) by {
      assert e.properties != [] ==> e.properties[0] in e.properties;
    }
    SpelledReadsBackExactly(words, e);
  }

  // ----- The refusal -----

  /**
   * The writer refuses every unidentified entity with a property named `stable_id`. Among those it could spell,
   * the refusal is needed exactly where that property comes first.
   */
  lemma RefusalNeededExactly(words: Vocabulary, e: Entity)
    requires IsVocabulary(words) && WellShaped(words, e) && ReadableEntity(e) && SpellEntity(words, e).Some?
    requires e.identity.None? && HasKey(e.properties, STABLE_ID)
    ensures WriteEntity(words, e).None?
    ensures ReadEntity(words, SpellEntity(words, e).value) != Some(e) <==> e.properties[0].key == STABLE_ID
  {
    hide SpellEntity, ReadEntity, WellShaped, ReadableEntity, IsVocabulary;
    SpelledReadsBackExactly(words, e);
  }

  const TRUE := Make(Bool, "", []).(boolean := true)

  /** Its first property is `a`, its second `stable_id`. */
  function Needless(kind: string): Entity {
    Entity("e", kind, None, [Property("a", TRUE), Property(STABLE_ID, TRUE)])
  }

  /** For every kind there is an entity the writer refuses although its declaration would read back as itself. */
  lemma RefusedWouldReadBack(words: Vocabulary, kind: string)
    requires IsVocabulary(words) && kind in words.kinds
    ensures WriteEntity(words, Needless(kind)).None? && SpellEntity(words, Needless(kind)).Some?
    ensures ReadEntity(words, SpellEntity(words, Needless(kind)).value) == Some(Needless(kind))
  {
    hide ReadEntity, IsIdentifier;
    NeedlessIsShaped(words, kind);
    NeedlessIsSpelled(words, kind);
    assert Needless(kind).properties[1].key == STABLE_ID;
    SpelledReadsBackExactly(words, Needless(kind));
  }

  lemma ShortNames()
    ensures IsIdentifier("e") && IsIdentifier("a") && IsIdentifier(STABLE_ID)
  {
    WordIsIdentifier("e");
    WordIsIdentifier("a");
    StableIdIsName();
  }

  lemma NeedlessIsShaped(words: Vocabulary, kind: string)
    ensures var e := Needless(kind);
            WellShaped(words, e) && ReadableEntity(e) && !LeadsWithStableId(e)
  {
    assert "a"[0] < STABLE_ID[0];
  }

  lemma NeedlessIsSpelled(words: Vocabulary, kind: string)
    requires kind in words.kinds
    ensures SpellEntity(words, Needless(kind)).Some?
  {
    hide IsIdentifier;
    ShortNames();
    var a, b := Property("a", TRUE), Property(STABLE_ID, TRUE);
    assert PropertyLine(a).Some? && PropertyLine(b).Some?;
    assert [b][1..] == [] && PropertyLines([b]).Some?;
    assert [a, b][1..] == [b] && PropertyLines([a, b]).Some?;
  }
}
