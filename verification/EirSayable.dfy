/** Which predicates and values the writer accepts, stated on the expression alone. */
module EirSayable {
  import opened Expressions
  import opened EirCutting
  import opened EirWriter
  import opened EirSpelling
  import opened EirEntity

  const KEYWORDS := {"true", "false", "not", "and", "or", "implies", "forall", "exists"}

  /** A literal, a name or a reference; a name must not be read as something else. */
  predicate AtomSayable(e: Expression, reserved: set<string>) {
    match e.kind
    case Bool | Integer | String => true
    case Symbol => IsName(e.text) && e.text !in reserved
    case Reference => IsName(e.text)
    case _ => false
  }

  predicate ValueSayable(e: Expression)
    decreases e
  {
    || AtomSayable(e, {"true", "false"})
    || (e.kind == Call && IsName(e.text) && forall operand <- e.operands :: ValueSayable(operand))
  }

  predicate DomainSayable(e: Expression) {
    (e.kind == Reference || e.kind == Call) && ValueSayable(e)
  }

  /** Operands beyond those a kind asks for are not looked at. */
  predicate Sayable(e: Expression)
    decreases e
  {
    match e.kind
    case Unspecified => false
    case Bool | Integer | String | Symbol | Reference => AtomSayable(e, KEYWORDS)
    case Call =>
      && IsName(e.text) && e.text !in {"not", "forall", "exists"}
      && forall operand <- e.operands :: Sayable(operand)
    case Not => |e.operands| >= 1 && Sayable(e.operands[0])
    case And | Or => |e.operands| >= 2 && forall operand <- e.operands :: Sayable(operand)
    case Compare | Implies => |e.operands| >= 2 && Sayable(e.operands[0]) && Sayable(e.operands[1])
    case ForAll | Exists =>
      |e.operands| >= 2 && IsName(e.text) && DomainSayable(e.operands[0]) && Sayable(e.operands[1])
  }

  lemma {:induction false} ValueAcceptedExactly(e: Expression)
    ensures WriteValue(e).Some? <==> ValueSayable(e)
    decreases e, 1
  {
    hide IsName, IsIdentifier;
    NamesExactly(e.text);
    if e.kind == Call {
      ValuesAcceptedExactly(e.operands);
    }
  }

  lemma {:induction false} ValuesAcceptedExactly(es: seq<Expression>)
    ensures WriteValues(es).Some? <==> forall e <- es :: ValueSayable(e)
    decreases es, 0
  {
    hide ValueSayable, WriteValue;
    if es != [] {
      assert es == [es[0]] + es[1..];
      ValueAcceptedExactly(es[0]);
      ValuesAcceptedExactly(es[1..]);
    }
  }

  /** The writer accepts a predicate, in whatever position, exactly if it is sayable. */
  lemma {:induction false} AcceptedExactly(e: Expression, power: int)
    ensures WritePredicate(e, power).Some? <==> Sayable(e)
    decreases e, 1
  {
    hide IsName, IsIdentifier, ValueSayable, WriteValue;
    NamesExactly(e.text);
    match e.kind
    case Call | And | Or => ListAcceptedExactly(e.operands, ListPower(e.kind), ListSeparator(e.kind));
    case Not =>
      if |e.operands| >= 1 {
        AcceptedExactly(e.operands[0], 50);
      }
    case Compare =>
      if |e.operands| >= 2 {
        AcceptedExactly(e.operands[0], 50);
        AcceptedExactly(e.operands[1], 50);
      }
    case Implies =>
      if |e.operands| >= 2 {
        AcceptedExactly(e.operands[0], 20);
        AcceptedExactly(e.operands[1], 10);
      }
    case ForAll | Exists =>
      if |e.operands| >= 2 {
        DomainAcceptedExactly(e.operands[0]);
        AcceptedExactly(e.operands[1], 0);
      }
    case _ =>
  }

  function ListPower(kind: Kind): int {
    if kind == And then 40 else if kind == Or then 30 else 0
  }

  function ListSeparator(kind: Kind): string {
    if kind == And then " and " else if kind == Or then " or " else ", "
  }

  lemma DomainAcceptedExactly(e: Expression)
    ensures WriteDomain(e).Some? <==> DomainSayable(e)
  {
    hide IsName, IsIdentifier;
    NamesExactly(e.text);
    ValueAcceptedExactly(e);
  }

  predicate PropertySayable(p: Property) {
    IsName(p.key) && ValueSayable(p.value)
  }

  /** The writer accepts an entity exactly if its parts are sayable and it has an identity or needs none. */
  lemma EntityAcceptedExactly(words: Vocabulary, e: Entity)
    ensures WriteEntity(words, e).Some?
            <==> && IsName(e.id) && e.kind in words.kinds && (forall p <- e.properties :: PropertySayable(p))
                 && (e.identity.Some? || forall p <- e.properties :: p.key != "stable_id")
  {
    hide IsName, IsIdentifier, ValueSayable, WriteValue, PropertyLines, PropertySayable;
    NamesExactly(e.id);
    LinesAcceptedExactly(e.properties);
  }

  lemma {:induction false} LinesAcceptedExactly(properties: seq<Property>)
    ensures PropertyLines(properties).Some? <==> forall p <- properties :: PropertySayable(p)
  {
    hide PropertySayable, PropertyLine;
    if properties != [] {
      assert properties == [properties[0]] + properties[1..];
      LineAcceptedExactly(properties[0]);
      LinesAcceptedExactly(properties[1..]);
    }
  }

  lemma LineAcceptedExactly(p: Property)
    ensures PropertyLine(p).Some? <==> PropertySayable(p)
  {
    hide IsName, IsIdentifier, ValueSayable, WriteValue;
    NamesExactly(p.key);
    ValueAcceptedExactly(p.value);
  }

  lemma {:induction false} ListAcceptedExactly(es: seq<Expression>, power: int, separator: string)
    ensures WriteList(es, power, separator).Some? <==> forall e <- es :: Sayable(e)
    decreases es, 0
  {
    hide Sayable, WritePredicate;
    if es != [] {
      assert es == [es[0]] + es[1..];
      AcceptedExactly(es[0], power);
      ListAcceptedExactly(es[1..], power, separator);
    }
  }
}
