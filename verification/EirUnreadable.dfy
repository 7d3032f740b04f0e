/** The writer does not check UTF-8 and the lexer does: when the round trip holds, exactly. */
module EirUnreadable {
  import opened Basics
  import opened Expressions
  import opened EirLexer
  import opened EirCutting
  import opened EirWriter
  import opened EirTokens
  import opened EirRoundTrip
  import Utf8

  /** The lexer refuses the text from `i` on. */
  predicate Fails(s: string, i: nat)
    requires i <= |s|
  {
    LexFrom(s, i).None?
  }

  lemma CutsThenFails(s: string, i: nat, j: nat, tokens: seq<Token>)
    requires i <= |s| && j <= |s| && Cuts(s, i, j, tokens) && Fails(s, j)
    ensures Fails(s, i)
  {}

  lemma EscapeEnd(t: string)
    ensures EscapeFrom(t, |t|, true) == ""
  {}

  /** The high bytes that open an escaped text are the bytes of the text itself. */
  lemma {:induction false} HighBytes(s: string, i: nat, t: string, k: nat, n: nat)
    requires k <= |t| && Occurs(s, i, EscapeFrom(t, k, true) + "\"")
    requires i + n <= |s| && forall m :: i <= m < i + n ==> s[m] as int >= 0x80
    ensures k + n <= |t| && t[k..k + n] == s[i..i + n]
    decreases n
  {
    hide EscapeFrom;
    if n > 0 {
      if k == |t| {
        assert EscapeFrom(t, k, true) == "" by { EscapeEnd(t); }
        OccursAt(s, i, EscapeFrom(t, k, true) + "\"", 0);
      } else {
        var unit, tail := EscapeByte(t[k], true), EscapeFrom(t, k + 1, true);
        EscapeStep(t, k, true);
        Append3(unit, tail, "\"");
        OccursSplit(s, i, unit, tail + "\"");
        OccursAt(s, i, unit, 0);
        HighBytes(s, i + 1, t, k + 1, n - 1);
        assert t[k..k + n] == [t[k]] + t[k + 1..k + n];
        assert s[i..i + n] == [s[i]] + s[i + 1..i + n];
      }
    }
  }

  /** A literal of ill-formed text is refused. */
  lemma {:induction false} StringFails(s: string, i: nat, t: string, k: nat)
    requires k <= |t| && !Utf8.WellFormedFrom(t, k) && Occurs(s, i, EscapeFrom(t, k, true) + "\"")
    ensures LexStringFrom(s, i).None?
    decreases |t| - k
  {
    hide EscapeFrom, EscapeByte;
    var n := Utf8.SequenceLengthAt(t, k);
    if n == 0 {
      FirstByte(s, i, t, k);
      var m := Utf8.SequenceLengthAt(s, i);
      if m > 0 {
        HighBytes(s, i, t, k, m);
        Utf8.SequenceLengthMoves(s, i, t, k, m);
      }
    } else if t[k] as int < 0x80 {
      var unit, tail := EscapeByte(t[k], true), EscapeFrom(t, k + 1, true);
      EscapeStep(t, k, true);
      Append3(unit, tail, "\"");
      OccursSplit(s, i, unit, tail + "\"");
      StringFails(s, i + |unit|, t, k + 1);
      ByteFails(s, i, t[k]);
    } else {
      var unit, tail := t[k..k + n], EscapeFrom(t, k + n, true);
      EscapePlain(t, k, n, true);
      Append3(unit, tail, "\"");
      OccursSplit(s, i, unit, tail + "\"");
      OccursAt(s, i, unit, 0);
      Utf8.SequenceLengthMoves(t, k, s, i, n);
      StringFails(s, i + n, t, k + n);
    }
  }

  lemma FirstByte(s: string, i: nat, t: string, k: nat)
    requires k < |t| && t[k] as int >= 0x80 && Occurs(s, i, EscapeFrom(t, k, true) + "\"")
    ensures s[i] == t[k]
  {
    EscapeStep(t, k, true);
    OccursAt(s, i, EscapeFrom(t, k, true) + "\"", 0);
  }

  lemma ByteFails(s: string, i: nat, c: char)
    requires c as int < 0x80 && Occurs(s, i, EscapeByte(c, true))
    requires LexStringFrom(s, i + |EscapeByte(c, true)|).None?
    ensures LexStringFrom(s, i).None?
  {
    var unit := EscapeByte(c, true);
    OccursAt(s, i, unit, 0);
    if |unit| == 2 { OccursAt(s, i, unit, 1); }
  }

  lemma QuoteFails(s: string, i: nat, t: string)
    requires !Utf8.WellFormed(t) && Occurs(s, i, Quote(t, true))
    ensures Fails(s, i)
  {
    hide EscapeFrom;
    var body := EscapeFrom(t, 0, true) + "\"";
    assert Quote(t, true) == "\"" + body;
    OccursSplit(s, i, "\"", body);
    OccursAt(s, i, "\"", 0);
    StringFails(s, i + 1, t, 0);
  }

  // ----- Values -----

  lemma {:induction false} ValueFails(e: Expression, s: string, i: nat)
    requires Shaped(e) && !Readable(e) && WriteValue(e).Some? && Stands(s, i, WriteValue(e).value)
    ensures Fails(s, i)
    decreases e, 0
  {
    hide Cuts, IsIdentifier, Boundary, Occurs, Fails;
    if e.kind == String {
      QuoteFails(s, i, e.text);
    } else {
      var arguments := WriteValues(e.operands).value;
      InsideCall(s, i, e.text, arguments);
      ValuesFail(e.operands, s, i + |e.text| + 1);
      CutsCallHead(s, i, e.text, arguments);
      CutsThenFails(s, i, i + |e.text| + 1, [Word(e.text), LEFT_PAREN]);
    }
  }

  lemma CutsCallHead(s: string, i: nat, name: string, inner: string)
    requires IsIdentifier(name) && Occurs(s, i, name + "(" + inner + ")")
    ensures Cuts(s, i, i + |name| + 1, [Word(name), LEFT_PAREN])
  {
    hide Cuts, IsIdentifier;
    InsideCall(s, i, name, inner);
    InsideParens(s, i + |name|, inner);
    CutsIdentifier(s, i, name);
    CutsMark(s, i + |name|, "(");
    CutsThen(s, i, i + |name|, i + |name| + 1, [Word(name)], [LEFT_PAREN]);
    assert [Word(name)] + [LEFT_PAREN] == [Word(name), LEFT_PAREN];
  }

  lemma {:induction false} ValuesFail(es: seq<Expression>, s: string, i: nat)
    requires (forall e <- es :: Shaped(e)) && (exists e <- es :: !Readable(e))
    requires WriteValues(es).Some? && Stands(s, i, WriteValues(es).value)
    ensures Fails(s, i)
    decreases es, 0
  {
    hide Cuts, Boundary, Fails, WriteValue, Readable, Shaped;
    if |es| == 1 {
      ValueFails(es[0], s, i);
    } else {
      var first, rest := WriteValue(es[0]).value, WriteValues(es[1..]).value;
      var k := i + |first| + 2;
      ListParts(s, i, first, ", ", rest);
      CutsComma(s, i + |first|);
      if Readable(es[0]) {
        ValueCuts(es[0], s, i);
        ValuesFail(es[1..], s, k);
        CutsThen(s, i, i + |first|, k, ValueTokens(es[0]), [COMMA]);
        CutsThenFails(s, i, k, ValueTokens(es[0]) + [COMMA]);
      } else {
        ValueFails(es[0], s, i);
      }
    }
  }

  // ----- Predicates -----

  lemma {:induction false} PredicateFails(e: Expression, minPower: int, s: string, i: nat)
    requires Shaped(e) && !Readable(e)
    requires WritePredicate(e, minPower).Some? && Stands(s, i, WritePredicate(e, minPower).value)
    ensures Fails(s, i)
    decreases e, 3
  {
    hide Cuts, Boundary, Occurs, WriteBare, ShapedNode, Fails, Readable;
    if BindingPower(e.kind) < minPower {
      InsideParens(s, i, WriteBare(e).value);
      BareFails(e, s, i + 1);
      CutsMark(s, i, "(");
      CutsThenFails(s, i, i + 1, [LEFT_PAREN]);
    } else {
      BareFails(e, s, i);
    }
  }

  lemma {:induction false} BareFails(e: Expression, s: string, i: nat)
    requires Shaped(e) && !Readable(e) && WriteBare(e).Some? && Stands(s, i, WriteBare(e).value)
    ensures Fails(s, i)
    decreases e, 2
  {
    hide Cuts, IsIdentifier, Boundary, Occurs, WritePredicate, PredicateTokens, Fails;
    match e.kind
    case String => QuoteFails(s, i, e.text);
    case Call => CallFails(e, s, i);
    case Not =>
      OccursSplit(s, i, "not ", WritePredicate(e.operands[0], 50).value);
      CutsNot(s, i);
      PredicateFails(e.operands[0], 50, s, i + 4);
      CutsThenFails(s, i, i + 4, [Word("not")]);
    case Compare => CompareFails(e, s, i);
    case And | Or =>
      assert IsSeparator(ConnectiveSeparator(e.kind), Word(ConnectiveWord(e.kind)));
      ListFails(e.operands, OperandPower(e.kind), ConnectiveSeparator(e.kind), Word(ConnectiveWord(e.kind)), s, i);
    case Implies => ImpliesFails(e, s, i);
    case ForAll | Exists => QuantifierFails(e, s, i);
    case _ =>
  }

  lemma {:induction false} CallFails(e: Expression, s: string, i: nat)
    requires e.kind == Call && Shaped(e) && !Readable(e) && WriteBare(e).Some? && Stands(s, i, WriteBare(e).value)
    ensures Fails(s, i)
    decreases e, 0
  {
    hide Cuts, IsIdentifier, Boundary, Occurs, Fails, WriteList;
    var arguments := WriteList(e.operands, 0, ", ").value;
    InsideCall(s, i, e.text, arguments);
    ListFails(e.operands, 0, ", ", COMMA, s, i + |e.text| + 1);
    CutsCallHead(s, i, e.text, arguments);
    CutsThenFails(s, i, i + |e.text| + 1, [Word(e.text), LEFT_PAREN]);
  }

  lemma {:induction false} CompareFails(e: Expression, s: string, i: nat)
    requires e.kind == Compare && Shaped(e) && !Readable(e)
    requires WriteBare(e).Some? && Stands(s, i, WriteBare(e).value)
    ensures Fails(s, i)
    decreases e, 1
  {
    hide Cuts, Boundary, Occurs, WritePredicate, Fails, IsComparisonOperator, ComparisonKind;
    var l, r := WritePredicate(e.operands[0], 50).value, WritePredicate(e.operands[1], 50).value;
    var operator := " " + e.text + " ";
    assert l + " " + e.text + " " + r == l + operator + r;
    ListParts(s, i, l, operator, r);
    CutsOperator(s, i + |l|, e.text);
    BinaryFails(e, 50, operator, Token(ComparisonKind(e.text), e.text), 50, s, i);
  }

  lemma {:induction false} ImpliesFails(e: Expression, s: string, i: nat)
    requires e.kind == Implies && Shaped(e) && !Readable(e)
    requires WriteBare(e).Some? && Stands(s, i, WriteBare(e).value)
    ensures Fails(s, i)
    decreases e, 1
  {
    hide Cuts, Boundary, Occurs, WritePredicate, Fails;
    ListParts(s, i, WritePredicate(e.operands[0], 20).value, " implies ", WritePredicate(e.operands[1], 10).value);
    CutsImplies(s, i + |WritePredicate(e.operands[0], 20).value|);
    BinaryFails(e, 20, " implies ", Word("implies"), 10, s, i);
  }

  /** An infix form fails with its first unreadable side. */
  lemma {:induction false} BinaryFails(
      e: Expression, leftPower: int, operator: string, token: Token, rightPower: int, s: string, i: nat)
    requires |e.operands| == 2 && Shaped(e) && !Readable(e) && e.kind != String
    requires WritePredicate(e.operands[0], leftPower).Some? && WritePredicate(e.operands[1], rightPower).Some?
    requires var l := WritePredicate(e.operands[0], leftPower).value;
             var r := WritePredicate(e.operands[1], rightPower).value;
             && Stands(s, i, l + operator + r)
             && Boundary(s, i + |l|) && Cuts(s, i + |l|, i + |l| + |operator|, [token])
    ensures Fails(s, i)
    decreases e, 0
  {
    hide Cuts, Boundary, Occurs, WritePredicate, PredicateTokens, Fails;
    var left, right := e.operands[0], e.operands[1];
    var l, r := WritePredicate(left, leftPower).value, WritePredicate(right, rightPower).value;
    ListParts(s, i, l, operator, r);
    if Readable(left) {
      PredicateCuts(left, leftPower, s, i);
      PredicateFails(right, rightPower, s, i + |l| + |operator|);
      CutsThen(s, i, i + |l|, i + |l| + |operator|, PredicateTokens(left, leftPower), [token]);
      CutsThenFails(s, i, i + |l| + |operator|, PredicateTokens(left, leftPower) + [token]);
    } else {
      PredicateFails(left, leftPower, s, i);
    }
  }

  lemma {:induction false} ListFails(
      es: seq<Expression>, minPower: int, separator: string, token: Token, s: string, i: nat)
    requires (forall e <- es :: Shaped(e)) && (exists e <- es :: !Readable(e)) && IsSeparator(separator, token)
    requires WriteList(es, minPower, separator).Some? && Stands(s, i, WriteList(es, minPower, separator).value)
    ensures Fails(s, i)
    decreases es, 0
  {
    hide Cuts, Boundary, WritePredicate, PredicateTokens, Shaped, Readable, Fails;
    if |es| == 1 {
      PredicateFails(es[0], minPower, s, i);
    } else {
      var first, rest := WritePredicate(es[0], minPower).value, WriteList(es[1..], minPower, separator).value;
      var j := i + |first|;
      var k := j + |separator|;
      ListParts(s, i, first, separator, rest);
      CutsSeparator(s, j, separator, token);
      if Readable(es[0]) {
        PredicateCuts(es[0], minPower, s, i);
        ListFails(es[1..], minPower, separator, token, s, k);
        CutsThen(s, i, j, k, PredicateTokens(es[0], minPower), [token]);
        CutsThenFails(s, i, k, PredicateTokens(es[0], minPower) + [token]);
      } else {
        PredicateFails(es[0], minPower, s, i);
      }
    }
  }

  lemma {:induction false} QuantifierFails(e: Expression, s: string, i: nat)
    requires IsQuantifier(e.kind) && Shaped(e) && !Readable(e)
    requires WriteBare(e).Some? && Stands(s, i, WriteBare(e).value)
    ensures Fails(s, i)
    decreases e, 0
  {
    hide Cuts, Boundary, Occurs, IsIdentifier, WritePredicate, PredicateTokens, WriteDomain, ValueTokens, Fails;
    var domain, body := e.operands[0], e.operands[1];
    var word := QuantifierWord(e.kind);
    var d, b := WriteDomain(domain).value, WritePredicate(body, 0).value;
    var head := word + " " + e.text + " in ";
    var tokens := [Word(word), Word(e.text), Word("in")];
    var j := i + |head|;
    var k := j + |d| + 2;
    assert WriteBare(e).value == head + d + ": " + b;
    ListParts(s, i, head + d, ": ", b);
    OccursSplit(s, i, head, d);
    CutsQuantifierHead(s, i, word, e.text);
    CutsColon(s, j + |d|);
    if Readable(domain) {
      DomainCuts(domain, s, j);
      PredicateFails(body, 0, s, k);
      CutsJoin(s, i, j, j + |d|, k, tokens, ValueTokens(domain), [COLON]);
      CutsThenFails(s, i, k, tokens + ValueTokens(domain) + [COLON]);
    } else {
      DomainFails(domain, s, j);
      CutsThenFails(s, i, j, tokens);
    }
  }

  lemma DomainFails(e: Expression, s: string, i: nat)
    requires Shaped(e) && !Readable(e) && WriteDomain(e).Some? && Stands(s, i, WriteDomain(e).value)
    ensures Fails(s, i)
  {
    hide Fails;
    ValueFails(e, s, i);
  }

  /** For a shape-valid predicate the writer accepts, reading the written text gives the predicate back
      if and only if its connectives are flat and its strings are well-formed UTF-8. */
  lemma RoundTripExactly(e: Expression)
    requires Shaped(e) && WritePredicate(e, 0).Some?
    ensures ReadPredicate(WritePredicate(e, 0).value) == Some(e) <==> Flat(e) && Readable(e)
    ensures ReadPredicate(WritePredicate(e, 0).value).Some? <==> Readable(e)
  {
    hide WritePredicate, Shaped, Readable, Flatten, Flat;
    var s := WritePredicate(e, 0).value;
    if Readable(e) {
      PredicateRoundTrip(e);
      FlattenIsFlat(e);
      if Flat(e) { FlattenFlat(e); }
    } else {
      OccursWhole(s);
      PredicateFails(e, 0, s, 0);
    }
  }
}
