/** The parser as it runs: one cursor over the tokens, refining the positional functions. */
module EirReader {
  import opened Basics
  import opened Expressions
  import opened EirLexer
  import opened EirParser

  /** Items read so far, put before the rest. */
  function Onto(done: seq<Expression>, rest: Parsed<seq<Expression>>): Parsed<seq<Expression>> {
    if rest.None? then None else Some((done + rest.value.0, rest.value.1))
  }

  lemma OntoNothing(rest: Parsed<seq<Expression>>)
    ensures Onto([], rest) == rest
  {
    if rest.Some? {
      assert [] + rest.value.0 == rest.value.0;
    }
  }

  lemma OntoTwice(done: seq<Expression>, next: Expression, rest: Parsed<seq<Expression>>)
    ensures Onto(done, Onto([next], rest)) == Onto(done + [next], rest)
  {
    if rest.Some? {
      assert done + ([next] + rest.value.0) == done + [next] + rest.value.0;
    }
  }

  lemma OntoLast(done: seq<Expression>, next: Expression, e: nat)
    ensures Onto(done, Some(([next], e))) == Some((done + [next], e))
  {}

  lemma OperandsStep(kind: Kind, ts: seq<Token>, p: nat)
    requires p < |ts| && Closed(ts) && IsConnective(kind)
    ensures var first := ParseOperand(kind, ts, p);
            ParseOperands(kind, ts, p) ==
            if first.None? then None
            else if !IsKeyword(ts[first.value.1], ConnectiveWord(kind)) then Some(([first.value.0], first.value.1))
            else Onto([first.value.0], ParseOperands(kind, ts, first.value.1 + 1))
  {
    hide ParseConnective, ParseComparison;
  }

  lemma ArgumentsStep(ts: seq<Token>, p: nat)
    requires p < |ts| && Closed(ts)
    ensures var first := ParsePredicate(ts, p);
            ParseArguments(ts, p) ==
            if first.None? then None
            else if ts[first.value.1].kind != Comma then Some(([first.value.0], first.value.1))
            else Onto([first.value.0], ParseArguments(ts, first.value.1 + 1))
  {
    hide ParsePredicate;
  }

  lemma ValuesStep(ts: seq<Token>, p: nat)
    requires p < |ts| && Closed(ts)
    ensures var first := ParseValue(ts, p);
            ParseValues(ts, p) ==
            if first.None? then None
            else if ts[first.value.1].kind != Comma then Some(([first.value.0], first.value.1))
            else Onto([first.value.0], ParseValues(ts, first.value.1 + 1))
  {
    hide ParseValue;
  }

  class Parser {
    const tokens: seq<Token>
    var cursor: nat

    predicate Valid()
      reads this
    {
      Closed(tokens) && cursor < |tokens|
    }

    constructor (tokens: seq<Token>)
      requires Closed(tokens)
      ensures Valid() && this.tokens == tokens && cursor == 0
    {
      this.tokens, cursor := tokens, 0;
    }

    /** Consumes the next token when it is of this kind. */
    method Match(kind: TokenKind) returns (ok: bool)
      requires Valid() && kind != End
      modifies this
      ensures Valid() && ok == (tokens[old(cursor)].kind == kind)
      ensures cursor == old(cursor) + if ok then 1 else 0
    {
      ok := tokens[cursor].kind == kind;
      if ok {
        cursor := cursor + 1;
      }
    }

    method MatchKeyword(word: string) returns (ok: bool)
      requires Valid()
      modifies this
      ensures Valid() && ok == IsKeyword(tokens[old(cursor)], word)
      ensures cursor == old(cursor) + if ok then 1 else 0
    {
      ok := IsKeyword(tokens[cursor], word);
      if ok {
        cursor := cursor + 1;
      }
    }

    method ReadIdentifier() returns (name: Option<string>)
      requires Valid()
      modifies this
      ensures Valid() && name.Some? == TakeIdentifier(tokens, old(cursor)).Some?
      ensures name.Some? ==> TakeIdentifier(tokens, old(cursor)).value == (name.value, cursor)
    {
      if tokens[cursor].kind != Identifier {
        return None;
      }
      name := Some(tokens[cursor].text);
      cursor := cursor + 1;
    }

    method ReadReference() returns (e: Option<Expression>)
      requires Valid()
      modifies this
      ensures Valid() && e.Some? == TakeReference(tokens, old(cursor)).Some?
      ensures e.Some? ==> TakeReference(tokens, old(cursor)).value == (e.value, cursor)
    {
      var ok := Match(At);
      if !ok {
        return None;
      }
      var name := ReadIdentifier();
      if name.None? {
        return None;
      }
      return Some(Make(Reference, name.value, []));
    }

    method ReadInteger() returns (e: Option<Expression>)
      requires Valid() && tokens[cursor].kind == IntegerLiteral
      modifies this
      ensures Valid() && e.Some? == TakeInteger(tokens, old(cursor)).Some?
      ensures e.Some? ==> TakeInteger(tokens, old(cursor)).value == (e.value, cursor)
    {
      hide Numerals.ReadInteger;
      var value := Numerals.ReadInteger(tokens[cursor].text);
      cursor := cursor + 1;
      if value.None? {
        return None;
      }
      return Some(Expression(Integer, "", value.value, false, []));
    }

    method Predicate() returns (e: Option<Expression>)
      requires Valid()
      modifies this
      ensures Valid() && e.Some? == ParsePredicate(tokens, old(cursor)).Some?
      ensures e.Some? ==> ParsePredicate(tokens, old(cursor)).value == (e.value, cursor)
      decreases |tokens| - cursor, 8
    {
      hide ParseQuantified, ParseImplication;
      var matched := MatchKeyword("forall");
      if matched {
        e := Quantified(ForAll);
        return;
      }
      matched := MatchKeyword("exists");
      if matched {
        e := Quantified(Exists);
        return;
      }
      e := Implication();
    }

    method Implication() returns (e: Option<Expression>)
      requires Valid()
      modifies this
      ensures Valid() && e.Some? == ParseImplication(tokens, old(cursor)).Some?
      ensures e.Some? ==> ParseImplication(tokens, old(cursor)).value == (e.value, cursor)
      decreases |tokens| - cursor, 7
    {
      hide ParseConnective;
      var left := Chain(Or);
      if left.None? {
        return None;
      }
      var matched := MatchKeyword("implies");
      if !matched {
        return left;
      }
      var right := Implication();
      if right.None? {
        return None;
      }
      return Some(Make(Implies, "", [left.value, right.value]));
    }

    /** One operand, or a chain of them spliced into one connective. */
    method Chain(kind: Kind) returns (e: Option<Expression>)
      requires Valid() && IsConnective(kind)
      modifies this
      ensures Valid() && e.Some? == ParseConnective(kind, tokens, old(cursor)).Some?
      ensures e.Some? ==> ParseConnective(kind, tokens, old(cursor)).value == (e.value, cursor)
      decreases |tokens| - cursor, if kind == Or then 6 else 4
    {
      hide ParseOperands, ParseOperand;
      ghost var start := cursor;
      var operands: seq<Expression> := [];
      OntoNothing(ParseOperands(kind, tokens, start));
      while true
        invariant Valid() && cursor >= start
        invariant ParseOperands(kind, tokens, start) == Onto(operands, ParseOperands(kind, tokens, cursor))
        decreases |tokens| - cursor
      {
        OperandsStep(kind, tokens, cursor);
        var next := Operand(kind);
        if next.None? {
          return None;
        }
        OntoLast(operands, next.value, cursor);
        var matched := MatchKeyword(ConnectiveWord(kind));
        if !matched {
          operands := operands + [next.value];
          return Some(if |operands| == 1 then operands[0] else MakeConnective(kind, operands));
        }
        OntoTwice(operands, next.value, ParseOperands(kind, tokens, cursor));
        operands := operands + [next.value];
      }
    }

    method Operand(kind: Kind) returns (e: Option<Expression>)
      requires Valid() && IsConnective(kind)
      modifies this
      ensures Valid() && e.Some? == ParseOperand(kind, tokens, old(cursor)).Some?
      ensures e.Some? ==> ParseOperand(kind, tokens, old(cursor)).value == (e.value, cursor) && cursor > old(cursor)
      decreases |tokens| - cursor, if kind == Or then 5 else 3
    {
      hide ParseConnective, ParseComparison;
      if kind == Or {
        e := Chain(And);
      } else {
        e := Comparison();
      }
    }

    method Comparison() returns (e: Option<Expression>)
      requires Valid()
      modifies this
      ensures Valid() && e.Some? == ParseComparison(tokens, old(cursor)).Some?
      ensures e.Some? ==> ParseComparison(tokens, old(cursor)).value == (e.value, cursor)
      decreases |tokens| - cursor, 2
    {
      hide ParseUnary;
      var left := Unary();
      if left.None? {
        return None;
      }
      var operator := ComparisonText(tokens[cursor].kind);
      if operator == "" {
        return left;
      }
      cursor := cursor + 1;
      var right := Unary();
      if right.None? {
        return None;
      }
      if ComparisonText(tokens[cursor].kind) != "" {
        return None;
      }
      return Some(Make(Compare, operator, [left.value, right.value]));
    }

    method Unary() returns (e: Option<Expression>)
      requires Valid()
      modifies this
      ensures Valid() && e.Some? == ParseUnary(tokens, old(cursor)).Some?
      ensures e.Some? ==> ParseUnary(tokens, old(cursor)).value == (e.value, cursor)
      decreases |tokens| - cursor, 1
    {
      hide ParsePrimary;
      var matched := MatchKeyword("not");
      if matched {
        var operand := Unary();
        if operand.None? {
          return None;
        }
        return Some(Make(Not, "", [operand.value]));
      }
      e := Primary();
    }

    method Quantified(kind: Kind) returns (e: Option<Expression>)
      requires Valid() && IsQuantifier(kind)
      modifies this
      ensures Valid() && e.Some? == ParseQuantified(kind, tokens, old(cursor)).Some?
      ensures e.Some? ==> ParseQuantified(kind, tokens, old(cursor)).value == (e.value, cursor)
      decreases |tokens| - cursor, 9
    {
      hide ParsePredicate, ParseDomain;
      var variable := ReadIdentifier();
      if variable.None? {
        return None;
      }
      var ok := MatchKeyword("in");
      if !ok {
        return None;
      }
      var domain := Domain();
      if domain.None? {
        return None;
      }
      ok := Match(Colon);
      if !ok {
        return None;
      }
      var body := Predicate();
      if body.None? {
        return None;
      }
      return Some(Make(kind, variable.value, [domain.value, body.value]));
    }

    method Domain() returns (e: Option<Expression>)
      requires Valid()
      modifies this
      ensures Valid() && e.Some? == ParseDomain(tokens, old(cursor)).Some?
      ensures e.Some? ==> ParseDomain(tokens, old(cursor)).value == (e.value, cursor)
      decreases |tokens| - cursor, 0
    {
      hide ParseValueList, TakeReference;
      if tokens[cursor].kind == At {
        e := ReadReference();
        return;
      }
      var callee := ReadIdentifier();
      if callee.None? {
        return None;
      }
      var ok := Match(LeftParen);
      if !ok {
        return None;
      }
      var arguments := ValueList();
      if arguments.None? {
        return None;
      }
      ok := Match(RightParen);
      if !ok {
        return None;
      }
      return Some(Make(Call, callee.value, arguments.value));
    }

    method Primary() returns (e: Option<Expression>)
      requires Valid()
      modifies this
      ensures Valid() && e.Some? == ParsePrimary(tokens, old(cursor)).Some?
      ensures e.Some? ==> ParsePrimary(tokens, old(cursor)).value == (e.value, cursor)
      decreases |tokens| - cursor, 0
    {
      hide ParsePredicate, ParseArgumentList, TakeReference, TakeInteger, NameValue;
      var token := tokens[cursor];
      match token.kind
      case LeftParen =>
        cursor := cursor + 1;
        var inner := Predicate();
        if inner.None? {
          return None;
        }
        var ok := Match(RightParen);
        return if ok then inner else None;
      case StringLiteral =>
        cursor := cursor + 1;
        return Some(Make(String, token.text, []));
      case IntegerLiteral => e := ReadInteger();
      case At => e := ReadReference();
      case Identifier =>
        if tokens[cursor + 1].kind != LeftParen {
          cursor := cursor + 1;
          return Some(NameValue(token.text));
        }
        cursor := cursor + 2;
        var arguments := ArgumentList();
        if arguments.None? {
          return None;
        }
        var ok := Match(RightParen);
        return if ok then Some(Make(Call, token.text, arguments.value)) else None;
      case _ => return None;
    }

    /** Predicates separated by commas, up to a closing parenthesis that is not consumed. */
    method ArgumentList() returns (es: Option<seq<Expression>>)
      requires Valid()
      modifies this
      ensures Valid() && es.Some? == ParseArgumentList(tokens, old(cursor)).Some?
      ensures es.Some? ==> ParseArgumentList(tokens, old(cursor)).value == (es.value, cursor)
      decreases |tokens| - cursor, 10
    {
      hide ParseArguments, ParsePredicate;
      if tokens[cursor].kind == RightParen {
        return Some([]);
      }
      ghost var start := cursor;
      var arguments: seq<Expression> := [];
      OntoNothing(ParseArguments(tokens, start));
      while true
        invariant Valid() && cursor >= start
        invariant ParseArguments(tokens, start) == Onto(arguments, ParseArguments(tokens, cursor))
        decreases |tokens| - cursor
      {
        ArgumentsStep(tokens, cursor);
        var next := Predicate();
        if next.None? {
          return None;
        }
        OntoLast(arguments, next.value, cursor);
        var matched := Match(Comma);
        if !matched {
          return Some(arguments + [next.value]);
        }
        OntoTwice(arguments, next.value, ParseArguments(tokens, cursor));
        arguments := arguments + [next.value];
      }
    }

    method Value() returns (e: Option<Expression>)
      requires Valid()
      modifies this
      ensures Valid() && e.Some? == ParseValue(tokens, old(cursor)).Some?
      ensures e.Some? ==> ParseValue(tokens, old(cursor)).value == (e.value, cursor)
      decreases |tokens| - cursor, 0
    {
      hide ParseValueList, TakeReference, TakeInteger, NameValue;
      var token := tokens[cursor];
      match token.kind
      case StringLiteral =>
        cursor := cursor + 1;
        return Some(Make(String, token.text, []));
      case IntegerLiteral => e := ReadInteger();
      case At => e := ReadReference();
      case Identifier =>
        if tokens[cursor + 1].kind != LeftParen {
          cursor := cursor + 1;
          return Some(NameValue(token.text));
        }
        cursor := cursor + 2;
        var arguments := ValueList();
        if arguments.None? {
          return None;
        }
        var ok := Match(RightParen);
        return if ok then Some(Make(Call, token.text, arguments.value)) else None;
      case _ => return None;
    }

    method ValueList() returns (es: Option<seq<Expression>>)
      requires Valid()
      modifies this
      ensures Valid() && es.Some? == ParseValueList(tokens, old(cursor)).Some?
      ensures es.Some? ==> ParseValueList(tokens, old(cursor)).value == (es.value, cursor)
      decreases |tokens| - cursor, 2
    {
      hide ParseValues, ParseValue;
      if tokens[cursor].kind == RightParen {
        return Some([]);
      }
      ghost var start := cursor;
      var values: seq<Expression> := [];
      OntoNothing(ParseValues(tokens, start));
      while true
        invariant Valid() && cursor >= start
        invariant ParseValues(tokens, start) == Onto(values, ParseValues(tokens, cursor))
        decreases |tokens| - cursor
      {
        ValuesStep(tokens, cursor);
        var next := Value();
        if next.None? {
          return None;
        }
        OntoLast(values, next.value, cursor);
        var matched := Match(Comma);
        if !matched {
          return Some(values + [next.value]);
        }
        OntoTwice(values, next.value, ParseValues(tokens, cursor));
        values := values + [next.value];
      }
    }
  }
}
