/** The lexer as it runs: a cursor with line bookkeeping, refining the positional functions. */
module EirTokenizer {
  import opened Basics
  import opened Numerals
  import opened EirLexer
  import Utf8

  // ----- Lines and columns -----

  /** The line of position `i`: one more than the newlines before it. */
  function LineAt(s: string, i: nat): nat
    requires i <= |s|
  {
    if i == 0 then 1 else LineAt(s, i - 1) + if s[i - 1] == '\n' then 1 else 0
  }

  /** Where the line of position `i` begins: after the last newline before it. */
  function LineStartAt(s: string, i: nat): (start: nat)
    requires i <= |s|
    ensures start <= i
  {
    if i == 0 then 0 else if s[i - 1] == '\n' then i else LineStartAt(s, i - 1)
  }

  /** A token and where it begins. */
  datatype Placed = Placed(token: Token, offset: nat, line: nat, column: nat)

  /** The token is the one at its offset, and its line and column are that offset's. */
  predicate InPlace(s: string, p: Placed) {
    && p.offset <= |s| && p.line == LineAt(s, p.offset) && p.column == p.offset - LineStartAt(s, p.offset) + 1
    && (if p.offset == |s| then p.token == END_TOKEN
        else LexTokenAt(s, p.offset).Some? && LexTokenAt(s, p.offset).value.0 == p.token)
  }

  /** No two tokens begin at one place, and they are listed as they stand. */
  predicate OffsetsAscend(placed: seq<Placed>) {
    forall i, j | 0 <= i < j < |placed| :: placed[i].offset < placed[j].offset
  }

  function Tokens(placed: seq<Placed>): (tokens: seq<Token>)
    ensures |tokens| == |placed| && forall i | 0 <= i < |placed| :: tokens[i] == placed[i].token
  {
    seq(|placed|, i requires 0 <= i < |placed| => placed[i].token)
  }

  class Lexer {
    const source: string
    var cursor: nat
    var line: nat
    var lineStart: nat

    predicate Valid()
      reads this
    {
      cursor <= |source| && line == LineAt(source, cursor) && lineStart == LineStartAt(source, cursor)
    }

    constructor (source: string)
      ensures Valid() && this.source == source && cursor == 0
    {
      this.source, cursor, line, lineStart := source, 0, 1, 0;
    }

    predicate AtEnd()
      reads this
    {
      cursor >= |source|
    }

    function Ahead(lookahead: nat): char
      reads this
    {
      Peek(source, cursor + lookahead)
    }

    /** Consumes one byte and keeps the line bookkeeping in step. */
    method Advance() returns (c: char)
      requires Valid() && !AtEnd()
      modifies this
      ensures Valid() && cursor == old(cursor) + 1 && c == source[old(cursor)]
    {
      c := source[cursor];
      cursor := cursor + 1;
      if c == '\n' {
        line, lineStart := line + 1, cursor;
      }
    }

    method AdvanceTo(end: nat)
      requires Valid() && cursor <= end <= |source|
      modifies this
      ensures Valid() && cursor == end
    {
      while cursor < end
        invariant Valid() && cursor <= end
        decreases end - cursor
      {
        var _ := Advance();
      }
    }

    /** Consumes a line comment's text; fails on ill-formed UTF-8. */
    method SkipLineComment() returns (ok: bool)
      requires Valid()
      modifies this
      ensures Valid() && ok == LineCommentEnd(source, old(cursor)).Some?
      ensures ok ==> cursor == LineCommentEnd(source, old(cursor)).value
    {
      while !AtEnd() && Ahead(0) != '\n'
        invariant Valid() && cursor >= old(cursor)
        invariant LineCommentEnd(source, cursor) == LineCommentEnd(source, old(cursor))
        decreases |source| - cursor
      {
        var length := Utf8.SequenceLengthAt(source, cursor);
        if length == 0 {
          return false;
        }
        AdvanceTo(cursor + length);
      }
      return true;
    }

    /** Consumes a block comment's text and its closing. */
    method SkipBlockComment() returns (ok: bool)
      requires Valid()
      modifies this
      ensures Valid() && ok == BlockCommentEnd(source, old(cursor)).Some?
      ensures ok ==> cursor == BlockCommentEnd(source, old(cursor)).value
    {
      while true
        invariant Valid() && cursor >= old(cursor)
        invariant BlockCommentEnd(source, cursor) == BlockCommentEnd(source, old(cursor))
        decreases |source| - cursor
      {
        if AtEnd() {
          return false;
        }
        if Ahead(0) == '*' && Ahead(1) == '/' {
          AdvanceTo(cursor + 2);
          return true;
        }
        var length := Utf8.SequenceLengthAt(source, cursor);
        if length == 0 {
          return false;
        }
        AdvanceTo(cursor + length);
      }
    }

    method SkipWhitespaceAndComments() returns (ok: bool)
      requires Valid()
      modifies this
      ensures Valid() && ok == SkipFrom(source, old(cursor)).Some?
      ensures ok ==> cursor == SkipFrom(source, old(cursor)).value
    {
      while true
        invariant Valid() && cursor >= old(cursor)
        invariant SkipFrom(source, cursor) == SkipFrom(source, old(cursor))
        decreases |source| - cursor
      {
        if AtEnd() {
          return true;
        }
        var c := Ahead(0);
        if IsBlank(c) {
          var _ := Advance();
        } else if c != '/' {
          return true;
        } else if Ahead(1) == '/' {
          AdvanceTo(cursor + 2);
          ok := SkipLineComment();
          if !ok {
            return;
          }
        } else if Ahead(1) == '*' {
          AdvanceTo(cursor + 2);
          ok := SkipBlockComment();
          if !ok {
            return;
          }
        } else {
          return true;
        }
      }
    }

    /** The place of the token that begins at the cursor. */
    function Here(token: Token): Placed
      requires Valid()
      reads this
    {
      Placed(token, cursor, line, cursor - lineStart + 1)
    }

    method SkipSegment()
      requires Valid()
      modifies this
      ensures Valid() && cursor == SegmentEnd(source, old(cursor))
    {
      while !AtEnd() && IsWordChar(Ahead(0))
        invariant Valid() && SegmentEnd(source, cursor) == SegmentEnd(source, old(cursor))
        decreases |source| - cursor
      {
        var _ := Advance();
      }
    }

    /** The longest qualified identifier: a dot goes on only before a letter. */
    method LexIdentifier() returns (token: Token)
      requires Valid() && !AtEnd()
      modifies this
      ensures Valid() && cursor == IdentifierEnd(source, old(cursor))
      ensures token == Token(Identifier, source[old(cursor)..cursor])
    {
      var start := cursor;
      SkipSegment();
      while Ahead(0) == '.' && IsLetter(Ahead(1))
        invariant Valid() && start <= cursor
        invariant DottedEnd(source, cursor) == IdentifierEnd(source, start)
        decreases |source| - cursor
      {
        var _ := Advance();
        SkipSegment();
      }
      token := Token(Identifier, source[start..cursor]);
    }

    method SkipDigits()
      requires Valid()
      modifies this
      ensures Valid() && cursor == DigitsEnd(source, old(cursor))
    {
      while IsDigit(Ahead(0))
        invariant Valid() && DigitsEnd(source, cursor) == DigitsEnd(source, old(cursor))
        decreases |source| - cursor
      {
        var _ := Advance();
      }
    }

    method LexIntegerLiteral() returns (token: Option<Token>)
      requires Valid() && !AtEnd()
      requires IsDigit(source[cursor]) || (source[cursor] == '-' && IsDigit(Peek(source, cursor + 1)))
      modifies this
      ensures Valid() && token.Some? == LexInteger(source, old(cursor)).Some?
      ensures token.Some? ==> LexInteger(source, old(cursor)).value == (token.value, cursor)
    {
      hide ReadInteger;
      var start := cursor;
      if Ahead(0) == '-' {
        var _ := Advance();
      }
      SkipDigits();
      var spelling := source[start..cursor];
      if ReadInteger(spelling).None? {
        return None;
      }
      return Some(Token(IntegerLiteral, spelling));
    }

    /** The decoded string literal; escapes are resolved, other bytes copied sequence by sequence. */
    method LexString() returns (token: Option<Token>)
      requires Valid() && !AtEnd() && source[cursor] == '"'
      modifies this
      ensures Valid() && token.Some? == LexStringFrom(source, old(cursor) + 1).Some?
      ensures token.Some? ==>
                LexStringFrom(source, old(cursor) + 1).value == (token.value.text, cursor)
                && token.value.kind == StringLiteral
    {
      hide LexStringFrom;
      var _ := Advance();
      var start := cursor;
      var decoded := "";
      PrependedNothing(LexStringFrom(source, start));
      while true
        invariant Valid() && cursor >= start
        invariant LexStringFrom(source, start) == Prepended(decoded, LexStringFrom(source, cursor))
        decreases |source| - cursor
      {
        StringStep(source, cursor);
        if AtEnd() {
          return None;
        }
        var c := Ahead(0);
        if c == '"' {
          assert decoded + "" == decoded;
          var _ := Advance();
          return Some(Token(StringLiteral, decoded));
        }
        if c == '\\' {
          var _ := Advance();
          if AtEnd() {
            return None;
          }
          var escaped := Advance();
          var decodedByte := Unescape(escaped);
          if decodedByte.None? {
            return None;
          }
          PrependedTwice(decoded, [decodedByte.value], LexStringFrom(source, cursor));
          decoded := decoded + [decodedByte.value];
        } else {
          var length := Utf8.SequenceLengthAt(source, cursor);
          if length == 0 {
            return None;
          }
          var bytes := source[cursor..cursor + length];
          AdvanceTo(cursor + length);
          PrependedTwice(decoded, bytes, LexStringFrom(source, cursor));
          decoded := decoded + bytes;
        }
      }
    }

    /** A token made of the next one or two bytes. */
    method Emit(kind: TokenKind, length: nat) returns (token: Token)
      requires Valid() && cursor + length <= |source|
      modifies this
      ensures Valid() && cursor == old(cursor) + length
      ensures token == Token(kind, source[old(cursor)..old(cursor) + length])
    {
      token := Token(kind, source[cursor..cursor + length]);
      AdvanceTo(cursor + length);
    }

    method LexToken() returns (token: Option<Token>)
      requires Valid() && !AtEnd()
      modifies this
      ensures Valid() && token.Some? == LexTokenAt(source, old(cursor)).Some?
      ensures token.Some? ==> LexTokenAt(source, old(cursor)).value == (token.value, cursor)
    {
      hide LexInteger, IdentifierEnd, LexStringFrom;
      var c := Ahead(0);
      if IsLetter(c) {
        var identifier := LexIdentifier();
        return Some(identifier);
      }
      if IsDigit(c) || (c == '-' && IsDigit(Ahead(1))) {
        token := LexIntegerLiteral();
        return;
      }
      if c == '"' {
        token := LexString();
        return;
      }
      var single := Punctuation(c);
      if single.Some? {
        assert source[cursor..cursor + 1] == [c];
        var mark := Emit(single.value, 1);
        return Some(mark);
      }
      var operator := Operator(c, Ahead(1));
      if operator.None? {
        return None;
      }
      var mark := Emit(operator.value.0, operator.value.1);
      return Some(mark);
    }

    /** Every token with its place, closed by one end token; exactly the positional lexer's tokens. */
    method Tokenize() returns (placed: Option<seq<Placed>>)
      requires Valid()
      modifies this
      ensures Valid() && placed.Some? == Lex(source).Some?
      ensures placed.Some? ==> Tokens(placed.value) == Lex(source).value
      ensures placed.Some? ==> (forall p <- placed.value :: InPlace(source, p)) && OffsetsAscend(placed.value)
    {
      hide SkipFrom, LexTokenAt, LineAt, LineStartAt, LexFrom, Before;
      cursor, line, lineStart := 0, 1, 0;
      assert Valid() by { StartOfText(source); }
      var done: seq<Placed> := [];
      assert Lex(source) == Before([], LexFrom(source, 0)) by { BeforeNothing(LexFrom(source, 0)); }
      while true
        invariant Valid() && Lex(source) == Before(Tokens(done), LexFrom(source, cursor))
        invariant (forall p <- done :: InPlace(source, p)) && OffsetsAscend(done)
        invariant forall p <- done :: p.offset < cursor
        decreases |source| - cursor
      {
        LexFromStep(source, cursor);
        BeforeNone(Tokens(done));
        var skipped := SkipWhitespaceAndComments();
        if !skipped {
          return None;
        }
        if AtEnd() {
          var last := Here(END_TOKEN);
          BeforeLast(Tokens(done), END_TOKEN);
          assert Tokens(done + [last]) == Tokens(done) + [END_TOKEN];
          return Some(done + [last]);
        }
        var place := Here(END_TOKEN);
        var token := LexToken();
        if token.None? {
          return None;
        }
        var next := place.(token := token.value);
        BeforeTwice(Tokens(done), token.value, LexFrom(source, cursor));
        assert Tokens(done + [next]) == Tokens(done) + [token.value];
        done := done + [next];
      }
    }
  }

  lemma StartOfText(s: string)
    ensures LineAt(s, 0) == 1 && LineStartAt(s, 0) == 0
  {}

  /** Tokens already cut, put before the rest. */
  function Before(tokens: seq<Token>, rest: Option<seq<Token>>): Option<seq<Token>> {
    if rest.None? then None else Some(tokens + rest.value)
  }

  lemma BeforeNothing(rest: Option<seq<Token>>)
    ensures Before([], rest) == rest
  {
    if rest.Some? {
      assert [] + rest.value == rest.value;
    }
  }

  /** One step of the positional lexer. */
  lemma LexFromStep(s: string, i: nat)
    requires i <= |s|
    ensures SkipFrom(s, i).None? ==> LexFrom(s, i) == None
    ensures SkipFrom(s, i) == Some(|s|) ==> LexFrom(s, i) == Some([END_TOKEN])
    ensures SkipFrom(s, i).Some? && SkipFrom(s, i).value < |s| ==>
              var next := LexTokenAt(s, SkipFrom(s, i).value);
              if next.None? then LexFrom(s, i) == None
              else LexFrom(s, i) == Before([next.value.0], LexFrom(s, next.value.1))
  {
    hide SkipFrom, LexTokenAt;
  }

  lemma BeforeNone(tokens: seq<Token>)
    ensures Before(tokens, None) == None
  {}

  lemma BeforeLast(tokens: seq<Token>, last: Token)
    ensures Before(tokens, Some([last])) == Some(tokens + [last])
  {}

  lemma BeforeTwice(tokens: seq<Token>, next: Token, rest: Option<seq<Token>>)
    ensures Before(tokens, Before([next], rest)) == Before(tokens + [next], rest)
  {
    if rest.Some? {
      assert tokens + ([next] + rest.value) == tokens + [next] + rest.value;
    }
  }

  /** A string decoded so far, put before the rest. */
  function Prepended(decoded: string, rest: Option<(string, nat)>): Option<(string, nat)> {
    if rest.None? then None else Some((decoded + rest.value.0, rest.value.1))
  }

  /** One step of the positional literal scan. */
  lemma StringStep(s: string, i: nat)
    requires i <= |s|
    ensures i == |s| ==> LexStringFrom(s, i).None?
    ensures i < |s| && s[i] == '"' ==> LexStringFrom(s, i) == Some(("", i + 1))
    ensures i + 1 == |s| && s[i] == '\\' ==> LexStringFrom(s, i).None?
    ensures i + 1 < |s| && s[i] == '\\' ==>
              LexStringFrom(s, i) ==
              if Unescape(s[i + 1]).None? then None
              else Prepended([Unescape(s[i + 1]).value], LexStringFrom(s, i + 2))
    ensures i < |s| && s[i] != '"' && s[i] != '\\' ==>
              var n := Utf8.SequenceLengthAt(s, i);
              LexStringFrom(s, i) == if n == 0 then None else Prepended(s[i..i + n], LexStringFrom(s, i + n))
  {
    hide Utf8.SequenceLengthAt;
  }

  lemma PrependedNothing(rest: Option<(string, nat)>)
    ensures Prepended("", rest) == rest
  {
    if rest.Some? {
      assert "" + rest.value.0 == rest.value.0;
    }
  }

  lemma PrependedTwice(a: string, b: string, rest: Option<(string, nat)>)
    ensures Prepended(a, Prepended(b, rest)) == Prepended(a + b, rest)
  {
    if rest.Some? {
      assert a + (b + rest.value.0) == a + b + rest.value.0;
    }
  }
}
