/** EIR-T tokenization: what the lexer cuts the source text into, as functions of a position. */
module EirLexer {
  import opened Basics
  import opened Numerals
  import Utf8

  datatype TokenKind =
    | Identifier | StringLiteral | IntegerLiteral
    | At | Dollar
    | LeftBrace | RightBrace | LeftParen | RightParen | LeftBracket | RightBracket
    | Colon | Semicolon | Comma
    | Equal | EqualEqual | NotEqual | Less | LessEqual | Greater | GreaterEqual
    | Arrow | End

  /** One token; `text` is its spelling, except that a string carries its decoded value. */
  datatype Token = Token(kind: TokenKind, text: string)

  const END_TOKEN := Token(End, "")

  predicate IsLetter(c: char) {
    'a' <= c <= 'z' || 'A' <= c <= 'Z'
  }

  predicate IsWordChar(c: char) {
    IsLetter(c) || IsDigit(c) || c == '_'
  }

  predicate IsBlank(c: char) {
    c == ' ' || c == '\t' || c == '\n' || c == '\r'
  }

  /** The byte at `i`, or NUL past the end. */
  function Peek(s: string, i: nat): char {
    if i < |s| then s[i] else '\0'
  }

  // ----- Identifiers -----

  /** Where the run of letters, digits and underscores beginning at `i` ends. */
  function SegmentEnd(s: string, i: nat): (e: nat)
    requires i <= |s|
    ensures i <= e <= |s|
    ensures e < |s| ==> !IsWordChar(s[e])
    decreases |s| - i
  {
    if i < |s| && IsWordChar(s[i]) then SegmentEnd(s, i + 1) else i
  }

  /** Where the dotted tail beginning at `i` ends: a dot continues only when a letter follows it. */
  function DottedEnd(s: string, i: nat): (e: nat)
    requires i <= |s|
    ensures i <= e <= |s|
    decreases |s| - i
  {
    if Peek(s, i) == '.' && IsLetter(Peek(s, i + 1)) then DottedEnd(s, SegmentEnd(s, i + 1)) else i
  }

  /** Where the qualified identifier beginning at `i` ends. */
  function IdentifierEnd(s: string, i: nat): (e: nat)
    requires i <= |s|
    ensures i <= e <= |s|
    ensures i < |s| && IsLetter(s[i]) ==> e > i
  {
    DottedEnd(s, SegmentEnd(s, i))
  }

  // ----- Strings and comments -----

  /** The character an escape letter stands for. */
  function Unescape(c: char): Option<char> {
    match c
    case '"' => Some('"')
    case '\\' => Some('\\')
    case 'n' => Some('\n')
    case 'r' => Some('\r')
    case 't' => Some('\t')
    case _ => None
  }

  /** The decoded rest of a string literal whose next byte is `s[i]`, and the position after its quote. */
  function LexStringFrom(s: string, i: nat): (r: Option<(string, nat)>)
    requires i <= |s|
    ensures r.Some? ==> i < r.value.1 <= |s|
    decreases |s| - i
  {
    if i == |s| then None
    else if s[i] == '"' then Some(("", i + 1))
    else if s[i] == '\\' then
      if i + 1 == |s| then None
      else
        var c :- Unescape(s[i + 1]);
        var (rest, e) :- LexStringFrom(s, i + 2);
        Some(([c] + rest, e))
    else
      var n := Utf8.SequenceLengthAt(s, i);
      if n == 0 then None
      else
        var (rest, e) :- LexStringFrom(s, i + n);
        Some((s[i..i + n] + rest, e))
  }

  /** The end of a line comment's text: the first newline, or the end of the source. */
  function LineCommentEnd(s: string, i: nat): (r: Option<nat>)
    requires i <= |s|
    ensures r.Some? ==> i <= r.value <= |s|
    decreases |s| - i
  {
    if i == |s| || s[i] == '\n' then Some(i)
    else
      var n := Utf8.SequenceLengthAt(s, i);
      if n == 0 then None else LineCommentEnd(s, i + n)
  }

  /** The position after the closing of a block comment whose text continues at `i`. */
  function BlockCommentEnd(s: string, i: nat): (r: Option<nat>)
    requires i <= |s|
    ensures r.Some? ==> i <= r.value <= |s|
    decreases |s| - i
  {
    if i == |s| then None
    else if s[i] == '*' && Peek(s, i + 1) == '/' then Some(i + 2)
    else
      var n := Utf8.SequenceLengthAt(s, i);
      if n == 0 then None else BlockCommentEnd(s, i + n)
  }

  /** Where the whitespace and comments beginning at `i` end; none when a comment is malformed. */
  function SkipFrom(s: string, i: nat): (r: Option<nat>)
    requires i <= |s|
    ensures r.Some? ==> i <= r.value <= |s|
    decreases |s| - i
  {
    if i == |s| then Some(i)
    else if IsBlank(s[i]) then SkipFrom(s, i + 1)
    else if s[i] != '/' then Some(i)
    else if Peek(s, i + 1) == '/' then
      var e :- LineCommentEnd(s, i + 2);
      SkipFrom(s, e)
    else if Peek(s, i + 1) == '*' then
      var e :- BlockCommentEnd(s, i + 2);
      SkipFrom(s, e)
    else Some(i)
  }

  // ----- One token, and the whole text -----

  /** The integer literal at `i`, whose first byte is a digit or a minus before a digit. */
  function LexInteger(s: string, i: nat): (r: Option<(Token, nat)>)
    requires i < |s|
    requires IsDigit(s[i]) || (s[i] == '-' && IsDigit(Peek(s, i + 1)))
    ensures r.Some? ==> i < r.value.1 <= |s|
  {
    var digits := if s[i] == '-' then i + 1 else i;
    var e := DigitsEnd(s, digits);
    var _ :- ReadInteger(s[i..e]);
    Some((Token(IntegerLiteral, s[i..e]), e))
  }

  /** The token kind of a byte that is a token by itself. */
  function Punctuation(c: char): Option<TokenKind> {
    match c
    case '@' => Some(At)
    case '$' => Some(Dollar)
    case '{' => Some(LeftBrace)
    case '}' => Some(RightBrace)
    case '(' => Some(LeftParen)
    case ')' => Some(RightParen)
    case '[' => Some(LeftBracket)
    case ']' => Some(RightBracket)
    case ':' => Some(Colon)
    case ';' => Some(Semicolon)
    case ',' => Some(Comma)
    case _ => None
  }

  /** The kind and length of an operator built from `=`, `!`, `<`, `>` and `-`. */
  function Operator(c: char, next: char): Option<(TokenKind, nat)> {
    match c
    case '=' => Some(if next == '=' then (EqualEqual, 2) else (Equal, 1))
    case '!' => if next == '=' then Some((NotEqual, 2)) else None
    case '<' => Some(if next == '=' then (LessEqual, 2) else (Less, 1))
    case '>' => Some(if next == '=' then (GreaterEqual, 2) else (Greater, 1))
    case '-' => if next == '>' then Some((Arrow, 2)) else None
    case _ => None
  }

  /** The token beginning at `i` and the position after it. */
  function LexTokenAt(s: string, i: nat): (r: Option<(Token, nat)>)
    requires i < |s|
    ensures r.Some? ==> i < r.value.1 <= |s|
  {
    var c := s[i];
    if IsLetter(c) then
      var e := IdentifierEnd(s, i);
      Some((Token(Identifier, s[i..e]), e))
    else if IsDigit(c) || (c == '-' && IsDigit(Peek(s, i + 1))) then LexInteger(s, i)
    else if c == '"' then
      var (text, e) :- LexStringFrom(s, i + 1);
      Some((Token(StringLiteral, text), e))
    else if Punctuation(c).Some? then Some((Token(Punctuation(c).value, [c]), i + 1))
    else
      var (kind, n) :- Operator(c, Peek(s, i + 1));
      Some((Token(kind, s[i..i + n]), i + n))
  }

  /** The tokens of `s[i..]`, closed by one end token; none when any part is malformed. */
  function LexFrom(s: string, i: nat): (r: Option<seq<Token>>)
    requires i <= |s|
    ensures r.Some? ==> |r.value| > 0 && r.value[|r.value| - 1] == END_TOKEN
    decreases |s| - i
  {
    var start :- SkipFrom(s, i);
    if start == |s| then Some([END_TOKEN])
    else
      var (token, e) :- LexTokenAt(s, start);
      var rest :- LexFrom(s, e);
      Some([token] + rest)
  }

  function Lex(s: string): Option<seq<Token>> {
    LexFrom(s, 0)
  }
}
