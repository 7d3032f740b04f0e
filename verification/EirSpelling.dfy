/** What the lexer takes for a token, against a lexical grammar: the spellings of each kind of token. */
module EirSpelling {
  import opened Basics
  import opened Numerals
  import opened EirLexer
  import opened EirCutting
  import Utf8

  // ----- The grammar -----

  /** The letters of ASCII, by their codes. */
  predicate Letter(c: char) {
    0x41 <= c as int <= 0x5A || 0x61 <= c as int <= 0x7A
  }

  predicate NameChar(c: char) {
    Letter(c) || 0x30 <= c as int <= 0x39 || c as int == 0x5F
  }

  /** A letter, and then letters, digits and underscores. */
  predicate IsSegment(t: string) {
    |t| > 0 && Letter(t[0]) && forall c <- t :: NameChar(c)
  }

  /** One segment, or several joined by dots. */
  predicate IsName(t: string)
    decreases |t|
  {
    IsSegment(t) || exists k | 0 <= k < |t| :: t[k] == '.' && IsSegment(t[..k]) && IsName(t[k + 1..])
  }

  /** What stands between the quotes, decoded: escapes, and characters other than the quote and the backslash. */
  function Decoded(raw: string): Option<string>
    decreases |raw|
  {
    if raw == "" then Some("")
    else if raw[0] == '\\' then
      if |raw| < 2 then None
      else
        var rest :- Decoded(raw[2..]);
        if raw[1] == '"' then Some("\"" + rest)
        else if raw[1] == '\\' then Some("\\" + rest)
        else if raw[1] == 'n' then Some("\n" + rest)
        else if raw[1] == 'r' then Some("\r" + rest)
        else if raw[1] == 't' then Some("\t" + rest)
        else None
    else if raw[0] == '"' || Utf8.SequenceLengthAt(raw, 0) == 0 then None
    else
      var n := Utf8.SequenceLengthAt(raw, 0);
      var rest :- Decoded(raw[n..]);
      Some(raw[..n] + rest)
  }

  /** The one spelling of a token that is no name, number or string. */
  function Mark(kind: TokenKind): string {
    match kind
    case At => "@"
    case Dollar => "$"
    case LeftBrace => "{"
    case RightBrace => "}"
    case LeftParen => "("
    case RightParen => ")"
    case LeftBracket => "["
    case RightBracket => "]"
    case Colon => ":"
    case Semicolon => ";"
    case Comma => ","
    case Equal => "="
    case EqualEqual => "=="
    case NotEqual => "!="
    case Less => "<"
    case LessEqual => "<="
    case Greater => ">"
    case GreaterEqual => ">="
    case Arrow => "->"
    case _ => ""
  }

  predicate SpellsString(text: string, value: string) {
    && |text| >= 2 && text[0] == '"' && text[|text| - 1] == '"'
    && Decoded(text[1..|text| - 1]) == Some(value)
  }

  /** The text is a spelling of the token. */
  predicate Spells(token: Token, text: string) {
    match token.kind
    case Identifier => token.text == text && IsName(text)
    case IntegerLiteral => token.text == text && ReadInteger(text).Some?
    case StringLiteral => SpellsString(text, token.text)
    case End => false
    case _ => token.text == text == Mark(token.kind)
  }

  // ----- Names -----

  lemma LettersAre(c: char)
    ensures Letter(c) <==> IsLetter(c)
    ensures NameChar(c) <==> IsWordChar(c)
  {}

  lemma {:induction false} SegmentEndIs(t: string, i: nat, k: nat)
    requires i <= k <= |t| && (forall m | i <= m < k :: IsWordChar(t[m])) && (k < |t| ==> !IsWordChar(t[k]))
    ensures SegmentEnd(t, i) == k
    decreases k - i
  {
    if i < k {
      SegmentEndIs(t, i + 1, k);
    }
  }

  lemma {:induction false} SegmentEndRuns(t: string, i: nat)
    requires i <= |t|
    ensures forall m | i <= m < SegmentEnd(t, i) :: IsWordChar(t[m])
    decreases |t| - i
  {
    if i < |t| && IsWordChar(t[i]) {
      SegmentEndRuns(t, i + 1);
    }
  }

  lemma SegmentOf(t: string, i: nat, k: nat)
    requires i < k <= |t|
    ensures IsSegment(t[i..k]) <==> IsLetter(t[i]) && forall m | i <= m < k :: IsWordChar(t[m])
  {
    var g := t[i..k];
    LettersAre(t[i]);
    forall m | i <= m < k ensures NameChar(g[m - i]) <==> IsWordChar(t[m]) {
      LettersAre(t[m]);
    }
    assert forall c <- g :: exists m | i <= m < k :: t[m] == c;
    assert forall m | i <= m < k :: t[m] == g[m - i] && g[m - i] in g;
  }

  lemma DottedStep(t: string, k: nat)
    requires k + 1 < |t| && t[k] == '.' && IsLetter(t[k + 1])
    ensures DottedEnd(t, k) == IdentifierEnd(t, k + 1)
  {}

  lemma DottedStops(t: string, k: nat)
    requires k <= |t| && !(Peek(t, k) == '.' && IsLetter(Peek(t, k + 1)))
    ensures DottedEnd(t, k) == k
  {}

  lemma SegmentIsTaken(t: string, i: nat, k: nat)
    requires i < k <= |t| && IsSegment(t[i..k]) && (k < |t| ==> t[k] == '.')
    ensures IsLetter(t[i]) && SegmentEnd(t, i) == k
  {
    hide IsWordChar, IsLetter, IsSegment, SegmentEnd;
    SegmentOf(t, i, k);
    NotADot();
    SegmentEndIs(t, i, k);
  }

  /** A name reaches as far as the lexer takes it. */
  lemma {:induction false} NameIsTaken(t: string, i: nat)
    requires i <= |t| && IsName(t[i..])
    ensures i < |t| && IsLetter(t[i]) && IdentifierEnd(t, i) == |t|
    decreases |t| - i
  {
    hide IsWordChar, IsLetter, IsSegment, SegmentEnd, DottedEnd, IsName;
    var g := t[i..];
    NameNotEmpty(g);
    if IsSegment(g) {
      assert t[i..|t|] == g;
      SegmentIsTaken(t, i, |t|);
      DottedStops(t, |t|);
    } else {
      var k := FirstSegment(g);
      assert t[i..i + k] == g[..k] && t[i + k + 1..] == g[k + 1..] && t[i + k] == '.';
      SegmentIsTaken(t, i, i + k);
      NameIsTaken(t, i + k + 1);
      DottedStep(t, i + k);
    }
  }

  lemma FirstSegment(g: string) returns (k: nat)
    requires IsName(g) && !IsSegment(g)
    ensures 0 < k < |g| && g[k] == '.' && IsSegment(g[..k]) && IsName(g[k + 1..])
  {
    k :| 0 <= k < |g| && g[k] == '.' && IsSegment(g[..k]) && IsName(g[k + 1..]);
    NameNotEmpty(g[..k]);
  }

  lemma NameNotEmpty(g: string)
    ensures IsName(g) || IsSegment(g) ==> g != ""
  {}

  lemma NotADot()
    ensures !IsWordChar('.') && !IsLetter('\0')
  {}

  /** What the lexer takes as an identifier is a name. */
  lemma {:induction false} TakenIsName(t: string, i: nat)
    requires i < |t| && IsLetter(t[i])
    ensures IsName(t[i..IdentifierEnd(t, i)])
    decreases |t| - i
  {
    hide IsWordChar, IsLetter, IsSegment;
    var k, e := SegmentEnd(t, i), IdentifierEnd(t, i);
    SegmentEndRuns(t, i);
    LetterIsWord(t[i]);
    SegmentOf(t, i, k);
    if Peek(t, k) == '.' && IsLetter(Peek(t, k + 1)) {
      NotADot();
      TakenIsName(t, k + 1);
      assert e == IdentifierEnd(t, k + 1);
      var g := t[i..e];
      assert g[k - i] == '.' && g[..k - i] == t[i..k] && g[k - i + 1..] == t[k + 1..e];
    }
  }

  lemma LetterIsWord(c: char)
    ensures IsLetter(c) ==> IsWordChar(c)
  {}

  /** Identifiers are exactly the names of the grammar. */
  lemma NamesExactly(t: string)
    ensures IsIdentifier(t) <==> IsName(t)
  {
    hide IsName, IdentifierEnd;
    assert t[0..] == t && t[..|t|] == t;
    if IsName(t) {
      NameIsTaken(t, 0);
    }
    if IsIdentifier(t) {
      TakenIsName(t, 0);
      assert t[0..|t|] == t;
    }
  }

  // ----- Strings -----

  /** A sequence is the same in a slice of the text. */
  lemma SequenceInSlice(s: string, i: nat, j: nat)
    requires i < j <= |s|
    ensures Utf8.SequenceLengthAt(s[i..j], 0) > 0 ==> Utf8.SequenceLengthAt(s, i) == Utf8.SequenceLengthAt(s[i..j], 0)
    ensures 0 < Utf8.SequenceLengthAt(s, i) <= j - i ==>
              Utf8.SequenceLengthAt(s[i..j], 0) == Utf8.SequenceLengthAt(s, i)
  {
    hide Utf8.SequenceLengthAt;
    var g := s[i..j];
    if Utf8.SequenceLengthAt(g, 0) > 0 {
      var n := Utf8.SequenceLengthAt(g, 0);
      assert s[i..i + n] == g[0..n];
      Utf8.SequenceLengthMoves(g, 0, s, i, n);
    }
    if 0 < Utf8.SequenceLengthAt(s, i) <= j - i {
      var n := Utf8.SequenceLengthAt(s, i);
      assert g[0..n] == s[i..i + n];
      Utf8.SequenceLengthMoves(s, i, g, 0, n);
    }
  }

  /** Text put before a decoded rest. */
  function Before(front: string, rest: Option<string>): Option<string> {
    if rest.None? then None else Some(front + rest.value)
  }

  lemma DecodedEscape(raw: string)
    requires |raw| >= 2 && raw[0] == '\\' && Unescape(raw[1]).Some?
    ensures Decoded(raw) == Before([Unescape(raw[1]).value], Decoded(raw[2..]))
  {}

  lemma DecodedPlain(raw: string, n: nat)
    requires raw != "" && raw[0] != '\\' && raw[0] != '"' && n == Utf8.SequenceLengthAt(raw, 0) > 0
    ensures Decoded(raw) == Before(raw[..n], Decoded(raw[n..]))
  {
    hide Utf8.SequenceLengthAt;
  }

  lemma DecodedEnds()
    ensures Decoded("") == Some("")
  {}

  /** The three ways a literal goes on. */
  lemma StringGoesOn(s: string, i: nat)
    requires i <= |s| && LexStringFrom(s, i).Some?
    ensures i < |s|
    ensures var (text, e) := LexStringFrom(s, i).value;
            if s[i] == '"' then text == "" && e == i + 1
            else if s[i] == '\\' then
              && i + 1 < |s| && Unescape(s[i + 1]).Some? && LexStringFrom(s, i + 2).Some?
              && LexStringFrom(s, i + 2).value.1 == e
              && text == [Unescape(s[i + 1]).value] + LexStringFrom(s, i + 2).value.0
            else
              var n := Utf8.SequenceLengthAt(s, i);
              && n > 0 && LexStringFrom(s, i + n).Some? && LexStringFrom(s, i + n).value.1 == e
              && text == s[i..i + n] + LexStringFrom(s, i + n).value.0
  {
    hide Utf8.SequenceLengthAt, Unescape;
  }

  /** What the lexer reads as a string decodes to what it gives. */
  lemma {:induction false} StringTaken(s: string, i: nat)
    requires i <= |s| && LexStringFrom(s, i).Some?
    ensures var (text, e) := LexStringFrom(s, i).value;
            s[e - 1] == '"' && Decoded(s[i..e - 1]) == Some(text)
    decreases |s| - i
  {
    hide Utf8.SequenceLengthAt, LexStringFrom, Decoded, Unescape;
    StringGoesOn(s, i);
    var (text, e) := LexStringFrom(s, i).value;
    var raw := s[i..e - 1];
    if s[i] == '"' {
      DecodedEnds();
      assert raw == "";
    } else if s[i] == '\\' {
      StringTaken(s, i + 2);
      assert raw[0] == s[i] && raw[1] == s[i + 1] && raw[2..] == s[i + 2..e - 1];
      DecodedEscape(raw);
    } else {
      var n := Utf8.SequenceLengthAt(s, i);
      StringTaken(s, i + n);
      SequenceInSlice(s, i, e - 1);
      assert raw[0] == s[i] && raw[n..] == s[i + n..e - 1] && raw[..n] == s[i..i + n];
      DecodedPlain(raw, n);
    }
  }

  /** The ways a decoded text goes on. */
  lemma DecodedGoesOn(raw: string)
    requires raw != "" && Decoded(raw).Some?
    ensures raw[0] != '"'
    ensures raw[0] == '\\' ==> |raw| >= 2 && Unescape(raw[1]).Some?
    ensures raw[0] != '\\' ==> Utf8.SequenceLengthAt(raw, 0) > 0
  {
    hide Utf8.SequenceLengthAt;
  }

  lemma StringEscape(s: string, i: nat)
    requires i + 1 < |s| && s[i] == '\\' && Unescape(s[i + 1]).Some? && LexStringFrom(s, i + 2).Some?
    ensures var (rest, e) := LexStringFrom(s, i + 2).value;
            LexStringFrom(s, i) == Some(([Unescape(s[i + 1]).value] + rest, e))
  {
    hide Unescape;
  }

  lemma StringPlain(s: string, i: nat, n: nat)
    requires i < |s| && s[i] != '\\' && s[i] != '"' && n == Utf8.SequenceLengthAt(s, i) > 0
    requires LexStringFrom(s, i + n).Some?
    ensures var (rest, e) := LexStringFrom(s, i + n).value;
            LexStringFrom(s, i) == Some((s[i..i + n] + rest, e))
  {
    hide Utf8.SequenceLengthAt;
  }

  lemma StringEnds(s: string, i: nat)
    requires i < |s| && s[i] == '"'
    ensures LexStringFrom(s, i) == Some(("", i + 1))
  {}

  lemma SliceOfSlice(s: string, i: nat, j: nat, n: nat)
    requires i + n <= j <= |s|
    ensures s[i..j][n..] == s[i + n..j] && s[i..j][..n] == s[i..i + n]
  {}

  /** What decodes is read as a string. */
  lemma {:induction false} StringDecodes(s: string, i: nat, j: nat)
    requires i <= j < |s| && s[j] == '"' && Decoded(s[i..j]).Some?
    ensures LexStringFrom(s, i) == Some((Decoded(s[i..j]).value, j + 1))
    decreases j - i
  {
    hide Utf8.SequenceLengthAt, LexStringFrom, Decoded, Unescape;
    var raw := s[i..j];
    if i == j {
      DecodedEnds();
      StringEnds(s, i);
      assert raw == "";
    } else {
      DecodedGoesOn(raw);
      if s[i] == '\\' {
        SliceOfSlice(s, i, j, 2);
        DecodedEscape(raw);
        StringDecodes(s, i + 2, j);
        StringEscape(s, i);
      } else {
        var n := Utf8.SequenceLengthAt(raw, 0);
        SequenceInSlice(s, i, j);
        SliceOfSlice(s, i, j, n);
        DecodedPlain(raw, n);
        StringDecodes(s, i + n, j);
        StringPlain(s, i, n);
      }
    }
  }

  // ----- Tokens -----

  lemma PunctuationMarks(c: char)
    ensures Punctuation(c).Some? ==> Mark(Punctuation(c).value) == [c]
  {}

  lemma OperatorMarks(c: char, next: char)
    ensures Operator(c, next).Some? ==>
              var (kind, n) := Operator(c, next).value;
              Mark(kind) == (if n == 1 then [c] else [c, next]) && 1 <= n <= 2 && (n == 2 ==> next != '\0')
  {}

  lemma StringIsSpelled(s: string, i: nat, value: string, e: nat)
    requires i < |s| && s[i] == '"' && LexStringFrom(s, i + 1) == Some((value, e))
    ensures SpellsString(s[i..e], value)
  {
    hide LexStringFrom, Decoded;
    StringTaken(s, i + 1);
    Quoted(s, i, e);
  }

  lemma Quoted(s: string, i: nat, e: nat)
    requires i + 2 <= e <= |s|
    ensures var text := s[i..e];
            text[0] == s[i] && text[|text| - 1] == s[e - 1] && text[1..|text| - 1] == s[i + 1..e - 1]
  {
    var text := s[i..e];
    assert forall k | 0 <= k < |text| :: text[k] == s[i + k];
    var inner := text[1..|text| - 1];
    assert |inner| == e - 1 - (i + 1) && forall k | 0 <= k < |inner| :: inner[k] == s[i + 1 + k];
  }

  /** Whatever token the lexer takes, the text it takes is a spelling of it. */
  lemma TakenIsSpelled(s: string, i: nat)
    requires i < |s| && LexTokenAt(s, i).Some?
    ensures var (token, e) := LexTokenAt(s, i).value;
            Spells(token, s[i..e])
  {
    hide LexStringFrom, IdentifierEnd, SpellsString, IsName, IsLetter, IsDigit, ReadInteger, Mark;
    var c := s[i];
    if IsLetter(c) {
      TakenIsName(s, i);
    } else if IsDigit(c) || (c == '-' && IsDigit(Peek(s, i + 1))) {
    } else if c == '"' {
      var (value, e) := LexStringFrom(s, i + 1).value;
      StringIsSpelled(s, i, value, e);
    } else if Punctuation(c).Some? {
      PunctuationMarks(c);
      NoneIsWord(c);
      assert s[i..i + 1] == [c];
    } else {
      var next := Peek(s, i + 1);
      OperatorMarks(c, next);
      NoOperatorIsWord(c, next);
      var n := Operator(c, next).value.1;
      assert s[i..i + n] == if n == 1 then [c] else [c, next];
    }
  }

  lemma NoneIsWord(c: char)
    ensures Punctuation(c).Some? ==> Punctuation(c).value !in {Identifier, IntegerLiteral, StringLiteral, End}
  {}

  lemma NoOperatorIsWord(c: char, next: char)
    ensures Operator(c, next).Some? ==>
              Operator(c, next).value.0 !in {Identifier, IntegerLiteral, StringLiteral, End}
  {}

  /** A spelling by itself is read as the one token it spells. */
  lemma SpelledIsTaken(token: Token, text: string)
    requires Spells(token, text)
    ensures text != "" && LexTokenAt(text, 0) == Some((token, |text|))
  {
    hide LexStringFrom, IdentifierEnd, Decoded, IsName, ReadInteger, DigitsEnd;
    match token.kind
    case Identifier =>
      assert text[0..] == text && text[0..|text|] == text;
      NameIsTaken(text, 0);
    case IntegerLiteral => IntegerIsTaken(text);
    case StringLiteral =>
      StringDecodes(text, 1, |text| - 1);
    case _ => MarkIsTaken(token.kind);
  }

  lemma {:induction false} DigitsReach(s: string, i: nat)
    requires i <= |s| && forall k | i <= k < |s| :: IsDigit(s[k])
    ensures DigitsEnd(s, i) == |s|
    decreases |s| - i
  {
    if i < |s| {
      DigitsReach(s, i + 1);
    }
  }

  lemma IntegerIsTaken(text: string)
    requires ReadInteger(text).Some?
    ensures text != "" && LexTokenAt(text, 0) == Some((Token(IntegerLiteral, text), |text|))
  {
    hide DigitsValue;
    var i := if text[0] == '-' then 1 else 0;
    forall k | i <= k < |text| ensures IsDigit(text[k]) {
      assert text[k] in if text[0] == '-' then text[1..] else text;
    }
    DigitsReach(text, i);
    assert text[0..|text|] == text;
  }

  lemma MarkIsTaken(kind: TokenKind)
    requires Mark(kind) != ""
    ensures LexTokenAt(Mark(kind), 0) == Some((Token(kind, Mark(kind)), |Mark(kind)|))
  {
    var text := Mark(kind);
    assert text[0..|text|] == text;
  }
}
