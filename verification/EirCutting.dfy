/** How written spellings are cut back into tokens, one spelling at a time. */
module EirCutting {
  import opened Basics
  import opened Numerals
  import opened EirLexer
  import opened Expressions
  import Utf8

  /** Read from `i`, the lexer yields `tokens` and then whatever it yields from `j`. */
  ghost predicate Cuts(s: string, i: nat, j: nat, tokens: seq<Token>)
    requires i <= |s| && j <= |s|
  {
    LexFrom(s, i) == match LexFrom(s, j) { case None => None case Some(rest) => Some(tokens + rest) }
  }

  lemma CutsNothing(s: string, i: nat)
    requires i <= |s|
    ensures Cuts(s, i, i, [])
  {
    if LexFrom(s, i).Some? {
      assert [] + LexFrom(s, i).value == LexFrom(s, i).value;
    }
  }

  /** Cutting the whole text is lexing it. */
  lemma WholeText(s: string, tokens: seq<Token>)
    requires Cuts(s, 0, |s|, tokens)
    ensures Lex(s) == Some(tokens + [END_TOKEN])
  {}

  lemma CutsThen(s: string, i: nat, j: nat, k: nat, left: seq<Token>, right: seq<Token>)
    requires i <= |s| && j <= |s| && k <= |s|
    requires Cuts(s, i, j, left) && Cuts(s, j, k, right)
    ensures Cuts(s, i, k, left + right)
  {
    if LexFrom(s, k).Some? {
      assert left + (right + LexFrom(s, k).value) == (left + right) + LexFrom(s, k).value;
    }
  }

  /** The byte at `j` cannot extend an identifier or an integer that ends there. */
  predicate Boundary(s: string, j: nat) {
    j < |s| ==> !IsWordChar(s[j]) && s[j] != '.'
  }

  lemma CutsBlank(s: string, i: nat)
    requires i < |s| && IsBlank(s[i])
    ensures Cuts(s, i, i + 1, [])
  {
    CutsNothing(s, i + 1);
    assert LexFrom(s, i) == LexFrom(s, i + 1);
  }

  /** A token that begins at a visible byte other than a slash is cut off whole. */
  lemma CutsToken(s: string, i: nat, token: Token, j: nat)
    requires i < |s| && !IsBlank(s[i]) && s[i] != '/'
    requires LexTokenAt(s, i) == Some((token, j))
    ensures Cuts(s, i, j, [token])
  {}

  lemma CutsPunctuation(s: string, i: nat)
    requires i < |s| && Punctuation(s[i]).Some?
    ensures Cuts(s, i, i + 1, [Token(Punctuation(s[i]).value, [s[i]])])
  {
    CutsToken(s, i, Token(Punctuation(s[i]).value, [s[i]]), i + 1);
  }

  // ----- Identifiers -----

  /** `Identifier { "." Identifier }`: the whole text is one qualified identifier. */
  predicate IsIdentifier(t: string) {
    |t| > 0 && IsLetter(t[0]) && IdentifierEnd(t, 0) == |t|
  }

  lemma {:induction false} SegmentEndMoves(t: string, k: nat, s: string, i: nat)
    requires k <= |t| && Occurs(s, i, t) && Boundary(s, i + |t|)
    ensures SegmentEnd(s, i + k) == i + SegmentEnd(t, k)
    decreases |t| - k
  {
    if k < |t| {
      OccursAt(s, i, t, k);
      if IsWordChar(t[k]) {
        SegmentEndMoves(t, k + 1, s, i);
      }
    }
  }

  lemma {:induction false} DottedEndMoves(t: string, k: nat, s: string, i: nat)
    requires k <= |t| && Occurs(s, i, t) && Boundary(s, i + |t|)
    ensures DottedEnd(s, i + k) == i + DottedEnd(t, k)
    decreases |t| - k
  {
    hide SegmentEnd;
    if k < |t| { OccursAt(s, i, t, k); }
    if k + 1 < |t| { OccursAt(s, i, t, k + 1); }
    if Peek(t, k) == '.' && IsLetter(Peek(t, k + 1)) {
      SegmentEndMoves(t, k + 1, s, i);
      DottedEndMoves(t, SegmentEnd(t, k + 1), s, i);
    }
  }

  lemma CutsIdentifier(s: string, i: nat, t: string)
    requires IsIdentifier(t) && Occurs(s, i, t) && Boundary(s, i + |t|)
    ensures Cuts(s, i, i + |t|, [Token(Identifier, t)])
  {
    hide Cuts, SegmentEnd, DottedEnd;
    OccursAt(s, i, t, 0);
    SegmentEndMoves(t, 0, s, i);
    DottedEndMoves(t, SegmentEnd(t, 0), s, i);
    CutsToken(s, i, Token(Identifier, t), i + |t|);
  }

  /** The keywords and literals the writer spells are identifiers to the lexer. */
  lemma WordIsIdentifier(t: string)
    requires |t| > 0 && forall c <- t :: IsLetter(c)
    ensures IsIdentifier(t)
  {
    WordSegment(t, 0);
  }

  lemma {:induction false} WordSegment(t: string, k: nat)
    requires k <= |t| && forall c <- t :: IsLetter(c)
    ensures SegmentEnd(t, k) == |t|
    decreases |t| - k
  {
    if k < |t| {
      assert t[k] in t;
      WordSegment(t, k + 1);
    }
  }

  // ----- Integers -----

  lemma LexesInteger(s: string, i: nat, v: int64)
    requires Occurs(s, i, Spelling(v)) && Boundary(s, i + |Spelling(v)|)
    ensures IsDigit(s[i]) || (s[i] == '-' && IsDigit(Peek(s, i + 1)))
    ensures LexInteger(s, i) == Some((Token(IntegerLiteral, Spelling(v)), i + |Spelling(v)|))
  {
    hide ReadInteger, Decimal;
    SpellingReads(v);
    OccursAt(s, i, Spelling(v), 0);
    if v < 0 {
      LexesNegative(s, i, Decimal(-(v as int)));
    } else {
      var digits := Decimal(v as int);
      assert digits[0] in digits;
      DigitsEndIs(s, i, digits);
    }
  }

  lemma LexesNegative(s: string, i: nat, digits: string)
    requires digits != [] && (forall c <- digits :: IsDigit(c))
    requires Occurs(s, i, "-" + digits) && Boundary(s, i + 1 + |digits|)
    requires ReadInteger("-" + digits).Some?
    ensures s[i] == '-' && IsDigit(Peek(s, i + 1))
    ensures LexInteger(s, i) == Some((Token(IntegerLiteral, "-" + digits), i + 1 + |digits|))
  {
    hide ReadInteger;
    OccursSplit(s, i, "-", digits);
    OccursAt(s, i, "-", 0);
    OccursAt(s, i + 1, digits, 0);
    assert digits[0] in digits;
    assert i + 1 + |digits| == i + |"-" + digits|;
    DigitsEndIs(s, i + 1, digits);
  }

  lemma CutsInteger(s: string, i: nat, v: int64)
    requires Occurs(s, i, Spelling(v)) && Boundary(s, i + |Spelling(v)|)
    ensures Cuts(s, i, i + |Spelling(v)|, [Token(IntegerLiteral, Spelling(v))])
  {
    hide Spelling, LexInteger, Cuts, Occurs, Boundary;
    LexesInteger(s, i, v);
    CutsToken(s, i, Token(IntegerLiteral, Spelling(v)), i + |Spelling(v)|);
  }

  // ----- Comparison operators -----

  function ComparisonKind(t: string): TokenKind
    requires IsComparisonOperator(t)
  {
    if t == "==" then EqualEqual
    else if t == "!=" then NotEqual
    else if t == "<" then Less
    else if t == "<=" then LessEqual
    else if t == ">" then Greater
    else GreaterEqual
  }

  lemma CutsComparison(s: string, i: nat, t: string)
    requires IsComparisonOperator(t) && Occurs(s, i, t + " ")
    ensures Cuts(s, i, i + |t|, [Token(ComparisonKind(t), t)])
  {
    OccursSplit(s, i, t, " ");
    OccursAt(s, i + |t|, " ", 0);
    OccursAt(s, i, t, 0);
    if |t| == 2 { OccursAt(s, i, t, 1); }
    assert t == "<" || t == ">" || |t| == 2;
    CutsToken(s, i, Token(ComparisonKind(t), t), i + |t|);
  }

  // ----- String literals -----

  /** One byte inside a literal. The EIR-T writer escapes line breaks and tabs as well (`full`);
      the call renderer escapes only the quote and the backslash. */
  function EscapeByte(c: char, full: bool): string {
    if c == '"' then "\\\""
    else if c == '\\' then "\\\\"
    else if full && c == '\n' then "\\n"
    else if full && c == '\r' then "\\r"
    else if full && c == '\t' then "\\t"
    else [c]
  }

  function EscapeFrom(t: string, k: nat, full: bool): string
    requires k <= |t|
    decreases |t| - k
  {
    if k == |t| then "" else EscapeByte(t[k], full) + EscapeFrom(t, k + 1, full)
  }

  function Quote(t: string, full: bool): (q: string)
    ensures |q| >= 2
  {
    "\"" + EscapeFrom(t, 0, full) + "\""
  }

  lemma EscapeStep(t: string, k: nat, full: bool)
    requires k < |t|
    ensures EscapeFrom(t, k, full) == EscapeByte(t[k], full) + EscapeFrom(t, k + 1, full)
  {}

  lemma Append3<T>(x: seq<T>, y: seq<T>, z: seq<T>)
    ensures x + (y + z) == (x + y) + z
  {}

  /** Bytes beyond ASCII are never escaped. */
  lemma {:induction false} EscapePlain(t: string, k: nat, n: nat, full: bool)
    requires k + n <= |t| && forall m :: k <= m < k + n ==> t[m] as int >= 0x80
    ensures EscapeFrom(t, k, full) == t[k..k + n] + EscapeFrom(t, k + n, full)
    decreases n
  {
    hide EscapeFrom;
    var rest := EscapeFrom(t, k + n, full);
    if n == 0 {
      assert t[k..k] + rest == rest;
    } else {
      EscapePlain(t, k + 1, n - 1, full);
      EscapeStep(t, k, full);
      assert EscapeByte(t[k], full) == [t[k]];
      Append3([t[k]], t[k + 1..k + n], rest);
      assert t[k..k + n] == [t[k]] + t[k + 1..k + n];
    }
  }

  /** One ASCII byte of a literal, escaped or not, is read back as itself. */
  lemma LexesEscapedByte(s: string, i: nat, t: string, k: nat, full: bool, e: nat)
    requires k < |t| && t[k] as int < 0x80
    requires Occurs(s, i, EscapeByte(t[k], full))
    requires LexStringFrom(s, i + |EscapeByte(t[k], full)|) == Some((t[k + 1..], e))
    ensures LexStringFrom(s, i) == Some((t[k..], e))
  {
    var unit := EscapeByte(t[k], full);
    OccursAt(s, i, unit, 0);
    assert t[k..] == [t[k]] + t[k + 1..];
    if |unit| == 2 {
      OccursAt(s, i, unit, 1);
      assert Unescape(unit[1]) == Some(t[k]);
    } else {
      assert Utf8.SequenceLengthAt(s, i) == 1;
    }
  }

  /** One sequence beyond ASCII is copied through the literal. */
  lemma LexesPlain(s: string, i: nat, t: string, k: nat, n: nat, e: nat)
    requires k < |t| && t[k] as int >= 0x80 && n == Utf8.SequenceLengthAt(t, k) > 0
    requires Occurs(s, i, t[k..k + n])
    requires LexStringFrom(s, i + n) == Some((t[k + n..], e))
    ensures LexStringFrom(s, i) == Some((t[k..], e))
  {
    OccursAt(s, i, t[k..k + n], 0);
    Utf8.SequenceLengthMoves(t, k, s, i, n);
    assert t[k..] == t[k..k + n] + t[k + n..];
  }

  lemma LexesClosing(s: string, i: nat, t: string, full: bool)
    requires Occurs(s, i, EscapeFrom(t, |t|, full) + "\"")
    ensures LexStringFrom(s, i) == Some((t[|t|..], i + |EscapeFrom(t, |t|, full)| + 1))
  {
    OccursAt(s, i, "\"", 0);
    assert t[|t|..] == "";
  }

  lemma {:induction false} LexesEscaped(s: string, i: nat, t: string, k: nat, full: bool)
    requires k <= |t| && Utf8.WellFormedFrom(t, k)
    requires Occurs(s, i, EscapeFrom(t, k, full) + "\"")
    ensures LexStringFrom(s, i) == Some((t[k..], i + |EscapeFrom(t, k, full)| + 1))
    decreases |t| - k
  {
    hide Utf8.SequenceLengthAt, EscapeFrom, EscapeByte, LexStringFrom;
    if k == |t| {
      LexesClosing(s, i, t, full);
    } else {
      var n := if t[k] as int < 0x80 then 1 else Utf8.SequenceLengthAt(t, k);
      var unit := if t[k] as int < 0x80 then EscapeByte(t[k], full) else t[k..k + n];
      var tail := EscapeFrom(t, k + n, full);
      if t[k] as int < 0x80 { EscapeStep(t, k, full); } else { EscapePlain(t, k, n, full); }
      Append3(unit, tail, "\"");
      OccursSplit(s, i, unit, tail + "\"");
      LexesEscaped(s, i + |unit|, t, k + n, full);
      var e := i + |unit| + |tail| + 1;
      if t[k] as int < 0x80 { LexesEscapedByte(s, i, t, k, full, e); } else { LexesPlain(s, i, t, k, n, e); }
    }
  }

  lemma CutsString(s: string, i: nat, t: string, full: bool)
    requires Utf8.WellFormed(t) && Occurs(s, i, Quote(t, full))
    ensures Cuts(s, i, i + |Quote(t, full)|, [Token(StringLiteral, t)])
  {
    hide Cuts, EscapeFrom, LexStringFrom;
    var body := EscapeFrom(t, 0, full) + "\"";
    assert Quote(t, full) == "\"" + body;
    OccursSplit(s, i, "\"", body);
    OccursAt(s, i, "\"", 0);
    LexesEscaped(s, i + 1, t, 0, full);
    assert t[0..] == t;
    CutsToken(s, i, Token(StringLiteral, t), i + |Quote(t, full)|);
  }
}
