/** Call carriers, exactly: which ones read back, and which parsed calls the scanner accepts once rendered. */
module CarrierExact {
  import opened Basics
  import opened Numerals
  import opened Expressions
  import opened EirLexer
  import opened EirCutting
  import opened EirParser
  import opened CanonicalCall
  import EirScanner
  import EirUtf8
  import Utf8

  /** A written carrier reads back, and as the identical string, exactly when it is well-formed UTF-8. */
  lemma CarrierReadsBackExactly(text: string, allowBareName: bool)
    requires WriteCarrier(text, allowBareName).Some?
    ensures ReadCarrier(WriteCarrier(text, allowBareName).value) == Some(text) <==> Utf8.WellFormed(text)
    ensures ReadCarrier(WriteCarrier(text, allowBareName).value).Some? <==> Utf8.WellFormed(text)
  {
    hide ParseValue, Render, IsCanonicalCall, LexFrom, Utf8.WellFormedFrom;
    if Utf8.WellFormed(text) {
      CarrierRoundTrip(text, allowBareName);
    } else if Lex(text).Some? {
      EirUtf8.LexedIsUtf8(text, 0);
    }
  }

  // ----- What the value grammar produces -----

  /** Every name of a value is an identifier, and nothing but values stands in it. */
  predicate Named(e: Expression) {
    match e.kind
    case String | Integer | Bool => true
    case Reference | Symbol => IsIdentifier(e.text)
    case Call => IsIdentifier(e.text) && forall operand <- e.operands :: Named(operand)
    case _ => false
  }

  /** No string of a value holds a line break. */
  predicate Unbroken(e: Expression) {
    match e.kind
    case String => !HasLineBreak(e.text)
    case Call => forall operand <- e.operands :: Unbroken(operand)
    case _ => true
  }

  lemma {:induction false} NamedIsRenderable(e: Expression)
    requires Named(e) && Unbroken(e)
    ensures Renderable(e)
    decreases e
  {
    hide IsIdentifier;
    if e.kind == Call {
      forall operand <- e.operands ensures Renderable(operand) {
        NamedIsRenderable(operand);
      }
    }
  }

  predicate WordsAreNames(ts: seq<Token>) {
    forall t <- ts :: t.kind == Identifier ==> IsIdentifier(t.text)
  }

  lemma TokenIsName(s: string, i: nat)
    requires i < |s| && LexTokenAt(s, i).Some?
    ensures var t := LexTokenAt(s, i).value.0; t.kind == Identifier ==> IsIdentifier(t.text)
  {
    hide IsIdentifier, IdentifierEnd, LexInteger, LexStringFrom;
    if IsLetter(s[i]) {
      EirScanner.LongestIsIdentifier(s, i);
    } else {
      MarksAreNoNames(s, i);
    }
  }

  lemma MarksAreNoNames(s: string, i: nat)
    requires i < |s| && !IsLetter(s[i]) && LexTokenAt(s, i).Some?
    ensures LexTokenAt(s, i).value.0.kind != Identifier
  {
    hide DigitsEnd, LexStringFrom, ReadInteger;
  }

  lemma {:induction false} LexedWords(s: string, i: nat)
    requires i <= |s| && LexFrom(s, i).Some?
    ensures WordsAreNames(LexFrom(s, i).value)
    decreases |s| - i
  {
    hide SkipFrom, LexTokenAt, IsIdentifier;
    var start := SkipFrom(s, i).value;
    if start < |s| {
      TokenIsName(s, start);
      LexedWords(s, LexTokenAt(s, start).value.1);
    }
  }

  lemma {:induction false} ParsedIsNamed(ts: seq<Token>, p: nat)
    requires p < |ts| && EirParser.Closed(ts) && WordsAreNames(ts) && ParseValue(ts, p).Some?
    ensures Named(ParseValue(ts, p).value.0)
    decreases |ts| - p, 0
  {
    hide IsIdentifier, ParseValueList, ReadInteger;
    assert ts[p] in ts && (p + 1 < |ts| ==> ts[p + 1] in ts);
    if ts[p].kind == Identifier && ts[p + 1].kind == LeftParen {
      ParsedListIsNamed(ts, p + 2);
    }
  }

  lemma {:induction false} ParsedListIsNamed(ts: seq<Token>, p: nat)
    requires p < |ts| && EirParser.Closed(ts) && WordsAreNames(ts) && ParseValueList(ts, p).Some?
    ensures forall e <- ParseValueList(ts, p).value.0 :: Named(e)
    decreases |ts| - p, 2
  {
    hide Named, ParseValues, WordsAreNames;
    if ts[p].kind != RightParen {
      ParsedValuesAreNamed(ts, p);
    }
  }

  lemma {:induction false} ParsedValuesAreNamed(ts: seq<Token>, p: nat)
    requires p < |ts| && EirParser.Closed(ts) && WordsAreNames(ts) && ParseValues(ts, p).Some?
    ensures forall e <- ParseValues(ts, p).value.0 :: Named(e)
    decreases |ts| - p, 1
  {
    hide Named, ParseValue, WordsAreNames;
    ParsedIsNamed(ts, p);
    var q := ParseValue(ts, p).value.1;
    if ts[q].kind == Comma {
      ParsedValuesAreNamed(ts, q + 1);
    }
  }

  /** Every value the reader produces has identifiers for names. */
  lemma ReadIsNamed(text: string)
    requires ReadValue(text).Some?
    ensures Named(ReadValue(text).value)
  {
    hide LexFrom, ParseValue, Named, WordsAreNames;
    LexedWords(text, 0);
    ParsedIsNamed(Lex(text).value, 0);
  }

  // ----- The scanner passes over no line break -----

  predicate Broken(c: char) {
    c == '\n' || c == '\r'
  }

  predicate NoneBroken(s: string, i: nat, j: nat)
    requires j <= |s|
  {
    forall k | i <= k < j :: !Broken(s[k])
  }

  lemma {:induction false} StringUnbroken(s: string, i: nat)
    requires i <= |s| && ScanString(s, i).Some?
    ensures NoneBroken(s, i, ScanString(s, i).value)
    decreases |s| - i
  {
    if s[i] == '\\' {
      StringUnbroken(s, i + 2);
    } else if s[i] != '"' {
      StringUnbroken(s, i + 1);
    }
  }

  lemma NameUnbroken(s: string, i: nat)
    requires i <= |s|
    ensures NoneBroken(s, i, IdentifierEnd(s, i))
  {
    hide IdentifierEnd;
    forall k | i <= k < IdentifierEnd(s, i) ensures !Broken(s[k]) {
      EirScanner.IdentifierChars(s, i, k);
    }
  }

  lemma {:induction false} DigitsUnbroken(s: string, i: nat)
    requires i <= |s|
    ensures NoneBroken(s, i, DigitsEnd(s, i))
    decreases |s| - i
  {
    if i < |s| && IsDigit(s[i]) {
      DigitsUnbroken(s, i + 1);
    }
  }

  lemma IntegerUnbroken(s: string, i: nat)
    requires i < |s| && (s[i] == '-' || IsDigit(s[i])) && ScanInteger(s, i).Some?
    ensures NoneBroken(s, i, ScanInteger(s, i).value)
  {
    hide DigitsEnd, ReadInteger, Spelling;
    DigitsUnbroken(s, if s[i] == '-' then i + 1 else i);
  }

  lemma {:induction false} CallUnbroken(s: string, i: nat)
    requires i <= |s| && ScanCall(s, i).Some?
    ensures NoneBroken(s, i, ScanCall(s, i).value)
    decreases |s| - i, 0
  {
    hide IdentifierEnd, ScanArguments;
    NameUnbroken(s, i);
    var open := ScanIdentifier(s, i).value;
    if Peek(s, open + 1) != ')' {
      ArgumentsUnbroken(s, open + 1);
    }
  }

  lemma {:induction false} ArgumentsUnbroken(s: string, i: nat)
    requires i <= |s| && ScanArguments(s, i).Some?
    ensures NoneBroken(s, i, ScanArguments(s, i).value)
    decreases |s| - i, 2
  {
    hide ScanValue;
    ValueUnbroken(s, i);
    var e := ScanValue(s, i).value;
    if Peek(s, e) != ')' {
      ArgumentsUnbroken(s, e + 2);
    }
  }

  lemma {:induction false} ValueUnbroken(s: string, i: nat)
    requires i <= |s| && ScanValue(s, i).Some?
    ensures NoneBroken(s, i, ScanValue(s, i).value)
    decreases |s| - i, 1
  {
    hide IdentifierEnd, ScanCall, ScanInteger, ScanString;
    if s[i] == '"' {
      StringUnbroken(s, i + 1);
    } else if s[i] == '-' || IsDigit(s[i]) {
      IntegerUnbroken(s, i);
    } else {
      NameUnbroken(s, i);
      if Peek(s, IdentifierEnd(s, i)) == '(' {
        CallUnbroken(s, i);
      }
    }
  }

  // ----- A broken string shows in the rendering -----

  lemma {:induction false} EscapeKeepsBreaks(t: string, k: nat)
    requires k <= |t| && exists i :: k <= i < |t| && Broken(t[i])
    ensures HasLineBreak(EscapeFrom(t, k, false))
    decreases |t| - k
  {
    hide EscapeFrom;
    EscapeStep(t, k, false);
    var unit, tail := EscapeByte(t[k], false), EscapeFrom(t, k + 1, false);
    if Broken(t[k]) {
      assert unit == [t[k]] && (unit + tail)[0] == t[k];
    } else {
      EscapeKeepsBreaks(t, k + 1);
    }
  }

  lemma {:induction false} BreakShows(e: Expression)
    requires Named(e) && !Unbroken(e)
    ensures HasLineBreak(Render(e))
    decreases e, 1
  {
    hide IsIdentifier;
    if e.kind == String {
      hide EscapeFrom;
      var i :| 0 <= i < |e.text| && Broken(e.text[i]);
      EscapeKeepsBreaks(e.text, 0);
      assert Quote(e.text, false) == "\"" + EscapeFrom(e.text, 0, false) + "\"";
    } else {
      BreakShowsAmong(e.operands);
    }
  }

  lemma {:induction false} BreakShowsAmong(es: seq<Expression>)
    requires (forall e <- es :: Named(e)) && (exists e <- es :: !Unbroken(e))
    ensures HasLineBreak(RenderAll(es))
    decreases es, 0
  {
    hide Named, Unbroken, Render;
    assert es == [es[0]] + es[1..];
    if !Unbroken(es[0]) {
      BreakShows(es[0]);
    } else {
      BreakShowsAmong(es[1..]);
    }
  }

  /** A call the reader produced is accepted, once rendered, exactly when no string of it holds a line break. */
  lemma ParsedIsAcceptedExactly(text: string)
    requires ReadValue(text).Some? && ReadValue(text).value.kind == Call
    ensures IsCanonicalCall(Render(ReadValue(text).value)) <==> Unbroken(ReadValue(text).value)
  {
    hide ReadValue, Render, Unbroken, ScanCall;
    var e := ReadValue(text).value;
    ReadIsNamed(text);
    if Unbroken(e) {
      NamedIsRenderable(e);
      RenderedIsAccepted(e);
    } else {
      BreakShows(e);
      if IsCanonicalCall(Render(e)) {
        CallUnbroken(Render(e), 0);
      }
    }
  }
}
