/** The canonical call spelling: what the writer's scanner accepts is a fixpoint of parse-then-render. */
module CanonicalCall {
  import opened Basics
  import opened Numerals
  import opened Expressions
  import opened EirLexer
  import opened EirCutting
  import opened EirWriter
  import opened EirTokens
  import opened EirParser
  import opened EirRoundTrip
  import Utf8

  // ----- Rendering -----

  /** The spelling a call carrier is lowered to: references are written bare. */
  function Render(e: Expression): string
    decreases e, 1
  {
    match e.kind
    case String => Quote(e.text, false)
    case Integer => Spelling(e.integer)
    case Bool => BooleanWord(e.boolean)
    case Call => e.text + "(" + RenderAll(e.operands) + ")"
    case _ => e.text
  }

  function RenderAll(es: seq<Expression>): string
    decreases es, 0
  {
    if es == [] then ""
    else if |es| == 1 then Render(es[0])
    else Render(es[0]) + ", " + RenderAll(es[1..])
  }

  // ----- Scanning -----

  function ScanIdentifier(s: string, i: nat): (r: Option<nat>)
    requires i <= |s|
    ensures r.Some? ==> i < r.value <= |s|
  {
    if i < |s| && IsLetter(s[i]) then Some(IdentifierEnd(s, i)) else None
  }

  function ScanCall(s: string, i: nat): (r: Option<nat>)
    requires i <= |s|
    ensures r.Some? ==> i < r.value <= |s|
    decreases |s| - i, 0
  {
    var open :- ScanIdentifier(s, i);
    if Peek(s, open) != '(' then None
    else if Peek(s, open + 1) == ')' then Some(open + 2)
    else ScanArguments(s, open + 1)
  }

  function ScanArguments(s: string, i: nat): (r: Option<nat>)
    requires i <= |s|
    ensures r.Some? ==> i < r.value <= |s|
    decreases |s| - i, 2
  {
    var e :- ScanValue(s, i);
    if Peek(s, e) == ')' then Some(e + 1)
    else if Peek(s, e) == ',' && Peek(s, e + 1) == ' ' then ScanArguments(s, e + 2)
    else None
  }

  function ScanValue(s: string, i: nat): (r: Option<nat>)
    requires i <= |s|
    ensures r.Some? ==> i < r.value <= |s|
    decreases |s| - i, 1
  {
    if i == |s| then None
    else if s[i] == '"' then ScanString(s, i + 1)
    else if s[i] == '-' || IsDigit(s[i]) then ScanInteger(s, i)
    else
      var e :- ScanIdentifier(s, i);
      if Peek(s, e) == '(' then ScanCall(s, i) else Some(e)
  }

  /** The rest of a string argument whose next byte is `s[i]`. */
  function ScanString(s: string, i: nat): (r: Option<nat>)
    requires i <= |s|
    ensures r.Some? ==> i < r.value <= |s|
    decreases |s| - i
  {
    if i == |s| then None
    else if s[i] == '"' then Some(i + 1)
    else if s[i] == '\n' || s[i] == '\r' then None
    else if s[i] == '\\' then
      if Peek(s, i + 1) == '"' || Peek(s, i + 1) == '\\' then ScanString(s, i + 2) else None
    else ScanString(s, i + 1)
  }

  /** An integer argument, accepted only in the spelling `std::to_string` gives its value. */
  function ScanInteger(s: string, i: nat): (r: Option<nat>)
    requires i < |s|
    ensures r.Some? ==> i < r.value <= |s|
  {
    var e := DigitsEnd(s, if s[i] == '-' then i + 1 else i);
    var value :- ReadInteger(s[i..e]);
    if Spelling(value) == s[i..e] then Some(e) else None
  }

  predicate IsCanonicalCall(s: string) {
    ScanCall(s, 0) == Some(|s|)
  }

  // ----- Reading back -----

  /** Reads one property value that takes up the whole text. */
  function ReadValue(text: string): Option<Expression> {
    var ts :- Lex(text);
    var (e, p) :- ParseValue(ts, 0);
    if ts[p].kind == End then Some(e) else None
  }

  // ----- Strings -----

  lemma {:induction false} EscapeShift(u: string, t: string, k: nat, full: bool)
    requires k <= |t|
    ensures EscapeFrom(u + t, |u| + k, full) == EscapeFrom(t, k, full)
    decreases |t| - k
  {
    hide EscapeByte;
    if k < |t| {
      assert (u + t)[|u| + k] == t[k];
      EscapeShift(u, t, k + 1, full);
      EscapeStep(t, k, full);
      EscapeStep(u + t, |u| + k, full);
    }
  }

  /** Bytes beyond ASCII mean nothing to the scanner. */
  lemma {:induction false} ScanPlain(s: string, i: nat, n: nat)
    requires i + n <= |s| && forall m :: i <= m < i + n ==> s[m] as int >= 0x80
    ensures ScanString(s, i) == ScanString(s, i + n)
    decreases n
  {
    if n > 0 {
      ScanPlain(s, i + 1, n - 1);
    }
  }

  /** `text` is what the lexer decodes between `i` and the quote before `e`, and its rendering is what stands there. */
  ghost predicate Decodes(s: string, i: nat, text: string, e: nat) {
    && i < e <= |s|
    && LexStringFrom(s, i) == Some((text, e))
    && s[i..e] == EscapeFrom(text, 0, false) + "\""
  }

  lemma DecodesUnit(s: string, i: nat, j: nat, unit: string, text: string, e: nat)
    requires i < j <= |s| && Decodes(s, j, text, e)
    requires EscapeFrom(unit, 0, false) == s[i..j]
    requires LexStringFrom(s, i) == Some((unit + text, e))
    ensures Decodes(s, i, unit + text, e)
  {
    hide LexStringFrom;
    EscapeConcat(unit, text, 0, false);
    assert s[i..e] == s[i..j] + s[j..e];
  }

  lemma {:induction false} EscapeConcat(u: string, t: string, k: nat, full: bool)
    requires k <= |u|
    ensures EscapeFrom(u + t, k, full) == EscapeFrom(u, k, full) + EscapeFrom(t, 0, full)
    decreases |u| - k
  {
    if k == |u| {
      EscapeShift(u, t, 0, full);
    } else {
      hide EscapeByte, EscapeFrom;
      EscapeStep(u, k, full);
      EscapeStep(u + t, k, full);
      assert (u + t)[k] == u[k];
      EscapeConcat(u, t, k + 1, full);
      Append3(EscapeByte(u[k], full), EscapeFrom(u, k + 1, full), EscapeFrom(t, 0, full));
    }
  }

  lemma EscapeOne(c: char)
    requires c != '"' && c != '\\'
    ensures EscapeFrom([c], 0, false) == [c]
  {}

  lemma EscapeSpecial(c: char)
    requires c == '"' || c == '\\'
    ensures EscapeFrom([c], 0, false) == ['\\', c]
  {}

  /** A scanned string argument is decoded by the lexer to a text whose rendering is the argument itself. */
  lemma {:induction false} ScannedString(s: string, i: nat, e: nat) returns (text: string)
    requires i <= |s| && Utf8.WellFormedFrom(s, i) && ScanString(s, i) == Some(e)
    ensures Decodes(s, i, text, e) && Utf8.WellFormedFrom(s, e)
    decreases |s| - i
  {
    if s[i] == '"' {
      text := "";
      assert s[i..e] == "\"";
    } else if s[i] == '\\' {
      var rest := ScannedString(s, i + 2, e);
      text := [s[i + 1]] + rest;
      EscapeSpecial(s[i + 1]);
      assert s[i..i + 2] == [s[i], s[i + 1]];
      ReadsSpecial(s, i, rest, e);
      DecodesUnit(s, i, i + 2, [s[i + 1]], rest, e);
    } else {
      var n := Utf8.SequenceLengthAt(s, i);
      if n > 1 { ScanPlain(s, i, n); }
      var rest := ScannedString(s, i + n, e);
      text := s[i..i + n] + rest;
      EscapeRaw(s, i, n);
      DecodesUnit(s, i, i + n, s[i..i + n], rest, e);
    }
  }

  lemma ReadsSpecial(s: string, i: nat, rest: string, e: nat)
    requires i + 2 <= |s| && s[i] == '\\' && (s[i + 1] == '"' || s[i + 1] == '\\')
    requires LexStringFrom(s, i + 2) == Some((rest, e))
    ensures LexStringFrom(s, i) == Some(([s[i + 1]] + rest, e))
  {}

  lemma EscapeRaw(s: string, i: nat, n: nat)
    requires i < |s| && n == Utf8.SequenceLengthAt(s, i) > 0 && s[i] != '"' && s[i] != '\\'
    ensures EscapeFrom(s[i..i + n], 0, false) == s[i..i + n]
  {
    var unit := s[i..i + n];
    if n == 1 {
      assert unit == [s[i]];
      EscapeOne(s[i]);
    } else {
      forall m | 0 <= m < n ensures unit[m] as int >= 0x80 { assert unit[m] == s[i + m]; }
      EscapePlain(unit, 0, n, false);
      assert unit[0..n] == unit;
      assert EscapeFrom(unit, n, false) == "";
    }
  }

  // ----- Accepted spellings -----

  /** `v` is a value whose tokens the lexer cuts between `i` and `e`, and whose rendering stands there. */
  ghost predicate Spells(s: string, i: nat, e: nat, v: Expression) {
    && i <= e <= |s|
    && Shaped(v) && WriteValue(v).Some?
    && Cuts(s, i, e, ValueTokens(v))
    && s[i..e] == Render(v)
  }

  ghost predicate SpellsAll(s: string, i: nat, e: nat, vs: seq<Expression>) {
    && i <= e <= |s| && vs != []
    && (forall v <- vs :: Shaped(v)) && WriteValues(vs).Some?
    && Cuts(s, i, e, ValuesTokens(vs))
    && s[i..e] == RenderAll(vs)
  }

  /** A byte below 0x80 is a sequence of its own. */
  lemma PastAscii(s: string, i: nat)
    requires i < |s| && s[i] as int < 0x80 && Utf8.WellFormedFrom(s, i)
    ensures Utf8.WellFormedFrom(s, i + 1)
  {}

  lemma {:induction false} PastSegment(s: string, i: nat)
    requires i <= |s| && Utf8.WellFormedFrom(s, i)
    ensures Utf8.WellFormedFrom(s, SegmentEnd(s, i))
    decreases |s| - i
  {
    if i < |s| && IsWordChar(s[i]) {
      PastAscii(s, i);
      PastSegment(s, i + 1);
    }
  }

  lemma {:induction false} PastDotted(s: string, i: nat)
    requires i <= |s| && Utf8.WellFormedFrom(s, i)
    ensures Utf8.WellFormedFrom(s, DottedEnd(s, i))
    decreases |s| - i
  {
    if Peek(s, i) == '.' && IsLetter(Peek(s, i + 1)) {
      PastAscii(s, i);
      PastSegment(s, i + 1);
      PastDotted(s, SegmentEnd(s, i + 1));
    }
  }

  lemma {:induction false} PastDigits(s: string, i: nat)
    requires i <= |s| && Utf8.WellFormedFrom(s, i)
    ensures Utf8.WellFormedFrom(s, DigitsEnd(s, i))
    decreases |s| - i
  {
    if i < |s| && IsDigit(s[i]) {
      PastAscii(s, i);
      PastDigits(s, i + 1);
    }
  }

  /** What the scanner takes for an identifier is one, and the lexer agrees on its end. */
  lemma ScannedName(s: string, i: nat, e: nat)
    requires i < |s| && IsLetter(s[i]) && e == IdentifierEnd(s, i) && Boundary(s, e)
    requires Utf8.WellFormedFrom(s, i)
    ensures IsIdentifier(s[i..e]) && Occurs(s, i, s[i..e]) && Utf8.WellFormedFrom(s, e)
  {
    var t := s[i..e];
    SegmentEndMoves(t, 0, s, i);
    DottedEndMoves(t, SegmentEnd(t, 0), s, i);
    PastSegment(s, i);
    PastDotted(s, SegmentEnd(s, i));
  }

  lemma SpellsName(s: string, i: nat, e: nat) returns (v: Expression)
    requires i < |s| && IsLetter(s[i]) && e == IdentifierEnd(s, i) && Boundary(s, e)
    requires Utf8.WellFormedFrom(s, i)
    ensures Spells(s, i, e, v) && Utf8.WellFormedFrom(s, e)
  {
    hide Cuts, IsIdentifier, Utf8.WellFormedFrom;
    ScannedName(s, i, e);
    CutsIdentifier(s, i, s[i..e]);
    v := NameValue(s[i..e]);
  }

  lemma SpellsInteger(s: string, i: nat, e: nat) returns (v: Expression)
    requires i < |s| && ScanInteger(s, i) == Some(e) && Boundary(s, e) && Utf8.WellFormedFrom(s, i)
    ensures Spells(s, i, e, v) && Utf8.WellFormedFrom(s, e)
  {
    hide Cuts, ReadInteger, Spelling, Utf8.WellFormedFrom;
    var value := ReadInteger(s[i..e]).value;
    v := Expression(Integer, "", value, false, []);
    CutsInteger(s, i, value);
    if s[i] == '-' {
      PastAscii(s, i);
      PastDigits(s, i + 1);
    } else {
      PastDigits(s, i);
    }
  }

  lemma SpellsString(s: string, i: nat, e: nat) returns (v: Expression)
    requires i < |s| && s[i] == '"' && ScanString(s, i + 1) == Some(e) && Utf8.WellFormedFrom(s, i)
    ensures Spells(s, i, e, v) && Utf8.WellFormedFrom(s, e)
  {
    hide Cuts, ScanString, LexStringFrom, Utf8.WellFormedFrom;
    PastAscii(s, i);
    var text := ScannedString(s, i + 1, e);
    v := Make(String, text, []);
    CutsToken(s, i, Token(StringLiteral, text), e);
    assert s[i..e] == "\"" + s[i + 1..e];
  }

  lemma {:induction false} SpellsValue(s: string, i: nat, e: nat) returns (v: Expression)
    requires i <= |s| && Utf8.WellFormedFrom(s, i) && ScanValue(s, i) == Some(e)
    requires e < |s| && (s[e] == ',' || s[e] == ')')
    ensures Spells(s, i, e, v) && Utf8.WellFormedFrom(s, e)
    decreases |s| - i, 1
  {
    hide Utf8.WellFormedFrom, ScanCall, ScanInteger, ScanString, Spells;
    if s[i] == '"' {
      v := SpellsString(s, i, e);
    } else if s[i] == '-' || IsDigit(s[i]) {
      v := SpellsInteger(s, i, e);
    } else if Peek(s, IdentifierEnd(s, i)) == '(' {
      v := SpellsCall(s, i, e);
    } else {
      v := SpellsName(s, i, e);
    }
  }

  lemma {:induction false} SpellsCall(s: string, i: nat, e: nat) returns (v: Expression)
    requires i <= |s| && Utf8.WellFormedFrom(s, i) && ScanCall(s, i) == Some(e)
    ensures Spells(s, i, e, v) && v.kind == Call && Utf8.WellFormedFrom(s, e)
    decreases |s| - i, 0
  {
    hide Utf8.WellFormedFrom, ScanArguments, Spells, IsIdentifier, Occurs, Cuts;
    var open := IdentifierEnd(s, i);
    var name := s[i..open];
    ScannedName(s, i, open);
    PastAscii(s, open);
    if Peek(s, open + 1) == ')' {
      v := Make(Call, name, []);
      PastAscii(s, open + 1);
      CutsNothing(s, open + 1);
      SpellsCallOf(s, i, name, open + 1, []);
    } else {
      var arguments := SpellsArguments(s, open + 1, e);
      v := Make(Call, name, arguments);
      SpellsCallOf(s, i, name, e - 1, arguments);
    }
  }

  lemma SpellsCallOf(s: string, i: nat, name: string, close: nat, arguments: seq<Expression>)
    requires IsIdentifier(name) && i + |name| + 1 <= close < |s| && Occurs(s, i, name)
    requires s[i + |name|] == '(' && s[close] == ')'
    requires (forall v <- arguments :: Shaped(v)) && WriteValues(arguments).Some?
    requires Cuts(s, i + |name| + 1, close, ValuesTokens(arguments))
    requires s[i + |name| + 1..close] == RenderAll(arguments)
    ensures Spells(s, i, close + 1, Make(Call, name, arguments))
  {
    hide Cuts, ValuesTokens, RenderAll, WriteValues, Shaped;
    var v := Make(Call, name, arguments);
    var inner := RenderAll(arguments);
    assert name != "" by { assert |name| > 0; }
    assert s[i..close + 1] == name + "(" + inner + ")";
    CutsCall(s, i, name, inner, ValuesTokens(arguments));
    ShapedCall(name, arguments);
  }

  lemma ShapedCall(name: string, arguments: seq<Expression>)
    requires name != "" && forall v <- arguments :: Shaped(v)
    ensures Shaped(Make(Call, name, arguments))
  {}

  lemma {:induction false} SpellsArguments(s: string, i: nat, e: nat) returns (vs: seq<Expression>)
    requires i <= |s| && Utf8.WellFormedFrom(s, i) && ScanArguments(s, i) == Some(e)
    ensures s[e - 1] == ')' && SpellsAll(s, i, e - 1, vs) && Utf8.WellFormedFrom(s, e)
    decreases |s| - i, 2
  {
    hide Utf8.WellFormedFrom, ScanValue, Spells, SpellsAll;
    var close := ScanValue(s, i).value;
    var v := SpellsValue(s, i, close);
    PastAscii(s, close);
    if s[close] == ')' {
      vs := [v];
      SpellsLast(s, i, close, v);
    } else {
      PastAscii(s, close + 1);
      var rest := SpellsArguments(s, close + 2, e);
      vs := [v] + rest;
      SpellsMore(s, i, close, v, e - 1, rest);
    }
  }

  lemma SpellsLast(s: string, i: nat, close: nat, v: Expression)
    requires Spells(s, i, close, v)
    ensures SpellsAll(s, i, close, [v])
  {
    hide Cuts, Render, WriteValue, ValueTokens, Shaped;
    assert WriteValues([v][1..]) == Some("");
  }

  lemma SpellsMore(s: string, i: nat, close: nat, v: Expression, e: nat, rest: seq<Expression>)
    requires Spells(s, i, close, v) && close + 2 <= |s| && s[close] == ',' && s[close + 1] == ' '
    requires SpellsAll(s, close + 2, e, rest)
    ensures SpellsAll(s, i, e, [v] + rest)
  {
    hide Cuts, Render, WriteValue, ValueTokens, Shaped;
    var vs := [v] + rest;
    assert vs[1..] == rest;
    assert s[close..close + 2] == ", ";
    CutsComma(s, close);
    CutsJoin(s, i, close, close + 2, e, ValueTokens(v), [COMMA], ValuesTokens(rest));
    assert s[i..e] == s[i..close] + ", " + s[close + 2..e];
  }

  /** Every well-formed spelling the scanner accepts reads back as a call that renders to it. */
  lemma AcceptedIsFixpoint(s: string)
    requires Utf8.WellFormed(s) && IsCanonicalCall(s)
    ensures ReadValue(s).Some? && ReadValue(s).value.kind == Call && Render(ReadValue(s).value) == s
  {
    hide ParseValue, ValueTokens, WriteValue, Shaped, Render, ScanCall, Utf8.WellFormedFrom;
    var v := SpellsCall(s, 0, |s|);
    var ts := ValueTokens(v) + [END_TOKEN];
    assert ts[0..|ValueTokens(v)|] == ValueTokens(v);
    ParsesValue(v, ts, 0);
    assert s[0..|s|] == s;
  }

  // ----- Rendered calls -----

  predicate HasLineBreak(t: string) {
    '\n' in t || '\r' in t
  }

  /** A value whose names are identifiers and whose strings hold no line break. */
  predicate Renderable(e: Expression) {
    match e.kind
    case String => !HasLineBreak(e.text)
    case Integer | Bool => true
    case Reference | Symbol => IsIdentifier(e.text)
    case Call => IsIdentifier(e.text) && forall operand <- e.operands :: Renderable(operand)
    case _ => false
  }

  lemma ScansName(t: string, s: string, i: nat)
    requires IsIdentifier(t) && Stands(s, i, t)
    ensures i < |s| && IsLetter(s[i]) && IdentifierEnd(s, i) == i + |t|
  {
    OccursAt(s, i, t, 0);
    SegmentEndMoves(t, 0, s, i);
    DottedEndMoves(t, SegmentEnd(t, 0), s, i);
  }

  lemma {:induction false} ScansString(t: string, k: nat, s: string, i: nat)
    requires !HasLineBreak(t) && k <= |t| && Occurs(s, i, EscapeFrom(t, k, false) + "\"")
    ensures ScanString(s, i) == Some(i + |EscapeFrom(t, k, false)| + 1)
    decreases |t| - k
  {
    if k == |t| {
      OccursAt(s, i, "\"", 0);
    } else {
      hide EscapeFrom;
      var unit, tail := EscapeByte(t[k], false), EscapeFrom(t, k + 1, false);
      EscapeStep(t, k, false);
      Append3(unit, tail, "\"");
      OccursSplit(s, i, unit, tail + "\"");
      OccursAt(s, i, unit, 0);
      if |unit| == 2 { OccursAt(s, i, unit, 1); }
      assert t[k] in t;
      ScansString(t, k + 1, s, i + |unit|);
    }
  }

  lemma ScansInteger(v: int64, s: string, i: nat)
    requires Stands(s, i, Spelling(v))
    ensures i < |s| && (s[i] == '-' || IsDigit(s[i]))
    ensures ScanInteger(s, i) == Some(i + |Spelling(v)|)
  {
    hide ReadInteger, Spelling;
    LexesInteger(s, i, v);
    SpellingReads(v);
  }

  /** The spelling stands at `i`, followed by what may follow an argument. */
  predicate StandsAsArgument(s: string, i: nat, t: string) {
    Occurs(s, i, t) && i + |t| < |s| && (s[i + |t|] == ',' || s[i + |t|] == ')')
  }

  lemma {:induction false} ScansValue(e: Expression, s: string, i: nat)
    requires Renderable(e) && StandsAsArgument(s, i, Render(e))
    ensures ScanValue(s, i) == Some(i + |Render(e)|)
    ensures i < |s| && s[i] != ')'
    decreases e, 1
  {
    hide IsIdentifier, ScanInteger, ScanString, ScanCall, Spelling, Quote, IdentifierEnd;
    match e.kind
    case String => ScansQuoted(e.text, s, i);
    case Integer => ScansInteger(e.integer, s, i);
    case Bool =>
      WordIsIdentifier(BooleanWord(e.boolean));
      ScansName(BooleanWord(e.boolean), s, i);
    case Call =>
      ScansCall(e, s, i);
      OpensCall(e.text, RenderAll(e.operands), s, i);
    case Reference | Symbol => ScansName(e.text, s, i);
  }

  lemma ScansQuoted(t: string, s: string, i: nat)
    requires !HasLineBreak(t) && Occurs(s, i, Quote(t, false))
    ensures s[i] == '"' && ScanString(s, i + 1) == Some(i + |Quote(t, false)|)
  {
    hide ScanString, EscapeFrom;
    var body := EscapeFrom(t, 0, false) + "\"";
    assert Quote(t, false) == "\"" + body;
    OccursSplit(s, i, "\"", body);
    OccursAt(s, i, "\"", 0);
    ScansString(t, 0, s, i + 1);
  }

  lemma OpensCall(name: string, inner: string, s: string, i: nat)
    requires IsIdentifier(name) && Occurs(s, i, name + "(" + inner + ")")
    ensures IsLetter(s[i]) && IdentifierEnd(s, i) == i + |name| && s[i + |name|] == '('
  {
    hide IsIdentifier, IdentifierEnd;
    InsideCall(s, i, name, inner);
    InsideParens(s, i + |name|, inner);
    OccursAt(s, i + |name|, "(", 0);
    ScansName(name, s, i);
  }

  lemma {:induction false} ScansCall(e: Expression, s: string, i: nat)
    requires e.kind == Call && Renderable(e) && Occurs(s, i, Render(e))
    ensures ScanCall(s, i) == Some(i + |Render(e)|)
    decreases e, 0
  {
    hide IsIdentifier, ScanArguments, IdentifierEnd, Occurs;
    var inner := RenderAll(e.operands);
    var open := i + |e.text|;
    OpensCall(e.text, inner, s, i);
    InsideCall(s, i, e.text, inner);
    InsideParens(s, open, inner);
    OccursAt(s, open + 1 + |inner|, ")", 0);
    if e.operands != [] {
      ScansArguments(e.operands, s, open + 1);
    }
  }

  lemma {:induction false} ScansArguments(es: seq<Expression>, s: string, i: nat)
    requires es != [] && (forall e <- es :: Renderable(e)) && Occurs(s, i, RenderAll(es))
    requires i + |RenderAll(es)| < |s| && s[i + |RenderAll(es)|] == ')'
    ensures ScanArguments(s, i) == Some(i + |RenderAll(es)| + 1)
    ensures s[i] != ')'
    decreases es, 0
  {
    hide ScanValue, Render, Renderable;
    if |es| == 1 {
      ScansValue(es[0], s, i);
    } else {
      var first, rest := Render(es[0]), RenderAll(es[1..]);
      ListParts(s, i, first, ", ", rest);
      OccursAt(s, i + |first|, ", ", 0);
      OccursAt(s, i + |first|, ", ", 1);
      ScansValue(es[0], s, i);
      ScansArguments(es[1..], s, i + |first| + 2);
    }
  }

  /** Every rendered call without a line break in a string argument is accepted. */
  lemma RenderedIsAccepted(e: Expression)
    requires e.kind == Call && Renderable(e)
    ensures IsCanonicalCall(Render(e))
  {
    OccursWhole(Render(e));
    ScansCall(e, Render(e), 0);
  }

  // ----- Carriers -----

  /** `AssumptionSource` and `ResolutionAction`: a canonical call, or a bare name where one is allowed. */
  function WriteCarrier(text: string, allowBareName: bool): Option<string> {
    if HasLineBreak(text) then None
    else if allowBareName && IsIdentifier(text) && !IsBooleanSpelling(text) then Some(text)
    else if IsCanonicalCall(text) then Some(text)
    else None
  }

  /** `ParseCallOrQualifiedId` over a whole text: a call is lowered to its spelling. */
  function ReadCarrier(text: string): Option<string> {
    var value :- ReadValue(text);
    if value.kind == Call then Some(Render(value))
    else if value.kind == Symbol then Some(value.text)
    else None
  }

  /** Every carrier the writer emits reads back as the identical string. */
  lemma CarrierRoundTrip(text: string, allowBareName: bool)
    requires Utf8.WellFormed(text) && WriteCarrier(text, allowBareName).Some?
    ensures ReadCarrier(WriteCarrier(text, allowBareName).value) == Some(text)
  {
    hide ReadValue, Render, IsCanonicalCall;
    if allowBareName && IsIdentifier(text) && !IsBooleanSpelling(text) {
      ReadsName(text);
    } else {
      AcceptedIsFixpoint(text);
    }
  }

  lemma ReadsName(text: string)
    requires IsIdentifier(text) && !IsBooleanSpelling(text)
    ensures ReadValue(text) == Some(Make(Symbol, text, []))
  {
    OccursWhole(text);
    CutsIdentifier(text, 0, text);
    assert LexFrom(text, |text|) == Some([END_TOKEN]);
    assert Lex(text) == Some([Word(text)] + [END_TOKEN]);
    assert [Word(text)] + [END_TOKEN] == [Word(text), END_TOKEN];
  }
}
