/** The canonical call scanner and the writer's identifier test, as they run. */
module EirScanner {
  import opened Basics
  import opened Numerals
  import opened EirLexer
  import opened EirCutting
  import CanonicalCall

  // ----- Identifiers -----

  /** Advances over letters, digits and underscores. */
  method ConsumeSegment(text: string, index: nat) returns (end: nat)
    requires index <= |text|
    ensures end == SegmentEnd(text, index)
  {
    end := index;
    while end < |text| && IsWordChar(text[end])
      invariant index <= end <= |text| && SegmentEnd(text, end) == SegmentEnd(text, index)
    {
      end := end + 1;
    }
  }

  /** Whether the whole text is one qualified identifier. */
  method TestIdentifier(text: string) returns (ok: bool)
    ensures ok <==> IsIdentifier(text)
  {
    if |text| == 0 || !IsLetter(text[0]) {
      return false;
    }
    var index := ConsumeSegment(text, 1);
    assert IdentifierEnd(text, 0) == DottedEnd(text, index);
    while index < |text| && text[index] == '.'
      invariant index <= |text| && DottedEnd(text, index) == IdentifierEnd(text, 0)
      decreases |text| - index
    {
      if index + 1 >= |text| || !IsLetter(text[index + 1]) {
        break;
      }
      index := ConsumeSegment(text, index + 1);
    }
    return index == |text|;
  }

  predicate IsRunChar(c: char) {
    IsWordChar(c) || c == '.'
  }

  /** A segment seen through a prefix of the text ends where it does in the text, or at the prefix's end. */
  lemma {:induction false} SegmentInPrefix(s: string, i: nat, n: nat, k: nat)
    requires i + n <= |s| && k <= n
    ensures var e := SegmentEnd(s[i..i + n], k);
            && (e < n ==> SegmentEnd(s, i + k) == i + e)
            && (e == n ==> SegmentEnd(s, i + k) >= i + n)
    decreases n - k
  {
    if k < n {
      assert s[i..i + n][k] == s[i + k];
      SegmentInPrefix(s, i, n, k + 1);
    }
  }

  lemma {:induction false} DottedInPrefix(s: string, i: nat, n: nat, k: nat)
    requires i + n <= |s| && k <= n
    ensures DottedEnd(s[i..i + n], k) == n ==> DottedEnd(s, i + k) >= i + n
    ensures DottedEnd(s, i + k) == i + n ==> DottedEnd(s[i..i + n], k) == n
    decreases n - k
  {
    hide SegmentEnd;
    var t := s[i..i + n];
    assert Peek(t, k) == if k < n then s[i + k] else '\0';
    assert Peek(t, k + 1) == if k + 1 < n then s[i + k + 1] else '\0';
    if k + 1 < n && s[i + k] == '.' && IsLetter(s[i + k + 1]) {
      SegmentInPrefix(s, i, n, k + 1);
      DottedInPrefix(s, i, n, SegmentEnd(t, k + 1));
    } else if k < n && Peek(s, i + k) == '.' && IsLetter(Peek(s, i + k + 1)) {
      LetterExtends(s, i + n);
    }
  }

  /** A segment that begins with a letter is not empty. */
  lemma LetterExtends(s: string, i: nat)
    requires i < |s| && IsLetter(s[i])
    ensures SegmentEnd(s, i) > i
  {}

  /** An identifier that begins a text is part of the longest one that does. */
  lemma IdentifierInPrefix(s: string, i: nat, n: nat)
    requires i + n <= |s| && IsIdentifier(s[i..i + n])
    ensures IsLetter(s[i]) && IdentifierEnd(s, i) >= i + n
  {
    hide SegmentEnd, DottedEnd;
    var t := s[i..i + n];
    assert t[0] == s[i];
    SegmentInPrefix(s, i, n, 0);
    DottedInPrefix(s, i, n, SegmentEnd(t, 0));
  }

  /** The longest identifier at a letter is one by itself. */
  lemma LongestIsIdentifier(s: string, i: nat)
    requires i < |s| && IsLetter(s[i])
    ensures IsIdentifier(s[i..IdentifierEnd(s, i)])
  {
    hide SegmentEnd, DottedEnd;
    var n := IdentifierEnd(s, i) - i;
    var t := s[i..i + n];
    assert t[0] == s[i];
    SegmentInPrefix(s, i, n, 0);
    DottedInPrefix(s, i, n, SegmentEnd(t, 0));
  }

  lemma {:induction false} SegmentChars(s: string, i: nat, j: nat)
    requires i <= |s| && i <= j < SegmentEnd(s, i)
    ensures IsRunChar(s[j])
    decreases j - i
  {
    if i < j {
      SegmentChars(s, i + 1, j);
    }
  }

  lemma {:induction false} DottedChars(s: string, i: nat, j: nat)
    requires i <= |s| && i <= j < DottedEnd(s, i)
    ensures IsRunChar(s[j])
    decreases |s| - i
  {
    hide SegmentEnd;
    var e := SegmentEnd(s, i + 1);
    if i < j < e {
      SegmentChars(s, i + 1, j);
    } else if j >= e {
      DottedChars(s, e, j);
    }
  }

  lemma IdentifierChars(s: string, i: nat, j: nat)
    requires i <= |s| && i <= j < IdentifierEnd(s, i)
    ensures IsRunChar(s[j])
  {
    hide SegmentEnd, DottedEnd;
    if j < SegmentEnd(s, i) {
      SegmentChars(s, i, j);
    } else {
      DottedChars(s, SegmentEnd(s, i), j);
    }
  }

  // ----- Integers -----

  /** Reads a signed integer, refusing before any step that would leave the range of its magnitude. */
  method ParseInteger(spelling: string) returns (value: Option<int64>)
    requires forall c <- (if |spelling| > 0 && spelling[0] == '-' then spelling[1..] else spelling) :: IsDigit(c)
    ensures value == ReadInteger(spelling)
  {
    var negative := |spelling| > 0 && spelling[0] == '-';
    var digits := if negative then spelling[1..] else spelling;
    if digits == [] {
      return None;
    }
    var limit := if negative then INT64_MAX + 1 else INT64_MAX;
    var magnitude := 0;
    for i := 0 to |digits|
      invariant forall c <- digits[..i] :: IsDigit(c)
      invariant magnitude == DigitsValue(digits[..i]) <= limit < TWO_64
    {
      assert digits[i] in digits;
      var digit := DigitValue(digits[i]);
      DigitsStep(digits, i);
      if magnitude > (limit - digit) / 10 {
        MoreDigits(digits, i + 1);
        return None;
      }
      magnitude := magnitude * 10 + digit;
    }
    assert digits[..|digits|] == digits;
    if negative {
      return Some(if magnitude == limit then INT64_MIN as int64 else (-magnitude) as int64);
    }
    return Some(magnitude as int64);
  }

  lemma DigitsStep(digits: string, i: nat)
    requires i < |digits| && forall c <- digits :: IsDigit(c)
    ensures (forall c <- digits[..i] :: IsDigit(c)) && (forall c <- digits[..i + 1] :: IsDigit(c))
    ensures DigitsValue(digits[..i + 1]) == DigitsValue(digits[..i]) * 10 + DigitValue(digits[i])
  {
    assert digits[..i + 1][..i] == digits[..i];
  }

  /** More digits never make a smaller value. */
  lemma {:induction false} MoreDigits(digits: string, i: nat)
    requires i <= |digits| && forall c <- digits :: IsDigit(c)
    ensures forall c <- digits[..i] :: IsDigit(c)
    ensures DigitsValue(digits[..i]) <= DigitsValue(digits)
    decreases |digits| - i
  {
    if i < |digits| {
      DigitsStep(digits, i);
      MoreDigits(digits, i + 1);
    } else {
      assert digits[..i] == digits;
    }
  }

  // ----- The scanner -----

  /** An optional minus and a run of digits. */
  lemma SpellingParts(text: string, start: nat, digits: nat, end: nat)
    requires start <= digits <= end <= |text| && start < |text|
    requires (digits == start + 1 && text[start] == '-') || (digits == start && IsDigit(text[start]))
    requires forall k | digits <= k < end :: IsDigit(text[k])
    ensures var spelling := text[start..end];
            && (forall c <- (if |spelling| > 0 && spelling[0] == '-' then spelling[1..] else spelling) :: IsDigit(c))
            && (end == digits ==> ReadInteger(spelling).None?)
  {
    var spelling := text[start..end];
    if digits == start + 1 {
      assert spelling[1..] == text[digits..end];
    } else if start < end {
      assert spelling[0] == text[start];
    }
  }

  /** One step of the positional argument scan. */
  lemma ArgumentsStep(s: string, i: nat)
    requires i <= |s|
    ensures var value := CanonicalCall.ScanValue(s, i);
            CanonicalCall.ScanArguments(s, i) ==
            if value.None? then None
            else if Peek(s, value.value) == ')' then Some(value.value + 1)
            else if Peek(s, value.value) == ',' && Peek(s, value.value + 1) == ' ' then
              CanonicalCall.ScanArguments(s, value.value + 2)
            else None
  {
    hide CanonicalCall.ScanValue;
  }

  class CanonicalCallScanner {
    const text: string
    var index: nat

    constructor (text: string)
      ensures this.text == text && index == 0
    {
      this.text, index := text, 0;
    }

    predicate AtEnd()
      reads this
    {
      index >= |text|
    }

    method Eat(expected: char) returns (ok: bool)
      requires index <= |text| && expected != '\0'
      modifies this
      ensures ok <==> Peek(text, old(index)) == expected
      ensures index == old(index) + (if ok then 1 else 0) && index <= |text|
    {
      if AtEnd() || text[index] != expected {
        return false;
      }
      index := index + 1;
      return true;
    }

    /** Takes the run of identifier bytes and shortens it until it is an identifier: the lexer's maximal scan. */
    method ScanIdentifier() returns (ok: bool)
      requires index <= |text|
      modifies this
      ensures index <= |text| && ok == CanonicalCall.ScanIdentifier(text, old(index)).Some?
      ensures ok ==> index == CanonicalCall.ScanIdentifier(text, old(index)).value
      ensures !ok ==> index == old(index)
    {
      hide IdentifierEnd, IsIdentifier;
      var length := 0;
      while index + length < |text| && IsRunChar(text[index + length])
        invariant index == old(index) && index + length <= |text|
        invariant forall j | index <= j < index + length :: IsRunChar(text[j])
      {
        length := length + 1;
      }
      if index < |text| && IsLetter(text[index]) {
        LongestIsIdentifier(text, index);
        ghost var end := IdentifierEnd(text, index);
        if end > index + length {
          IdentifierChars(text, index, index + length);
        }
      }
      var candidate := length;
      while candidate > 0
        invariant index == old(index) && candidate <= length
        invariant index < |text| && IsLetter(text[index]) ==> IdentifierEnd(text, index) <= index + candidate
      {
        ok := TestIdentifier(text[index..index + candidate]);
        if ok {
          IdentifierInPrefix(text, index, candidate);
          index := index + candidate;
          return;
        }
        candidate := candidate - 1;
      }
      return false;
    }

    method ScanString() returns (ok: bool)
      requires index < |text| && text[index] == '"'
      modifies this
      ensures index <= |text| && ok == CanonicalCall.ScanString(text, old(index) + 1).Some?
      ensures ok ==> index == CanonicalCall.ScanString(text, old(index) + 1).value
    {
      index := index + 1;
      ghost var start := index;
      while true
        invariant start <= index <= |text|
        invariant CanonicalCall.ScanString(text, index) == CanonicalCall.ScanString(text, start)
        decreases |text| - index
      {
        if AtEnd() {
          return false;
        }
        var c := text[index];
        if c == '"' {
          index := index + 1;
          return true;
        }
        if c == '\n' || c == '\r' {
          return false;
        }
        if c == '\\' {
          index := index + 1;
          if AtEnd() {
            return false;
          }
          var escaped := text[index];
          if escaped != '"' && escaped != '\\' {
            return false;
          }
          index := index + 1;
        } else {
          index := index + 1;
        }
      }
    }

    method ScanInteger() returns (ok: bool)
      requires index < |text| && (text[index] == '-' || IsDigit(text[index]))
      modifies this
      ensures index <= |text| && ok == CanonicalCall.ScanInteger(text, old(index)).Some?
      ensures ok ==> index == CanonicalCall.ScanInteger(text, old(index)).value
    {
      hide Spelling, ReadInteger;
      var start := index;
      if text[index] == '-' {
        index := index + 1;
      }
      var digits := index;
      while index < |text| && IsDigit(text[index])
        invariant digits <= index <= |text| && DigitsEnd(text, index) == DigitsEnd(text, digits)
        invariant forall k | digits <= k < index :: IsDigit(text[k])
      {
        index := index + 1;
      }
      var spelling := text[start..index];
      SpellingParts(text, start, digits, index);
      if index == digits {
        return false;
      }
      var value := ParseInteger(spelling);
      if value.None? {
        return false;
      }
      return Spelling(value.value) == spelling;
    }

    method ScanCall() returns (ok: bool)
      requires index <= |text|
      modifies this
      ensures index <= |text| && ok == CanonicalCall.ScanCall(text, old(index)).Some?
      ensures ok ==> index == CanonicalCall.ScanCall(text, old(index)).value
      decreases |text| - index, 0
    {
      hide CanonicalCall.ScanIdentifier, CanonicalCall.ScanValue, CanonicalCall.ScanArguments;
      ghost var start := index;
      ok := ScanIdentifier();
      if !ok {
        return;
      }
      ok := Eat('(');
      if !ok {
        return;
      }
      ok := Eat(')');
      if ok {
        return;
      }
      ghost var first := index;
      while true
        invariant start < first <= index <= |text|
        invariant CanonicalCall.ScanArguments(text, index) == CanonicalCall.ScanArguments(text, first)
        decreases |text| - index
      {
        ArgumentsStep(text, index);
        ok := ScanValue();
        if !ok {
          return;
        }
        ok := Eat(')');
        if ok {
          return;
        }
        ok := Eat(',');
        if !ok {
          return;
        }
        ok := Eat(' ');
        if !ok {
          return;
        }
      }
    }

    method ScanValue() returns (ok: bool)
      requires index <= |text|
      modifies this
      ensures index <= |text| && ok == CanonicalCall.ScanValue(text, old(index)).Some?
      ensures ok ==> index == CanonicalCall.ScanValue(text, old(index)).value
      decreases |text| - index, 1
    {
      if AtEnd() {
        return false;
      }
      if text[index] == '"' {
        ok := ScanString();
        return;
      }
      if text[index] == '-' || IsDigit(text[index]) {
        ok := ScanInteger();
        return;
      }
      if !IsLetter(text[index]) {
        return false;
      }
      var start := index;
      ok := ScanIdentifier();
      if !ok {
        return;
      }
      if !AtEnd() && text[index] == '(' {
        index := start;
        ok := ScanCall();
      }
    }

    /** Whether the whole text is one canonical call spelling. */
    method Scan() returns (ok: bool)
      requires index == 0
      modifies this
      ensures ok <==> CanonicalCall.IsCanonicalCall(text)
    {
      ok := ScanCall();
      ok := ok && AtEnd();
    }
  }
}
