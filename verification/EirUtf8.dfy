/** Whatever the lexer accepts, comments included, is well-formed UTF-8. */
module EirUtf8 {
  import opened Numerals
  import opened EirLexer
  import EirScanner
  import Utf8

  lemma AsciiBefore(s: string, i: nat)
    requires i < |s| && s[i] as int < 0x80 && Utf8.WellFormedFrom(s, i + 1)
    ensures Utf8.WellFormedFrom(s, i)
  {}

  lemma {:induction false} AsciiRun(s: string, i: nat, j: nat)
    requires i <= j <= |s| && (forall k | i <= k < j :: s[k] as int < 0x80) && Utf8.WellFormedFrom(s, j)
    ensures Utf8.WellFormedFrom(s, i)
    decreases j - i
  {
    hide Utf8.WellFormedFrom;
    if i < j {
      AsciiRun(s, i + 1, j);
      AsciiBefore(s, i);
    }
  }

  lemma SequenceBefore(s: string, i: nat)
    requires i < |s| && Utf8.SequenceLengthAt(s, i) > 0
    requires Utf8.WellFormedFrom(s, i + Utf8.SequenceLengthAt(s, i))
    ensures Utf8.WellFormedFrom(s, i)
  {
    hide Utf8.SequenceLengthAt;
  }

  lemma {:induction false} StringBefore(s: string, i: nat)
    requires i <= |s| && LexStringFrom(s, i).Some? && Utf8.WellFormedFrom(s, LexStringFrom(s, i).value.1)
    ensures Utf8.WellFormedFrom(s, i)
    decreases |s| - i
  {
    hide Utf8.WellFormedFrom, Utf8.SequenceLengthAt;
    if s[i] == '"' {
      AsciiBefore(s, i);
    } else if s[i] == '\\' {
      StringBefore(s, i + 2);
      AsciiRun(s, i, i + 2);
    } else {
      StringBefore(s, i + Utf8.SequenceLengthAt(s, i));
      SequenceBefore(s, i);
    }
  }

  lemma {:induction false} LineCommentBefore(s: string, i: nat)
    requires i <= |s| && LineCommentEnd(s, i).Some? && Utf8.WellFormedFrom(s, LineCommentEnd(s, i).value)
    ensures Utf8.WellFormedFrom(s, i)
    decreases |s| - i
  {
    hide Utf8.WellFormedFrom, Utf8.SequenceLengthAt;
    if i < |s| && s[i] != '\n' {
      LineCommentBefore(s, i + Utf8.SequenceLengthAt(s, i));
      SequenceBefore(s, i);
    }
  }

  lemma {:induction false} BlockCommentBefore(s: string, i: nat)
    requires i <= |s| && BlockCommentEnd(s, i).Some? && Utf8.WellFormedFrom(s, BlockCommentEnd(s, i).value)
    ensures Utf8.WellFormedFrom(s, i)
    decreases |s| - i
  {
    hide Utf8.WellFormedFrom, Utf8.SequenceLengthAt;
    if s[i] == '*' && Peek(s, i + 1) == '/' {
      AsciiRun(s, i, i + 2);
    } else {
      BlockCommentBefore(s, i + Utf8.SequenceLengthAt(s, i));
      SequenceBefore(s, i);
    }
  }

  lemma {:induction false} SkippedBefore(s: string, i: nat)
    requires i <= |s| && SkipFrom(s, i).Some? && Utf8.WellFormedFrom(s, SkipFrom(s, i).value)
    ensures Utf8.WellFormedFrom(s, i)
    decreases |s| - i
  {
    hide Utf8.WellFormedFrom, LineCommentEnd, BlockCommentEnd;
    if i < |s| && IsBlank(s[i]) {
      SkippedBefore(s, i + 1);
      AsciiBefore(s, i);
    } else if i < |s| && s[i] == '/' && Peek(s, i + 1) == '/' {
      SkippedBefore(s, LineCommentEnd(s, i + 2).value);
      LineCommentBefore(s, i + 2);
      AsciiRun(s, i, i + 2);
    } else if i < |s| && s[i] == '/' && Peek(s, i + 1) == '*' {
      SkippedBefore(s, BlockCommentEnd(s, i + 2).value);
      BlockCommentBefore(s, i + 2);
      AsciiRun(s, i, i + 2);
    }
  }

  lemma {:induction false} DigitsBefore(s: string, i: nat)
    requires i <= |s| && Utf8.WellFormedFrom(s, DigitsEnd(s, i))
    ensures Utf8.WellFormedFrom(s, i)
    decreases |s| - i
  {
    hide Utf8.WellFormedFrom;
    if i < |s| && IsDigit(s[i]) {
      DigitsBefore(s, i + 1);
      AsciiBefore(s, i);
    }
  }

  lemma IdentifierBefore(s: string, i: nat)
    requires i <= |s| && Utf8.WellFormedFrom(s, IdentifierEnd(s, i))
    ensures Utf8.WellFormedFrom(s, i)
  {
    hide Utf8.WellFormedFrom, IdentifierEnd;
    forall k | i <= k < IdentifierEnd(s, i) ensures s[k] as int < 0x80 {
      EirScanner.IdentifierChars(s, i, k);
    }
    AsciiRun(s, i, IdentifierEnd(s, i));
  }

  lemma TokenBefore(s: string, i: nat)
    requires i < |s| && LexTokenAt(s, i).Some? && Utf8.WellFormedFrom(s, LexTokenAt(s, i).value.1)
    ensures Utf8.WellFormedFrom(s, i)
  {
    hide Utf8.WellFormedFrom, LexStringFrom, DigitsEnd, ReadInteger, IdentifierEnd;
    var c := s[i];
    if IsLetter(c) {
      IdentifierBefore(s, i);
    } else if IsDigit(c) {
      DigitsBefore(s, i);
    } else if c == '-' && IsDigit(Peek(s, i + 1)) {
      DigitsBefore(s, i + 1);
      AsciiBefore(s, i);
    } else if c == '"' {
      StringBefore(s, i + 1);
      AsciiBefore(s, i);
    } else {
      MarkBefore(s, i);
    }
  }

  lemma MarksAreAscii(c: char, next: char)
    ensures Punctuation(c).Some? ==> c as int < 0x80
    ensures Operator(c, next).Some? ==>
              c as int < 0x80 && 1 <= Operator(c, next).value.1 <= 2
              && (Operator(c, next).value.1 == 2 ==> next as int < 0x80 && next != '\0')
  {}

  lemma MarkBefore(s: string, i: nat)
    requires i < |s| && !IsLetter(s[i]) && !IsDigit(s[i]) && s[i] != '"'
    requires !(s[i] == '-' && IsDigit(Peek(s, i + 1)))
    requires LexTokenAt(s, i).Some? && Utf8.WellFormedFrom(s, LexTokenAt(s, i).value.1)
    ensures Utf8.WellFormedFrom(s, i)
  {
    hide Utf8.WellFormedFrom, Punctuation, Operator, LexInteger, LexStringFrom, IdentifierEnd;
    MarksAreAscii(s[i], Peek(s, i + 1));
    AsciiRun(s, i, LexTokenAt(s, i).value.1);
  }

  lemma {:induction false} LexedIsUtf8(s: string, i: nat)
    requires i <= |s| && LexFrom(s, i).Some?
    ensures Utf8.WellFormedFrom(s, i)
    decreases |s| - i
  {
    hide SkipFrom, LexTokenAt;
    var start := SkipFrom(s, i).value;
    if start < |s| {
      LexedIsUtf8(s, LexTokenAt(s, start).value.1);
      TokenBefore(s, start);
    }
    SkippedBefore(s, i);
  }
}
