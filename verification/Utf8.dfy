/** Well-formed UTF-8 (section 4 of RFC 3629), as the EIR-T lexer recognises it.
    A `string` here is a byte string: one `char` per byte. */
module Utf8 {
  predicate IsContinuation(c: char) {
    0x80 <= c as int <= 0xBF
  }

  /** The length of the well-formed sequence beginning at `s[i]`, or 0 when there is none. */
  function SequenceLengthAt(s: string, i: nat): (n: nat)
    requires i < |s|
    ensures n <= 4 && i + n <= |s|
    ensures n == 1 <==> s[i] as int < 0x80
    ensures n > 1 ==> forall k :: i <= k < i + n ==> s[k] as int >= 0x80
  {
    var lead := s[i] as int;
    if lead < 0x80 then 1
    else if 0xC2 <= lead <= 0xDF then
      if i + 1 < |s| && IsContinuation(s[i + 1]) then 2 else 0
    else if 0xE0 <= lead <= 0xEF then
      if i + 2 >= |s| || !IsContinuation(s[i + 1]) || !IsContinuation(s[i + 2]) then 0
      else if lead == 0xE0 && s[i + 1] as int < 0xA0 then 0
      else if lead == 0xED && s[i + 1] as int >= 0xA0 then 0
      else 3
    else if 0xF0 <= lead <= 0xF4 then
      if i + 3 >= |s| || !IsContinuation(s[i + 1]) || !IsContinuation(s[i + 2]) || !IsContinuation(s[i + 3]) then 0
      else if lead == 0xF0 && s[i + 1] as int < 0x90 then 0
      else if lead == 0xF4 && s[i + 1] as int > 0x8F then 0
      else 4
    else 0
  }

  /** `s[i..]` is a run of well-formed sequences. */
  predicate WellFormedFrom(s: string, i: nat)
    requires i <= |s|
    decreases |s| - i
  {
    i == |s| || (SequenceLengthAt(s, i) > 0 && WellFormedFrom(s, i + SequenceLengthAt(s, i)))
  }

  predicate WellFormed(s: string) {
    WellFormedFrom(s, 0)
  }

  /** A sequence is recognised by its own bytes alone, wherever they stand. */
  lemma SequenceLengthMoves(s: string, i: nat, t: string, j: nat, n: nat)
    requires i < |s| && n == SequenceLengthAt(s, i) > 0
    requires j + n <= |t| && t[j..j + n] == s[i..i + n]
    ensures SequenceLengthAt(t, j) == n
  {
    assert t[j..j + n][0] == s[i..i + n][0];
    assert n > 1 ==> t[j..j + n][1] == s[i..i + n][1];
    assert n > 2 ==> t[j..j + n][2] == s[i..i + n][2];
    assert n > 3 ==> t[j..j + n][3] == s[i..i + n][3];
  }
}
