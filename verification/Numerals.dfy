/** Decimal spellings of integers, as `std::to_string` writes them and `std::from_chars` reads them. */
module Numerals {
  import opened Basics

  predicate IsDigit(c: char) {
    '0' <= c <= '9'
  }

  function DigitChar(d: nat): char
    requires d < 10
  {
    '0' + d as char
  }

  function DigitValue(c: char): nat
    requires IsDigit(c)
  {
    c as nat - '0' as nat
  }

  /** The shortest decimal spelling of a natural number. */
  function Decimal(n: nat): (s: string)
    ensures |s| > 0 && forall c <- s :: IsDigit(c)
  {
    if n < 10 then [DigitChar(n)] else Decimal(n / 10) + [DigitChar(n % 10)]
  }

  /** The value of a run of digits; the empty run has value 0. */
  function DigitsValue(s: string): nat
    requires forall c <- s :: IsDigit(c)
  {
    if s == [] then 0 else DigitsValue(s[..|s| - 1]) * 10 + DigitValue(s[|s| - 1])
  }

  lemma {:induction false} DecimalValue(n: nat)
    ensures DigitsValue(Decimal(n)) == n
  {
    var s := Decimal(n);
    if n < 10 {
      assert s[..0] == [];
    } else {
      DecimalValue(n / 10);
      assert s[..|s| - 1] == Decimal(n / 10);
    }
  }

  /** `std::to_string` of a signed integer. */
  function Spelling(v: int64): (s: string)
    ensures |s| > 0
  {
    if v < 0 then "-" + Decimal(-(v as int)) else Decimal(v as int)
  }

  /** `std::from_chars` over a whole spelling: an optional minus, then digits, inside the 64-bit range. */
  function ReadInteger(s: string): Option<int64> {
    var negative := |s| > 0 && s[0] == '-';
    var digits := if negative then s[1..] else s;
    if digits == [] || exists c <- digits :: !IsDigit(c) then None
    else
      var magnitude: int := DigitsValue(digits);
      if negative then
        if magnitude <= -INT64_MIN then Some((-magnitude) as int64) else None
      else
        if magnitude <= INT64_MAX then Some(magnitude as int64) else None
  }

  /** Every 64-bit value reads back from its own spelling, the two extremes included. */
  lemma SpellingReads(v: int64)
    ensures ReadInteger(Spelling(v)) == Some(v)
  {
    var magnitude: nat := if v < 0 then -(v as int) else v as int;
    DecimalValue(magnitude);
    if v < 0 {
      assert Spelling(v)[1..] == Decimal(magnitude);
    } else {
      assert IsDigit(Spelling(v)[0]);
    }
  }

  /** Where the run of digits beginning at `i` ends. */
  function DigitsEnd(s: string, i: nat): (e: nat)
    requires i <= |s|
    ensures i <= e <= |s|
    ensures forall c <- s[i..e] :: IsDigit(c)
    ensures e < |s| ==> !IsDigit(s[e])
    decreases |s| - i
  {
    if i < |s| && IsDigit(s[i]) then
      var e := DigitsEnd(s, i + 1);
      assert s[i..e] == [s[i]] + s[i + 1..e];
      e
    else i
  }

  lemma {:induction false} DigitsEndIs(s: string, i: nat, digits: string)
    requires Occurs(s, i, digits)
    requires forall c <- digits :: IsDigit(c)
    requires i + |digits| < |s| ==> !IsDigit(s[i + |digits|])
    ensures DigitsEnd(s, i) == i + |digits|
    decreases |digits|
  {
    if digits != [] {
      OccursAt(s, i, digits, 0);
      assert digits == digits[..1] + digits[1..];
      OccursSplit(s, i, digits[..1], digits[1..]);
      DigitsEndIs(s, i + 1, digits[1..]);
    }
  }
}
