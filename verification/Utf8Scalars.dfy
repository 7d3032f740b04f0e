/** The recogniser against the encoder: section 3 of RFC 3629, by arithmetic on scalar values. */
module Utf8Scalars {
  import opened Basics
  import Utf8

  /** A code point that is no surrogate. */
  predicate IsScalar(n: int) {
    0 <= n <= 0x10FFFF && !(0xD800 <= n <= 0xDFFF)
  }

  /** The bytes of a scalar value. */
  function EncodeScalar(n: int): (s: string)
    requires IsScalar(n)
    ensures 1 <= |s| <= 4
  {
    if n < 0x80 then [n as char]
    else if n < 0x800 then [(0xC0 + n / 0x40) as char, (0x80 + n % 0x40) as char]
    else if n < 0x10000 then
      [(0xE0 + n / 0x1000) as char, (0x80 + n / 0x40 % 0x40) as char, (0x80 + n % 0x40) as char]
    else
      [(0xF0 + n / 0x40000) as char, (0x80 + n / 0x1000 % 0x40) as char, (0x80 + n / 0x40 % 0x40) as char,
       (0x80 + n % 0x40) as char]
  }

  predicate AllScalars(ns: seq<int>) {
    forall n <- ns :: IsScalar(n)
  }

  function EncodeAll(ns: seq<int>): string
    requires AllScalars(ns)
  {
    if ns == [] then "" else EncodeScalar(ns[0]) + EncodeAll(ns[1..])
  }

  /** The six bits a continuation byte carries. */
  function Bits(c: char): int {
    c as int - 0x80
  }

  /** What the bytes of a recognised sequence stand for. */
  function ScalarAt(s: string, i: nat): int
    requires i < |s| && Utf8.SequenceLengthAt(s, i) > 0
  {
    var lead := s[i] as int;
    match Utf8.SequenceLengthAt(s, i)
    case 1 => lead
    case 2 => (lead - 0xC0) * 0x40 + Bits(s[i + 1])
    case 3 => (lead - 0xE0) * 0x1000 + Bits(s[i + 1]) * 0x40 + Bits(s[i + 2])
    case _ => (lead - 0xF0) * 0x40000 + Bits(s[i + 1]) * 0x1000 + Bits(s[i + 2]) * 0x40 + Bits(s[i + 3])
  }

  lemma Digits2(n: int, a: int, b: int)
    requires 0 <= b < 0x40 && n == a * 0x40 + b
    ensures n / 0x40 == a && n % 0x40 == b
  {}

  lemma Digits3(n: int, a: int, b: int, c: int)
    requires 0 <= b < 0x40 && 0 <= c < 0x40 && n == a * 0x1000 + b * 0x40 + c
    ensures n / 0x1000 == a && n / 0x40 % 0x40 == b && n % 0x40 == c
  {
    Digits2(n, a * 0x40 + b, c);
    Digits2(a * 0x40 + b, a, b);
  }

  lemma Digits4(n: int, a: int, b: int, c: int, d: int)
    requires 0 <= b < 0x40 && 0 <= c < 0x40 && 0 <= d < 0x40
    requires n == a * 0x40000 + b * 0x1000 + c * 0x40 + d
    ensures n / 0x40000 == a && n / 0x1000 % 0x40 == b && n / 0x40 % 0x40 == c && n % 0x40 == d
  {
    Digits3(n, a * 0x40 + b, c, d);
    Digits2(a * 0x40 + b, a, b);
  }

  /** Whatever is recognised is the encoding of a scalar value. */
  lemma RecognisedEncodes(s: string, i: nat)
    requires i < |s| && Utf8.SequenceLengthAt(s, i) > 0
    ensures IsScalar(ScalarAt(s, i))
    ensures s[i..i + Utf8.SequenceLengthAt(s, i)] == EncodeScalar(ScalarAt(s, i))
  {
    var lead, n := s[i] as int, ScalarAt(s, i);
    match Utf8.SequenceLengthAt(s, i)
    case 1 =>
    case 2 => Digits2(n, lead - 0xC0, Bits(s[i + 1]));
    case 3 => Digits3(n, lead - 0xE0, Bits(s[i + 1]), Bits(s[i + 2]));
    case _ => Digits4(n, lead - 0xF0, Bits(s[i + 1]), Bits(s[i + 2]), Bits(s[i + 3]));
  }

  /** The bytes of a scalar value in one of the four forms, put back together. */
  lemma Rebuilds2(n: int)
    requires 0x80 <= n < 0x800
    ensures 2 <= n / 0x40 < 0x20 && 0 <= n % 0x40 < 0x40 && n == n / 0x40 * 0x40 + n % 0x40
  {}

  lemma Rebuilds3(n: int)
    requires 0x800 <= n < 0x10000
    ensures var a, b, c := n / 0x1000, n / 0x40 % 0x40, n % 0x40;
            && 0 <= a < 0x10 && 0 <= b < 0x40 && 0 <= c < 0x40 && n == a * 0x1000 + b * 0x40 + c
            && (a == 0 ==> b >= 0x20) && (a == 0xD && b >= 0x20 ==> 0xD800 <= n <= 0xDFFF)
  {
    assert n / 0x40 / 0x40 == n / 0x1000;
  }

  lemma Rebuilds4(n: int)
    requires 0x10000 <= n <= 0x10FFFF
    ensures var a, b, c, d := n / 0x40000, n / 0x1000 % 0x40, n / 0x40 % 0x40, n % 0x40;
            && 0 <= a < 5 && 0 <= b < 0x40 && 0 <= c < 0x40 && 0 <= d < 0x40
            && n == a * 0x40000 + b * 0x1000 + c * 0x40 + d
            && (a == 0 ==> b >= 0x10) && (a == 4 ==> b < 0x10)
  {
    assert n / 0x40 / 0x40 == n / 0x1000 && n / 0x1000 / 0x40 == n / 0x40000;
  }

  lemma Recognised1(s: string, i: nat, n: int)
    requires 0 <= n < 0x80 && i < |s| && s[i] as int == n
    ensures Utf8.SequenceLengthAt(s, i) == 1 && ScalarAt(s, i) == n
  {}

  lemma Recognised2(s: string, i: nat, n: int)
    requires 0x80 <= n < 0x800 && i + 2 <= |s|
    requires s[i] as int == 0xC0 + n / 0x40 && s[i + 1] as int == 0x80 + n % 0x40
    ensures Utf8.SequenceLengthAt(s, i) == 2 && ScalarAt(s, i) == n
  {
    Rebuilds2(n);
  }

  lemma Recognised3(s: string, i: nat, n: int)
    requires 0x800 <= n < 0x10000 && IsScalar(n) && i + 3 <= |s|
    requires s[i] as int == 0xE0 + n / 0x1000 && s[i + 1] as int == 0x80 + n / 0x40 % 0x40
    requires s[i + 2] as int == 0x80 + n % 0x40
    ensures Utf8.SequenceLengthAt(s, i) == 3 && ScalarAt(s, i) == n
  {
    Rebuilds3(n);
  }

  lemma Recognised4(s: string, i: nat, n: int)
    requires 0x10000 <= n <= 0x10FFFF && i + 4 <= |s|
    requires s[i] as int == 0xF0 + n / 0x40000 && s[i + 1] as int == 0x80 + n / 0x1000 % 0x40
    requires s[i + 2] as int == 0x80 + n / 0x40 % 0x40 && s[i + 3] as int == 0x80 + n % 0x40
    ensures Utf8.SequenceLengthAt(s, i) == 4 && ScalarAt(s, i) == n
  {
    Rebuilds4(n);
  }

  /** The encoding of a scalar value is recognised wherever it stands, and stands for it. */
  lemma EncodedRecognised(s: string, i: nat, n: int)
    requires IsScalar(n) && Occurs(s, i, EncodeScalar(n))
    ensures Utf8.SequenceLengthAt(s, i) == |EncodeScalar(n)| && ScalarAt(s, i) == n
  {
    hide Utf8.SequenceLengthAt, ScalarAt;
    var code := EncodeScalar(n);
    OccursAt(s, i, code, 0);
    if n < 0x80 {
      Recognised1(s, i, n);
    } else if n < 0x800 {
      OccursAt(s, i, code, 1);
      Recognised2(s, i, n);
    } else if n < 0x10000 {
      OccursAt(s, i, code, 1);
      OccursAt(s, i, code, 2);
      Recognised3(s, i, n);
    } else {
      OccursAt(s, i, code, 1);
      OccursAt(s, i, code, 2);
      OccursAt(s, i, code, 3);
      Recognised4(s, i, n);
    }
  }

  /** A sequence of `k` bytes is recognised exactly when it encodes some scalar value, and then only one. */
  lemma RecognisedExactly(s: string, i: nat, k: nat)
    requires i < |s| && k > 0
    ensures Utf8.SequenceLengthAt(s, i) == k <==>
            i + k <= |s| && exists n | IsScalar(n) :: s[i..i + k] == EncodeScalar(n)
    ensures i + k <= |s| ==> forall m, n | IsScalar(m) && IsScalar(n) ::
              s[i..i + k] == EncodeScalar(m) && s[i..i + k] == EncodeScalar(n) ==> m == n
  {
    hide EncodeScalar, Utf8.SequenceLengthAt;
    if Utf8.SequenceLengthAt(s, i) == k {
      RecognisedEncodes(s, i);
    }
    if i + k <= |s| {
      forall n | IsScalar(n) && s[i..i + k] == EncodeScalar(n)
        ensures Utf8.SequenceLengthAt(s, i) == k && n == ScalarAt(s, i)
      {
        EncodedRecognised(s, i, n);
      }
    }
  }

  ghost predicate Encodes(ns: seq<int>, s: string) {
    AllScalars(ns) && EncodeAll(ns) == s
  }

  lemma {:induction false} DecodesFrom(s: string, i: nat) returns (ns: seq<int>)
    requires i <= |s| && Utf8.WellFormedFrom(s, i)
    ensures Encodes(ns, s[i..])
    decreases |s| - i
  {
    hide EncodeScalar, Utf8.SequenceLengthAt;
    ns := [];
    if i < |s| {
      var k := Utf8.SequenceLengthAt(s, i);
      RecognisedEncodes(s, i);
      var rest := DecodesFrom(s, i + k);
      ns := [ScalarAt(s, i)] + rest;
      assert ns[1..] == rest && s[i..] == s[i..i + k] + s[i + k..];
    }
  }

  lemma {:induction false} EncodedFrom(s: string, i: nat, ns: seq<int>)
    requires i <= |s| && Encodes(ns, s[i..])
    ensures Utf8.WellFormedFrom(s, i)
    decreases |ns|
  {
    hide EncodeScalar, Utf8.SequenceLengthAt;
    if ns != [] {
      var code := EncodeScalar(ns[0]);
      assert Occurs(s, i, code) by {
        assert s[i..][..|code|] == code;
        assert s[i..i + |code|] == s[i..][..|code|];
      }
      EncodedRecognised(s, i, ns[0]);
      assert s[i + |code|..] == s[i..][|code|..] == EncodeAll(ns[1..]);
      EncodedFrom(s, i + |code|, ns[1..]);
    }
  }

  /** A byte string stands for one sequence of scalar values at most. */
  lemma {:induction false} DecodedOnce(ms: seq<int>, ns: seq<int>)
    requires AllScalars(ms) && AllScalars(ns) && EncodeAll(ms) == EncodeAll(ns)
    ensures ms == ns
    decreases |ms|
  {
    hide EncodeScalar, Utf8.SequenceLengthAt;
    if ms != [] && ns != [] {
      var s, a, b := EncodeAll(ms), EncodeScalar(ms[0]), EncodeScalar(ns[0]);
      assert Occurs(s, 0, a) && Occurs(s, 0, b);
      EncodedRecognised(s, 0, ms[0]);
      EncodedRecognised(s, 0, ns[0]);
      assert EncodeAll(ms[1..]) == s[|a|..] == EncodeAll(ns[1..]);
      DecodedOnce(ms[1..], ns[1..]);
      assert ms == [ms[0]] + ms[1..] && ns == [ns[0]] + ns[1..];
    }
  }

  /** Well-formed is to be the concatenated encodings of some scalar values, and of no others. */
  lemma WellFormedExactly(s: string)
    ensures Utf8.WellFormed(s) <==> exists ns :: Encodes(ns, s)
    ensures forall ms, ns :: Encodes(ms, s) && Encodes(ns, s) ==> ms == ns
  {
    hide EncodeAll, Utf8.WellFormedFrom;
    assert s[0..] == s;
    if Utf8.WellFormed(s) {
      var ns := DecodesFrom(s, 0);
    }
    if ns :| Encodes(ns, s) {
      EncodedFrom(s, 0, ns);
    }
    forall ms, ns | Encodes(ms, s) && Encodes(ns, s) ensures ms == ns {
      DecodedOnce(ms, ns);
    }
  }
}
