/** The operations of SHA-256 bit by bit: sections 3.2 and 4.1.2 of FIPS 180-4. */
module Sha256Bits {
  import opened Sha256

  // ----- Bits -----

  /** Bit `i` modulo 32, counted from the least significant. */
  predicate Bit(x: bv32, i: bv32) {
    (x >> (i & 31)) & 1 == 1
  }

  /** The two have the same bits wherever the mask has one set. */
  predicate SameUnder(a: bv32, b: bv32, mask: bv32) {
    a & mask == b & mask
  }

  function Not(x: bv32): bv32 {
    !x
  }

  lemma AndBit(x: bv32, y: bv32, i: bv32)
    ensures Bit(x & y, i) <==> Bit(x, i) && Bit(y, i)
  {}

  lemma NotBit(x: bv32, i: bv32)
    ensures Bit(Not(x), i) <==> !Bit(x, i)
  {}

  lemma XorBit(x: bv32, y: bv32, i: bv32)
    ensures Bit(x ^ y, i) <==> Bit(x, i) != Bit(y, i)
  {}

  lemma SameBit(a: bv32, b: bv32, mask: bv32, i: bv32)
    requires SameUnder(a, b, mask) && Bit(mask, i)
    ensures Bit(a, i) == Bit(b, i)
  {
    hide Bit;
    AndBit(a, mask, i);
    AndBit(b, mask, i);
  }

  lemma ChMasked(x: bv32, y: bv32, z: bv32)
    ensures SameUnder(Ch(x, y, z), y, x) && SameUnder(Ch(x, y, z), z, Not(x))
  {}

  /** Each bit chooses: the second argument's where the first has one set, the third's elsewhere. */
  lemma ChChooses(x: bv32, y: bv32, z: bv32, i: bv32)
    ensures Bit(Ch(x, y, z), i) == if Bit(x, i) then Bit(y, i) else Bit(z, i)
  {
    hide Bit, Ch, Not, SameUnder;
    ChMasked(x, y, z);
    NotBit(x, i);
    if Bit(x, i) {
      SameBit(Ch(x, y, z), y, x, i);
    } else {
      SameBit(Ch(x, y, z), z, Not(x), i);
    }
  }

  /** Where the two differ. */
  function Differ(x: bv32, y: bv32): bv32 {
    x ^ y
  }

  lemma DifferBit(x: bv32, y: bv32, i: bv32)
    ensures Bit(Differ(x, y), i) <==> Bit(x, i) != Bit(y, i)
  {
    hide Bit;
    XorBit(x, y, i);
  }

  lemma MajMasked(x: bv32, y: bv32, z: bv32)
    ensures SameUnder(Maj(x, y, z), x, Differ(y, z)) && SameUnder(Maj(x, y, z), y, Not(Differ(y, z)))
  {}

  /** Each bit is the one that at least two arguments have. */
  lemma MajDecides(x: bv32, y: bv32, z: bv32, i: bv32)
    ensures Bit(Maj(x, y, z), i) == if Bit(y, i) == Bit(z, i) then Bit(y, i) else Bit(x, i)
  {
    hide Bit, Maj, Differ, Not, SameUnder;
    MajMasked(x, y, z);
    DifferBit(y, z, i);
    NotBit(Differ(y, z), i);
    if Bit(Differ(y, z), i) {
      SameBit(Maj(x, y, z), x, Differ(y, z), i);
    } else {
      SameBit(Maj(x, y, z), y, Not(Differ(y, z)), i);
    }
  }

  /** Bit `i` of a rotation by `n` is bit `i + n` modulo 32. */
  predicate Rotated(x: bv32, n: bv32, i: bv32)
    requires n < 32
  {
    Bit(RotR(x, n), i) == Bit(x, i + n)
  }

  lemma RotatesBy0(x: bv32, i: bv32)
    ensures Rotated(x, 0, i)
  {}

  lemma RotatesBy1(x: bv32, i: bv32)
    ensures Rotated(x, 1, i)
  {}

  lemma RotatesBy2(x: bv32, i: bv32)
    ensures Rotated(x, 2, i)
  {}

  lemma RotatesBy3(x: bv32, i: bv32)
    ensures Rotated(x, 3, i)
  {}

  lemma RotatesBy4(x: bv32, i: bv32)
    ensures Rotated(x, 4, i)
  {}

  lemma RotatesBy5(x: bv32, i: bv32)
    ensures Rotated(x, 5, i)
  {}

  lemma RotatesBy6(x: bv32, i: bv32)
    ensures Rotated(x, 6, i)
  {}

  lemma RotatesBy7(x: bv32, i: bv32)
    ensures Rotated(x, 7, i)
  {}

  lemma RotatesBy8(x: bv32, i: bv32)
    ensures Rotated(x, 8, i)
  {}

  lemma RotatesBy9(x: bv32, i: bv32)
    ensures Rotated(x, 9, i)
  {}

  lemma RotatesBy10(x: bv32, i: bv32)
    ensures Rotated(x, 10, i)
  {}

  lemma RotatesBy11(x: bv32, i: bv32)
    ensures Rotated(x, 11, i)
  {}

  lemma RotatesBy12(x: bv32, i: bv32)
    ensures Rotated(x, 12, i)
  {}

  lemma RotatesBy13(x: bv32, i: bv32)
    ensures Rotated(x, 13, i)
  {}

  lemma RotatesBy14(x: bv32, i: bv32)
    ensures Rotated(x, 14, i)
  {}

  lemma RotatesBy15(x: bv32, i: bv32)
    ensures Rotated(x, 15, i)
  {}

  lemma RotatesBy16(x: bv32, i: bv32)
    ensures Rotated(x, 16, i)
  {}

  lemma RotatesBy17(x: bv32, i: bv32)
    ensures Rotated(x, 17, i)
  {}

  lemma RotatesBy18(x: bv32, i: bv32)
    ensures Rotated(x, 18, i)
  {}

  lemma RotatesBy19(x: bv32, i: bv32)
    ensures Rotated(x, 19, i)
  {}

  lemma RotatesBy20(x: bv32, i: bv32)
    ensures Rotated(x, 20, i)
  {}

  lemma RotatesBy21(x: bv32, i: bv32)
    ensures Rotated(x, 21, i)
  {}

  lemma RotatesBy22(x: bv32, i: bv32)
    ensures Rotated(x, 22, i)
  {}

  lemma RotatesBy23(x: bv32, i: bv32)
    ensures Rotated(x, 23, i)
  {}

  lemma RotatesBy24(x: bv32, i: bv32)
    ensures Rotated(x, 24, i)
  {}

  lemma RotatesBy25(x: bv32, i: bv32)
    ensures Rotated(x, 25, i)
  {}

  lemma RotatesBy26(x: bv32, i: bv32)
    ensures Rotated(x, 26, i)
  {}

  lemma RotatesBy27(x: bv32, i: bv32)
    ensures Rotated(x, 27, i)
  {}

  lemma RotatesBy28(x: bv32, i: bv32)
    ensures Rotated(x, 28, i)
  {}

  lemma RotatesBy29(x: bv32, i: bv32)
    ensures Rotated(x, 29, i)
  {}

  lemma RotatesBy30(x: bv32, i: bv32)
    ensures Rotated(x, 30, i)
  {}

  lemma RotatesBy31(x: bv32, i: bv32)
    ensures Rotated(x, 31, i)
  {}

  lemma Rotates(x: bv32, n: bv32, i: bv32)
    requires n < 32
    ensures Rotated(x, n, i)
  {
    hide Rotated;
    match n
    case 0 => RotatesBy0(x, i);
    case 1 => RotatesBy1(x, i);
    case 2 => RotatesBy2(x, i);
    case 3 => RotatesBy3(x, i);
    case 4 => RotatesBy4(x, i);
    case 5 => RotatesBy5(x, i);
    case 6 => RotatesBy6(x, i);
    case 7 => RotatesBy7(x, i);
    case 8 => RotatesBy8(x, i);
    case 9 => RotatesBy9(x, i);
    case 10 => RotatesBy10(x, i);
    case 11 => RotatesBy11(x, i);
    case 12 => RotatesBy12(x, i);
    case 13 => RotatesBy13(x, i);
    case 14 => RotatesBy14(x, i);
    case 15 => RotatesBy15(x, i);
    case 16 => RotatesBy16(x, i);
    case 17 => RotatesBy17(x, i);
    case 18 => RotatesBy18(x, i);
    case 19 => RotatesBy19(x, i);
    case 20 => RotatesBy20(x, i);
    case 21 => RotatesBy21(x, i);
    case 22 => RotatesBy22(x, i);
    case 23 => RotatesBy23(x, i);
    case 24 => RotatesBy24(x, i);
    case 25 => RotatesBy25(x, i);
    case 26 => RotatesBy26(x, i);
    case 27 => RotatesBy27(x, i);
    case 28 => RotatesBy28(x, i);
    case 29 => RotatesBy29(x, i);
    case 30 => RotatesBy30(x, i);
    case _ => RotatesBy31(x, i);
  }

  lemma ShiftsBy3(x: bv32, i: bv32)
    ensures Bit(x >> 3, i) <==> i & 31 < 29 && Bit(x, i + 3)
  {}

  lemma ShiftsBy10(x: bv32, i: bv32)
    ensures Bit(x >> 10, i) <==> i & 31 < 22 && Bit(x, i + 10)
  {}

  /** One or all three. */
  predicate Odd(p: bool, q: bool, r: bool) {
    p != (q != r)
  }

  predicate IsXors(s: bv32, a: bv32, b: bv32, c: bv32) {
    s == a ^ b ^ c
  }

  lemma XorsBits(a: bv32, b: bv32, c: bv32, i: bv32)
    ensures Bit(a ^ b ^ c, i) <==> Odd(Bit(a, i), Bit(b, i), Bit(c, i))
  {}

  lemma OddBits(s: bv32, a: bv32, b: bv32, c: bv32, i: bv32)
    requires IsXors(s, a, b, c)
    ensures Bit(s, i) <==> Odd(Bit(a, i), Bit(b, i), Bit(c, i))
  {
    XorsBits(a, b, c, i);
  }

  lemma BigSigma0Parts(x: bv32)
    ensures IsXors(BigSigma0(x), RotR(x, 2), RotR(x, 13), RotR(x, 22))
  {}

  lemma BigSigma1Parts(x: bv32)
    ensures IsXors(BigSigma1(x), RotR(x, 6), RotR(x, 11), RotR(x, 25))
  {}

  lemma SmallSigma0Parts(x: bv32)
    ensures IsXors(SmallSigma0(x), RotR(x, 7), RotR(x, 18), x >> 3)
  {}

  lemma SmallSigma1Parts(x: bv32)
    ensures IsXors(SmallSigma1(x), RotR(x, 17), RotR(x, 19), x >> 10)
  {}

  lemma BigSigma0Bits(x: bv32, i: bv32)
    ensures Bit(BigSigma0(x), i) <==> Odd(Bit(x, i + 2), Bit(x, i + 13), Bit(x, i + 22))
  {
    hide Bit, RotR, IsXors, BigSigma0;
    BigSigma0Parts(x);
    OddBits(BigSigma0(x), RotR(x, 2), RotR(x, 13), RotR(x, 22), i);
    RotatesBy2(x, i);
    RotatesBy13(x, i);
    RotatesBy22(x, i);
  }

  lemma BigSigma1Bits(x: bv32, i: bv32)
    ensures Bit(BigSigma1(x), i) <==> Odd(Bit(x, i + 6), Bit(x, i + 11), Bit(x, i + 25))
  {
    hide Bit, RotR, IsXors, BigSigma1;
    BigSigma1Parts(x);
    OddBits(BigSigma1(x), RotR(x, 6), RotR(x, 11), RotR(x, 25), i);
    RotatesBy6(x, i);
    RotatesBy11(x, i);
    RotatesBy25(x, i);
  }

  lemma SmallSigma0Bits(x: bv32, i: bv32)
    ensures Bit(SmallSigma0(x), i) <==> Odd(Bit(x, i + 7), Bit(x, i + 18), i & 31 < 29 && Bit(x, i + 3))
  {
    hide Bit, RotR, IsXors, SmallSigma0;
    SmallSigma0Parts(x);
    OddBits(SmallSigma0(x), RotR(x, 7), RotR(x, 18), x >> 3, i);
    RotatesBy7(x, i);
    RotatesBy18(x, i);
    ShiftsBy3(x, i);
  }

  lemma SmallSigma1Bits(x: bv32, i: bv32)
    ensures Bit(SmallSigma1(x), i) <==> Odd(Bit(x, i + 17), Bit(x, i + 19), i & 31 < 22 && Bit(x, i + 10))
  {
    hide Bit, RotR, IsXors, SmallSigma1;
    SmallSigma1Parts(x);
    OddBits(SmallSigma1(x), RotR(x, 17), RotR(x, 19), x >> 10, i);
    RotatesBy17(x, i);
    RotatesBy19(x, i);
    ShiftsBy10(x, i);
  }

  /** A round moves the words on by one place; the first takes in both sums, the fifth one of them. */
  lemma RoundMoves(v: Working, k: bv32, w: bv32)
    ensures var next := Round(v, k, w);
            var sum := Plus(Plus(Plus(Plus(v.h, BigSigma1(v.e)), Ch(v.e, v.f, v.g)), k), w);
            && next.b == v.a && next.c == v.b && next.d == v.c && next.f == v.e && next.g == v.f && next.h == v.g
            && next.e == Plus(v.d, sum) && next.a == Plus(sum, Plus(BigSigma0(v.a), Maj(v.a, v.b, v.c)))
  {
    hide BigSigma0, BigSigma1, Ch, Maj, Plus;
  }
}
