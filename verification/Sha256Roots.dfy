/** The constants of SHA-256 as roots of primes: sections 4.2.2 and 5.3.3 of FIPS 180-4. */
module Sha256Roots {
  import opened Sha256

  // ----- Primes -----

  predicate IsPrime(n: nat) {
    n >= 2 && forall d | 2 <= d < n :: n % d != 0
  }

  /** One of the primes below 19 divides it. */
  predicate HasSmallFactor(n: nat) {
    n % 2 == 0 || n % 3 == 0 || n % 5 == 0 || n % 7 == 0 || n % 11 == 0 || n % 13 == 0 || n % 17 == 0
  }

  lemma DividedOnce(n: nat, d: nat, q: nat)
    requires d > 0 && n == q * d
    ensures n % d == 0
  {
    var more := q - n / d;
    assert more * d == n % d;
    assert more >= 1 ==> more * d >= d;
    assert more <= -1 ==> more * d + d <= 0;
  }

  lemma FactorOfFactor(n: nat, f: nat, d: nat)
    requires f > 0 && d > 0 && n % f == 0 && f % d == 0
    ensures n % d == 0
  {
    var k, q := f / d, n / f;
    assert n == d * k * q;
    assert n == k * q * d;
    DividedOnce(n, d, k * q);
  }

  lemma SmallFactor(n: nat, f: nat)
    requires 2 <= f < 19 && n % f == 0
    ensures HasSmallFactor(n)
  {
    if f % 2 == 0 {
      FactorOfFactor(n, f, 2);
    } else if f % 3 == 0 {
      FactorOfFactor(n, f, 3);
    }
  }

  /** Of a divisor below 361 and its cofactor, one is below 19. */
  lemma DividedBelow361(n: nat, d: nat) returns (f: nat)
    requires 2 <= d < n < 361 && n % d == 0
    ensures 2 <= f < 19 && n % f == 0
  {
    f := n / d;
    assert n == d * f;
    if d < 19 {
      f := d;
    } else {
      assert 19 * f <= d * f;
      DividedOnce(n, f, d);
    }
  }

  lemma TrialDecides(n: nat)
    requires 19 <= n < 361
    ensures IsPrime(n) <==> !HasSmallFactor(n)
  {
    if !HasSmallFactor(n) {
      hide HasSmallFactor;
      forall d | 2 <= d < n ensures n % d != 0 {
        if n % d == 0 {
          var f := DividedBelow361(n, d);
          SmallFactor(n, f);
        }
      }
    }
  }

  /** The first 64 primes, in rows of eight. */
  const PRIMES: seq<seq<nat>> := [
    [2, 3, 5, 7, 11, 13, 17, 19],
    [23, 29, 31, 37, 41, 43, 47, 53],
    [59, 61, 67, 71, 73, 79, 83, 89],
    [97, 101, 103, 107, 109, 113, 127, 131],
    [137, 139, 149, 151, 157, 163, 167, 173],
    [179, 181, 191, 193, 197, 199, 211, 223],
    [227, 229, 233, 239, 241, 251, 257, 263],
    [269, 271, 277, 281, 283, 293, 307, 311]]

  function NthPrime(t: nat): nat
    requires t < 64
  {
    PRIMES[t / 8][t % 8]
  }

  lemma SmallPrimes(n: nat)
    requires n < 20
    ensures IsPrime(n) <==> n in PRIMES[0]
  {
    if n in {4, 6, 8, 10, 12, 14, 16, 18} {
      assert n % 2 == 0;
    } else if n in {9, 15} {
      assert n % 3 == 0;
    }
  }

  lemma PrimesOfRow1(n: nat)
    requires 20 <= n < 54
    ensures !HasSmallFactor(n) <==> n in PRIMES[1]
  {
    var k := n - 20;
    assert n in PRIMES[1] <==>
           k == 3 || k == 9 || k == 11 || k == 17 || k == 21 || k == 23 || k == 27 || k == 33;
    if k % 2 != 0 {
      var h := k / 2;
      assert k == 2 * h + 1 && h <= 17;
    }
  }

  lemma PrimesOfRow2(n: nat)
    requires 54 <= n < 90
    ensures !HasSmallFactor(n) <==> n in PRIMES[2]
  {
    var k := n - 54;
    assert n in PRIMES[2] <==>
           k == 5 || k == 7 || k == 13 || k == 17 || k == 19 || k == 25 || k == 29 || k == 35;
    if k % 2 != 0 {
      var h := k / 2;
      assert k == 2 * h + 1 && h <= 18;
    }
  }

  lemma PrimesOfRow3(n: nat)
    requires 90 <= n < 132
    ensures !HasSmallFactor(n) <==> n in PRIMES[3]
  {
    var k := n - 90;
    assert n in PRIMES[3] <==>
           k == 7 || k == 11 || k == 13 || k == 17 || k == 19 || k == 23 || k == 37 || k == 41;
    if k % 2 != 0 {
      var h := k / 2;
      assert k == 2 * h + 1 && h <= 21;
    }
  }

  lemma PrimesOfRow4(n: nat)
    requires 132 <= n < 174
    ensures !HasSmallFactor(n) <==> n in PRIMES[4]
  {
    var k := n - 132;
    assert n in PRIMES[4] <==>
           k == 5 || k == 7 || k == 17 || k == 19 || k == 25 || k == 31 || k == 35 || k == 41;
    if k % 2 != 0 {
      var h := k / 2;
      assert k == 2 * h + 1 && h <= 21;
    }
  }

  lemma PrimesOfRow5(n: nat)
    requires 174 <= n < 224
    ensures !HasSmallFactor(n) <==> n in PRIMES[5]
  {
    var k := n - 174;
    assert n in PRIMES[5] <==>
           k == 5 || k == 7 || k == 17 || k == 19 || k == 23 || k == 25 || k == 37 || k == 49;
    if k % 2 != 0 {
      var h := k / 2;
      assert k == 2 * h + 1 && h <= 25;
    }
  }

  lemma PrimesOfRow6(n: nat)
    requires 224 <= n < 264
    ensures !HasSmallFactor(n) <==> n in PRIMES[6]
  {
    var k := n - 224;
    assert n in PRIMES[6] <==>
           k == 3 || k == 5 || k == 9 || k == 15 || k == 17 || k == 27 || k == 33 || k == 39;
    if k % 2 != 0 {
      var h := k / 2;
      assert k == 2 * h + 1 && h <= 20;
    }
  }

  lemma PrimesOfRow7(n: nat)
    requires 264 <= n < 312
    ensures !HasSmallFactor(n) <==> n in PRIMES[7]
  {
    var k := n - 264;
    assert n in PRIMES[7] <==>
           k == 5 || k == 7 || k == 13 || k == 17 || k == 19 || k == 29 || k == 43 || k == 47;
    if k % 2 != 0 {
      var h := k / 2;
      assert k == 2 * h + 1 && h <= 24;
    }
  }

  /** The table lists every prime below 312 and nothing else. */
  lemma PrimesListed(n: nat)
    requires n < 312
    ensures IsPrime(n) <==> exists r | 0 <= r < 8 :: n in PRIMES[r]
  {
    hide IsPrime, HasSmallFactor;
    RowsApart(n);
    if n < 20 {
      SmallPrimes(n);
    } else {
      TrialDecides(n);
      if n < 54 {
        PrimesOfRow1(n);
      } else if n < 90 {
        PrimesOfRow2(n);
      } else if n < 132 {
        PrimesOfRow3(n);
      } else if n < 174 {
        PrimesOfRow4(n);
      } else if n < 224 {
        PrimesOfRow5(n);
      } else if n < 264 {
        PrimesOfRow6(n);
      } else {
        PrimesOfRow7(n);
      }
    }
  }

  /** Each row keeps to its own range. */
  lemma RowsApart(n: nat)
    ensures (exists r | 0 <= r < 8 :: n in PRIMES[r]) <==>
            || (0 <= n < 20 && n in PRIMES[0])
            || (20 <= n < 54 && n in PRIMES[1])
            || (54 <= n < 90 && n in PRIMES[2])
            || (90 <= n < 132 && n in PRIMES[3])
            || (132 <= n < 174 && n in PRIMES[4])
            || (174 <= n < 224 && n in PRIMES[5])
            || (224 <= n < 264 && n in PRIMES[6])
            || (264 <= n < 312 && n in PRIMES[7])
  {}

  lemma PrimesAscend(t: nat)
    requires t < 63
    ensures NthPrime(t) < NthPrime(t + 1)
  {
    match t / 8
    case 0 =>
    case 1 =>
    case 2 =>
    case 3 =>
    case 4 =>
    case 5 =>
    case 6 =>
    case _ =>
  }

  // ----- Roots -----

  const TWO_32: nat := 0x1_0000_0000
  const TWO_64: nat := 0x1_0000_0000_0000_0000
  const TWO_96: nat := 0x1_0000_0000_0000_0000_0000_0000

  /** The word holds the first 32 bits behind the point of the cube root of `p`. */
  ghost predicate CubeRootBits(p: nat, k: bv32) {
    exists c: nat :: c * c * c <= p * TWO_96 < (c + 1) * (c + 1) * (c + 1) && c % TWO_32 == k as int
  }

  /** The word holds the first 32 bits behind the point of the square root of `p`. */
  ghost predicate SquareRootBits(p: nat, h: bv32) {
    exists c: nat :: c * c <= p * TWO_64 < (c + 1) * (c + 1) && c % TWO_32 == h as int
  }

  lemma CubeRoot(p: nat, c: nat, k: bv32)
    requires c * c * c <= p * TWO_96 < (c + 1) * (c + 1) * (c + 1) && c % TWO_32 == k as int
    ensures CubeRootBits(p, k)
  {}

  lemma ConstantsOfRow0(j: nat)
    requires j < 8
    ensures CubeRootBits(PRIMES[0][j], K[0][j])
  {
    hide CubeRootBits;
    match j
    case 0 => CubeRoot(2, 0x1428a2f98, 0x428a2f98);
    case 1 => CubeRoot(3, 0x171374491, 0x71374491);
    case 2 => CubeRoot(5, 0x1b5c0fbcf, 0xb5c0fbcf);
    case 3 => CubeRoot(7, 0x1e9b5dba5, 0xe9b5dba5);
    case 4 => CubeRoot(11, 0x23956c25b, 0x3956c25b);
    case 5 => CubeRoot(13, 0x259f111f1, 0x59f111f1);
    case 6 => CubeRoot(17, 0x2923f82a4, 0x923f82a4);
    case _ => CubeRoot(19, 0x2ab1c5ed5, 0xab1c5ed5);
  }

  lemma ConstantsOfRow1(j: nat)
    requires j < 8
    ensures CubeRootBits(PRIMES[1][j], K[1][j])
  {
    hide CubeRootBits;
    match j
    case 0 => CubeRoot(23, 0x2d807aa98, 0xd807aa98);
    case 1 => CubeRoot(29, 0x312835b01, 0x12835b01);
    case 2 => CubeRoot(31, 0x3243185be, 0x243185be);
    case 3 => CubeRoot(37, 0x3550c7dc3, 0x550c7dc3);
    case 4 => CubeRoot(41, 0x372be5d74, 0x72be5d74);
    case 5 => CubeRoot(43, 0x380deb1fe, 0x80deb1fe);
    case 6 => CubeRoot(47, 0x39bdc06a7, 0x9bdc06a7);
    case _ => CubeRoot(53, 0x3c19bf174, 0xc19bf174);
  }

  lemma ConstantsOfRow2(j: nat)
    requires j < 8
    ensures CubeRootBits(PRIMES[2][j], K[2][j])
  {
    hide CubeRootBits;
    match j
    case 0 => CubeRoot(59, 0x3e49b69c1, 0xe49b69c1);
    case 1 => CubeRoot(61, 0x3efbe4786, 0xefbe4786);
    case 2 => CubeRoot(67, 0x40fc19dc6, 0x0fc19dc6);
    case 3 => CubeRoot(71, 0x4240ca1cc, 0x240ca1cc);
    case 4 => CubeRoot(73, 0x42de92c6f, 0x2de92c6f);
    case 5 => CubeRoot(79, 0x44a7484aa, 0x4a7484aa);
    case 6 => CubeRoot(83, 0x45cb0a9dc, 0x5cb0a9dc);
    case _ => CubeRoot(89, 0x476f988da, 0x76f988da);
  }

  lemma ConstantsOfRow3(j: nat)
    requires j < 8
    ensures CubeRootBits(PRIMES[3][j], K[3][j])
  {
    hide CubeRootBits;
    match j
    case 0 => CubeRoot(97, 0x4983e5152, 0x983e5152);
    case 1 => CubeRoot(101, 0x4a831c66d, 0xa831c66d);
    case 2 => CubeRoot(103, 0x4b00327c8, 0xb00327c8);
    case 3 => CubeRoot(107, 0x4bf597fc7, 0xbf597fc7);
    case 4 => CubeRoot(109, 0x4c6e00bf3, 0xc6e00bf3);
    case 5 => CubeRoot(113, 0x4d5a79147, 0xd5a79147);
    case 6 => CubeRoot(127, 0x506ca6351, 0x06ca6351);
    case _ => CubeRoot(131, 0x514292967, 0x14292967);
  }

  lemma ConstantsOfRow4(j: nat)
    requires j < 8
    ensures CubeRootBits(PRIMES[4][j], K[4][j])
  {
    hide CubeRootBits;
    match j
    case 0 => CubeRoot(137, 0x527b70a85, 0x27b70a85);
    case 1 => CubeRoot(139, 0x52e1b2138, 0x2e1b2138);
    case 2 => CubeRoot(149, 0x54d2c6dfc, 0x4d2c6dfc);
    case 3 => CubeRoot(151, 0x553380d13, 0x53380d13);
    case 4 => CubeRoot(157, 0x5650a7354, 0x650a7354);
    case 5 => CubeRoot(163, 0x5766a0abb, 0x766a0abb);
    case 6 => CubeRoot(167, 0x581c2c92e, 0x81c2c92e);
    case _ => CubeRoot(173, 0x592722c85, 0x92722c85);
  }

  lemma ConstantsOfRow5(j: nat)
    requires j < 8
    ensures CubeRootBits(PRIMES[5][j], K[5][j])
  {
    hide CubeRootBits;
    match j
    case 0 => CubeRoot(179, 0x5a2bfe8a1, 0xa2bfe8a1);
    case 1 => CubeRoot(181, 0x5a81a664b, 0xa81a664b);
    case 2 => CubeRoot(191, 0x5c24b8b70, 0xc24b8b70);
    case 3 => CubeRoot(193, 0x5c76c51a3, 0xc76c51a3);
    case 4 => CubeRoot(197, 0x5d192e819, 0xd192e819);
    case 5 => CubeRoot(199, 0x5d6990624, 0xd6990624);
    case 6 => CubeRoot(211, 0x5f40e3585, 0xf40e3585);
    case _ => CubeRoot(223, 0x6106aa070, 0x106aa070);
  }

  lemma ConstantsOfRow6(j: nat)
    requires j < 8
    ensures CubeRootBits(PRIMES[6][j], K[6][j])
  {
    hide CubeRootBits;
    match j
    case 0 => CubeRoot(227, 0x619a4c116, 0x19a4c116);
    case 1 => CubeRoot(229, 0x61e376c08, 0x1e376c08);
    case 2 => CubeRoot(233, 0x62748774c, 0x2748774c);
    case 3 => CubeRoot(239, 0x634b0bcb5, 0x34b0bcb5);
    case 4 => CubeRoot(241, 0x6391c0cb3, 0x391c0cb3);
    case 5 => CubeRoot(251, 0x64ed8aa4a, 0x4ed8aa4a);
    case 6 => CubeRoot(257, 0x65b9cca4f, 0x5b9cca4f);
    case _ => CubeRoot(263, 0x6682e6ff3, 0x682e6ff3);
  }

  lemma ConstantsOfRow7(j: nat)
    requires j < 8
    ensures CubeRootBits(PRIMES[7][j], K[7][j])
  {
    hide CubeRootBits;
    match j
    case 0 => CubeRoot(269, 0x6748f82ee, 0x748f82ee);
    case 1 => CubeRoot(271, 0x678a5636f, 0x78a5636f);
    case 2 => CubeRoot(277, 0x684c87814, 0x84c87814);
    case 3 => CubeRoot(281, 0x68cc70208, 0x8cc70208);
    case 4 => CubeRoot(283, 0x690befffa, 0x90befffa);
    case 5 => CubeRoot(293, 0x6a4506ceb, 0xa4506ceb);
    case 6 => CubeRoot(307, 0x6bef9a3f7, 0xbef9a3f7);
    case _ => CubeRoot(311, 0x6c67178f2, 0xc67178f2);
  }

  /** Round constant `t` is the first 32 bits of the fraction of the cube root of prime `t`. */
  lemma RoundConstantsAreRoots(t: nat)
    requires t < 64
    ensures CubeRootBits(NthPrime(t), RoundConstant(t))
  {
    hide CubeRootBits, PRIMES, K;
    match t / 8
    case 0 => ConstantsOfRow0(t % 8);
    case 1 => ConstantsOfRow1(t % 8);
    case 2 => ConstantsOfRow2(t % 8);
    case 3 => ConstantsOfRow3(t % 8);
    case 4 => ConstantsOfRow4(t % 8);
    case 5 => ConstantsOfRow5(t % 8);
    case 6 => ConstantsOfRow6(t % 8);
    case _ => ConstantsOfRow7(t % 8);
  }

  lemma SquareRoot(p: nat, c: nat, h: bv32)
    requires c * c <= p * TWO_64 < (c + 1) * (c + 1) && c % TWO_32 == h as int
    ensures SquareRootBits(p, h)
  {}

  /** Word `j` of the initial state is the first 32 bits of the fraction of the square root of prime `j`. */
  lemma InitialStateIsRoots(j: nat)
    requires j < 8
    ensures SquareRootBits(NthPrime(j), H0[j])
  {
    hide SquareRootBits;
    match j
    case 0 => SquareRoot(2, 0x16a09e667, 0x6a09e667);
    case 1 => SquareRoot(3, 0x1bb67ae85, 0xbb67ae85);
    case 2 => SquareRoot(5, 0x23c6ef372, 0x3c6ef372);
    case 3 => SquareRoot(7, 0x2a54ff53a, 0xa54ff53a);
    case 4 => SquareRoot(11, 0x3510e527f, 0x510e527f);
    case 5 => SquareRoot(13, 0x39b05688c, 0x9b05688c);
    case 6 => SquareRoot(17, 0x41f83d9ab, 0x1f83d9ab);
    case _ => SquareRoot(19, 0x45be0cd19, 0x5be0cd19);
  }
}
