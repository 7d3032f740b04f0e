/** The one-block example published with FIPS 180-4: the digest of "abc", through every step. */
module Sha256Answer {
  import opened Sha256

  const ABC: Octets := [0x61, 0x62, 0x63]

  // ----- The block -----

  /** The message, the marker, zeros, and the length of 24 bits. */
  function Block(): (block: Octets)
    ensures |block| == 64
  {
    [0x61, 0x62, 0x63, 0x80] + Zeros(59) + [0x18]
  }

  lemma OctetsOfLength()
    ensures Octet(0) == 0 && Octet(24) == 0x18
  {}

  lemma {:induction false} ZeroOctets(width: nat)
    ensures BigEndianOctets(0, width) == Zeros(width)
    decreases width
  {
    if width > 0 {
      OctetsOfLength();
      ZeroOctets(width - 1);
    }
  }

  lemma OneBlock()
    ensures Pad(ABC) == Block()
  {
    OctetsOfLength();
    ZeroOctets(7);
    assert BigEndianOctets(24, 8) == BigEndianOctets(0, 7) + [Octet(24)];
    assert Pad(ABC) == ABC + [0x80] + Zeros(52) + (Zeros(7) + [0x18]);
  }

  // ----- The message schedule -----

  /** The words of the schedule, in rows of eight. */
  const WORDS: seq<seq<bv32>> := [
    [0x61626380, 0x00000000, 0x00000000, 0x00000000, 0x00000000, 0x00000000, 0x00000000, 0x00000000],
    [0x00000000, 0x00000000, 0x00000000, 0x00000000, 0x00000000, 0x00000000, 0x00000000, 0x00000018],
    [0x61626380, 0x000f0000, 0x7da86405, 0x600003c6, 0x3e9d7b78, 0x0183fc00, 0x12dcbfdb, 0xe2e2c38e],
    [0xc8215c1a, 0xb73679a2, 0xe5bc3909, 0x32663c5b, 0x9d209d67, 0xec8726cb, 0x702138a4, 0xd3b7973b],
    [0x93f5997f, 0x3b68ba73, 0xaff4ffc1, 0xf10a5c62, 0x0a8b3996, 0x72af830a, 0x9409e33e, 0x24641522],
    [0x9f47bf94, 0xf0a64f5a, 0x3e246a79, 0x27333ba3, 0x0c4763f2, 0x840abf27, 0x7a290d5d, 0x065c43da],
    [0xfb3e89cb, 0xcc7617db, 0xb9e66c34, 0xa9993667, 0x84badedd, 0xc21462bc, 0x1487472c, 0xb20f7a99],
    [0xef57b9cd, 0xebe6b238, 0x9fe3095e, 0x78bc8d4b, 0xa43fcf15, 0x668b2ff8, 0xeeaba2cc, 0x12b1edeb]]

  function Word(t: nat): bv32
    requires t < 64
  {
    WORDS[t / 8][t % 8]
  }

  lemma FirstWords(t: nat)
    requires t < 16
    ensures BigEndianWord(Block(), t) == Word(t)
  {
    if t == 0 {
      assert Block()[0] == 0x61 && Block()[1] == 0x62 && Block()[2] == 0x63 && Block()[3] == 0x80;
    } else if t == 15 {
      assert Block()[60] == 0 && Block()[61] == 0 && Block()[62] == 0 && Block()[63] == 0x18;
    } else {
      var i := 4 * t;
      assert Block()[i] == 0 && Block()[i + 1] == 0 && Block()[i + 2] == 0 && Block()[i + 3] == 0;
      assert Word(t) == 0;
    }
  }

  function Expanded(w16: bv32, w15: bv32, w7: bv32, w2: bv32): bv32 {
    Plus(Plus(Plus(w16, SmallSigma0(w15)), w7), SmallSigma1(w2))
  }

  lemma ExpandedRow2()
    ensures Expanded(0x61626380, 0x00000000, 0x00000000, 0x00000000) == 0x61626380
    ensures Expanded(0x00000000, 0x00000000, 0x00000000, 0x00000018) == 0x000f0000
    ensures Expanded(0x00000000, 0x00000000, 0x00000000, 0x61626380) == 0x7da86405
    ensures Expanded(0x00000000, 0x00000000, 0x00000000, 0x000f0000) == 0x600003c6
    ensures Expanded(0x00000000, 0x00000000, 0x00000000, 0x7da86405) == 0x3e9d7b78
    ensures Expanded(0x00000000, 0x00000000, 0x00000000, 0x600003c6) == 0x0183fc00
    ensures Expanded(0x00000000, 0x00000000, 0x00000018, 0x3e9d7b78) == 0x12dcbfdb
    ensures Expanded(0x00000000, 0x00000000, 0x61626380, 0x0183fc00) == 0xe2e2c38e
  {}

  lemma WordsOfRow2(j: nat)
    requires j < 8
    ensures var t := 16 + j; Expanded(Word(t - 16), Word(t - 15), Word(t - 7), Word(t - 2)) == Word(t)
  {
    hide Expanded;
    ExpandedRow2();
    match j
    case 0 =>
    case 1 =>
    case 2 =>
    case 3 =>
    case 4 =>
    case 5 =>
    case 6 =>
    case _ =>
  }

  lemma ExpandedRow3()
    ensures Expanded(0x00000000, 0x00000000, 0x000f0000, 0x12dcbfdb) == 0xc8215c1a
    ensures Expanded(0x00000000, 0x00000000, 0x7da86405, 0xe2e2c38e) == 0xb73679a2
    ensures Expanded(0x00000000, 0x00000000, 0x600003c6, 0xc8215c1a) == 0xe5bc3909
    ensures Expanded(0x00000000, 0x00000000, 0x3e9d7b78, 0xb73679a2) == 0x32663c5b
    ensures Expanded(0x00000000, 0x00000000, 0x0183fc00, 0xe5bc3909) == 0x9d209d67
    ensures Expanded(0x00000000, 0x00000000, 0x12dcbfdb, 0x32663c5b) == 0xec8726cb
    ensures Expanded(0x00000000, 0x00000018, 0xe2e2c38e, 0x9d209d67) == 0x702138a4
    ensures Expanded(0x00000018, 0x61626380, 0xc8215c1a, 0xec8726cb) == 0xd3b7973b
  {}

  lemma WordsOfRow3(j: nat)
    requires j < 8
    ensures var t := 24 + j; Expanded(Word(t - 16), Word(t - 15), Word(t - 7), Word(t - 2)) == Word(t)
  {
    hide Expanded;
    ExpandedRow3();
    match j
    case 0 =>
    case 1 =>
    case 2 =>
    case 3 =>
    case 4 =>
    case 5 =>
    case 6 =>
    case _ =>
  }

  lemma ExpandedRow4()
    ensures Expanded(0x61626380, 0x000f0000, 0xb73679a2, 0x702138a4) == 0x93f5997f
    ensures Expanded(0x000f0000, 0x7da86405, 0xe5bc3909, 0xd3b7973b) == 0x3b68ba73
    ensures Expanded(0x7da86405, 0x600003c6, 0x32663c5b, 0x93f5997f) == 0xaff4ffc1
    ensures Expanded(0x600003c6, 0x3e9d7b78, 0x9d209d67, 0x3b68ba73) == 0xf10a5c62
    ensures Expanded(0x3e9d7b78, 0x0183fc00, 0xec8726cb, 0xaff4ffc1) == 0x0a8b3996
    ensures Expanded(0x0183fc00, 0x12dcbfdb, 0x702138a4, 0xf10a5c62) == 0x72af830a
    ensures Expanded(0x12dcbfdb, 0xe2e2c38e, 0xd3b7973b, 0x0a8b3996) == 0x9409e33e
    ensures Expanded(0xe2e2c38e, 0xc8215c1a, 0x93f5997f, 0x72af830a) == 0x24641522
  {}

  lemma WordsOfRow4(j: nat)
    requires j < 8
    ensures var t := 32 + j; Expanded(Word(t - 16), Word(t - 15), Word(t - 7), Word(t - 2)) == Word(t)
  {
    hide Expanded;
    ExpandedRow4();
    match j
    case 0 =>
    case 1 =>
    case 2 =>
    case 3 =>
    case 4 =>
    case 5 =>
    case 6 =>
    case _ =>
  }

  lemma ExpandedRow5()
    ensures Expanded(0xc8215c1a, 0xb73679a2, 0x3b68ba73, 0x9409e33e) == 0x9f47bf94
    ensures Expanded(0xb73679a2, 0xe5bc3909, 0xaff4ffc1, 0x24641522) == 0xf0a64f5a
    ensures Expanded(0xe5bc3909, 0x32663c5b, 0xf10a5c62, 0x9f47bf94) == 0x3e246a79
    ensures Expanded(0x32663c5b, 0x9d209d67, 0x0a8b3996, 0xf0a64f5a) == 0x27333ba3
    ensures Expanded(0x9d209d67, 0xec8726cb, 0x72af830a, 0x3e246a79) == 0x0c4763f2
    ensures Expanded(0xec8726cb, 0x702138a4, 0x9409e33e, 0x27333ba3) == 0x840abf27
    ensures Expanded(0x702138a4, 0xd3b7973b, 0x24641522, 0x0c4763f2) == 0x7a290d5d
    ensures Expanded(0xd3b7973b, 0x93f5997f, 0x9f47bf94, 0x840abf27) == 0x065c43da
  {}

  lemma WordsOfRow5(j: nat)
    requires j < 8
    ensures var t := 40 + j; Expanded(Word(t - 16), Word(t - 15), Word(t - 7), Word(t - 2)) == Word(t)
  {
    hide Expanded;
    ExpandedRow5();
    match j
    case 0 =>
    case 1 =>
    case 2 =>
    case 3 =>
    case 4 =>
    case 5 =>
    case 6 =>
    case _ =>
  }

  lemma ExpandedRow6()
    ensures Expanded(0x93f5997f, 0x3b68ba73, 0xf0a64f5a, 0x7a290d5d) == 0xfb3e89cb
    ensures Expanded(0x3b68ba73, 0xaff4ffc1, 0x3e246a79, 0x065c43da) == 0xcc7617db
    ensures Expanded(0xaff4ffc1, 0xf10a5c62, 0x27333ba3, 0xfb3e89cb) == 0xb9e66c34
    ensures Expanded(0xf10a5c62, 0x0a8b3996, 0x0c4763f2, 0xcc7617db) == 0xa9993667
    ensures Expanded(0x0a8b3996, 0x72af830a, 0x840abf27, 0xb9e66c34) == 0x84badedd
    ensures Expanded(0x72af830a, 0x9409e33e, 0x7a290d5d, 0xa9993667) == 0xc21462bc
    ensures Expanded(0x9409e33e, 0x24641522, 0x065c43da, 0x84badedd) == 0x1487472c
    ensures Expanded(0x24641522, 0x9f47bf94, 0xfb3e89cb, 0xc21462bc) == 0xb20f7a99
  {}

  lemma WordsOfRow6(j: nat)
    requires j < 8
    ensures var t := 48 + j; Expanded(Word(t - 16), Word(t - 15), Word(t - 7), Word(t - 2)) == Word(t)
  {
    hide Expanded;
    ExpandedRow6();
    match j
    case 0 =>
    case 1 =>
    case 2 =>
    case 3 =>
    case 4 =>
    case 5 =>
    case 6 =>
    case _ =>
  }

  lemma ExpandedRow7()
    ensures Expanded(0x9f47bf94, 0xf0a64f5a, 0xcc7617db, 0x1487472c) == 0xef57b9cd
    ensures Expanded(0xf0a64f5a, 0x3e246a79, 0xb9e66c34, 0xb20f7a99) == 0xebe6b238
    ensures Expanded(0x3e246a79, 0x27333ba3, 0xa9993667, 0xef57b9cd) == 0x9fe3095e
    ensures Expanded(0x27333ba3, 0x0c4763f2, 0x84badedd, 0xebe6b238) == 0x78bc8d4b
    ensures Expanded(0x0c4763f2, 0x840abf27, 0xc21462bc, 0x9fe3095e) == 0xa43fcf15
    ensures Expanded(0x840abf27, 0x7a290d5d, 0x1487472c, 0x78bc8d4b) == 0x668b2ff8
    ensures Expanded(0x7a290d5d, 0x065c43da, 0xb20f7a99, 0xa43fcf15) == 0xeeaba2cc
    ensures Expanded(0x065c43da, 0xfb3e89cb, 0xef57b9cd, 0x668b2ff8) == 0x12b1edeb
  {}

  lemma WordsOfRow7(j: nat)
    requires j < 8
    ensures var t := 56 + j; Expanded(Word(t - 16), Word(t - 15), Word(t - 7), Word(t - 2)) == Word(t)
  {
    hide Expanded;
    ExpandedRow7();
    match j
    case 0 =>
    case 1 =>
    case 2 =>
    case 3 =>
    case 4 =>
    case 5 =>
    case 6 =>
    case _ =>
  }

  lemma WordExpands(t: nat)
    requires 16 <= t < 64
    ensures Expanded(Word(t - 16), Word(t - 15), Word(t - 7), Word(t - 2)) == Word(t)
  {
    hide Expanded, Word;
    match t / 8
    case 2 => WordsOfRow2(t % 8);
    case 3 => WordsOfRow3(t % 8);
    case 4 => WordsOfRow4(t % 8);
    case 5 => WordsOfRow5(t % 8);
    case 6 => WordsOfRow6(t % 8);
    case _ => WordsOfRow7(t % 8);
  }

  lemma {:induction false} WordsAre(t: nat)
    requires t < 64
    ensures Schedule(Block(), t) == Word(t)
    decreases t
  {
    hide Word, Expanded;
    if t < 16 {
      FirstWords(t);
    } else {
      WordsAre(t - 16);
      WordsAre(t - 15);
      WordsAre(t - 7);
      WordsAre(t - 2);
      WordExpands(t);
      ScheduleNext(Block(), t, Word(t - 16), Word(t - 15), Word(t - 7), Word(t - 2));
    }
  }

  lemma ScheduleNext(block: Octets, t: nat, w16: bv32, w15: bv32, w7: bv32, w2: bv32)
    requires |block| == 64 && 16 <= t && Schedule(block, t - 16) == w16 && Schedule(block, t - 15) == w15
    requires Schedule(block, t - 7) == w7 && Schedule(block, t - 2) == w2
    ensures Schedule(block, t) == Expanded(w16, w15, w7, w2)
  {
    hide SmallSigma0, SmallSigma1, Plus;
  }

  // ----- The rounds -----

  lemma Turns(t: nat, v: Working, k: bv32, w: bv32)
    requires t < 64 && Rounds(Load(H0), Block(), t) == v && RoundConstant(t) == k && Word(t) == w
    ensures Rounds(Load(H0), Block(), t + 1) == Round(v, k, w)
  {
    hide Round, RoundConstant, Schedule, Block, H0, Word;
    WordsAre(t);
  }

  lemma Rounds0()
    ensures Rounds(Load(H0), Block(), 8) ==
            Working(0x85a07b5f, 0xe5030380, 0x2b4209f5, 0x04409a6a,
                    0x0c657a79, 0x9b27a401, 0x714260ad, 0x43ada245)
  {
    hide Rounds, Block;
    NoRounds(Load(H0), Block());
    Turns(0, Working(0x6a09e667, 0xbb67ae85, 0x3c6ef372, 0xa54ff53a, 0x510e527f, 0x9b05688c, 0x1f83d9ab, 0x5be0cd19),
          0x428a2f98, 0x61626380);
    Turns(1, Working(0x5d6aebcd, 0x6a09e667, 0xbb67ae85, 0x3c6ef372, 0xfa2a4622, 0x510e527f, 0x9b05688c, 0x1f83d9ab),
          0x71374491, 0x00000000);
    Turns(2, Working(0x5a6ad9ad, 0x5d6aebcd, 0x6a09e667, 0xbb67ae85, 0x78ce7989, 0xfa2a4622, 0x510e527f, 0x9b05688c),
          0xb5c0fbcf, 0x00000000);
    Turns(3, Working(0xc8c347a7, 0x5a6ad9ad, 0x5d6aebcd, 0x6a09e667, 0xf92939eb, 0x78ce7989, 0xfa2a4622, 0x510e527f),
          0xe9b5dba5, 0x00000000);
    Turns(4, Working(0xd550f666, 0xc8c347a7, 0x5a6ad9ad, 0x5d6aebcd, 0x24e00850, 0xf92939eb, 0x78ce7989, 0xfa2a4622),
          0x3956c25b, 0x00000000);
    Turns(5, Working(0x04409a6a, 0xd550f666, 0xc8c347a7, 0x5a6ad9ad, 0x43ada245, 0x24e00850, 0xf92939eb, 0x78ce7989),
          0x59f111f1, 0x00000000);
    Turns(6, Working(0x2b4209f5, 0x04409a6a, 0xd550f666, 0xc8c347a7, 0x714260ad, 0x43ada245, 0x24e00850, 0xf92939eb),
          0x923f82a4, 0x00000000);
    Turns(7, Working(0xe5030380, 0x2b4209f5, 0x04409a6a, 0xd550f666, 0x9b27a401, 0x714260ad, 0x43ada245, 0x24e00850),
          0xab1c5ed5, 0x00000000);
  }

  lemma Rounds8()
    ensures Rounds(Load(H0), Block(), 16) ==
            Working(0xb0fa238e, 0xc0645fde, 0xd932eb16, 0x87912990,
                    0x07590dcd, 0x0b92f20c, 0x745a48de, 0x1e578218)
  {
    hide Rounds, Block;
    Rounds0();
    Turns(8, Working(0x85a07b5f, 0xe5030380, 0x2b4209f5, 0x04409a6a, 0x0c657a79, 0x9b27a401, 0x714260ad, 0x43ada245),
          0xd807aa98, 0x00000000);
    Turns(9, Working(0x8e04ecb9, 0x85a07b5f, 0xe5030380, 0x2b4209f5, 0x32ca2d8c, 0x0c657a79, 0x9b27a401, 0x714260ad),
          0x12835b01, 0x00000000);
    Turns(10, Working(0x8c87346b, 0x8e04ecb9, 0x85a07b5f, 0xe5030380, 0x1cc92596, 0x32ca2d8c, 0x0c657a79, 0x9b27a401),
          0x243185be, 0x00000000);
    Turns(11, Working(0x4798a3f4, 0x8c87346b, 0x8e04ecb9, 0x85a07b5f, 0x436b23e8, 0x1cc92596, 0x32ca2d8c, 0x0c657a79),
          0x550c7dc3, 0x00000000);
    Turns(12, Working(0xf71fc5a9, 0x4798a3f4, 0x8c87346b, 0x8e04ecb9, 0x816fd6e9, 0x436b23e8, 0x1cc92596, 0x32ca2d8c),
          0x72be5d74, 0x00000000);
    Turns(13, Working(0x87912990, 0xf71fc5a9, 0x4798a3f4, 0x8c87346b, 0x1e578218, 0x816fd6e9, 0x436b23e8, 0x1cc92596),
          0x80deb1fe, 0x00000000);
    Turns(14, Working(0xd932eb16, 0x87912990, 0xf71fc5a9, 0x4798a3f4, 0x745a48de, 0x1e578218, 0x816fd6e9, 0x436b23e8),
          0x9bdc06a7, 0x00000000);
    Turns(15, Working(0xc0645fde, 0xd932eb16, 0x87912990, 0xf71fc5a9, 0x0b92f20c, 0x745a48de, 0x1e578218, 0x816fd6e9),
          0xc19bf174, 0x00000018);
  }

  lemma Rounds16()
    ensures Rounds(Load(H0), Block(), 24) ==
            Working(0xc5d53d8d, 0xa7a3623f, 0xc2606d6d, 0x9dc68b63,
                    0xaa47c347, 0x49f5114a, 0xe1257970, 0x8ada8930)
  {
    hide Rounds, Block;
    Rounds8();
    Turns(16, Working(0xb0fa238e, 0xc0645fde, 0xd932eb16, 0x87912990, 0x07590dcd, 0x0b92f20c, 0x745a48de, 0x1e578218),
          0xe49b69c1, 0x61626380);
    Turns(17, Working(0x21da9a9b, 0xb0fa238e, 0xc0645fde, 0xd932eb16, 0x8034229c, 0x07590dcd, 0x0b92f20c, 0x745a48de),
          0xefbe4786, 0x000f0000);
    Turns(18, Working(0xc2fbd9d1, 0x21da9a9b, 0xb0fa238e, 0xc0645fde, 0x846ee454, 0x8034229c, 0x07590dcd, 0x0b92f20c),
          0x0fc19dc6, 0x7da86405);
    Turns(19, Working(0xfe777bbf, 0xc2fbd9d1, 0x21da9a9b, 0xb0fa238e, 0xcc899961, 0x846ee454, 0x8034229c, 0x07590dcd),
          0x240ca1cc, 0x600003c6);
    Turns(20, Working(0xe1f20c33, 0xfe777bbf, 0xc2fbd9d1, 0x21da9a9b, 0xb0638179, 0xcc899961, 0x846ee454, 0x8034229c),
          0x2de92c6f, 0x3e9d7b78);
    Turns(21, Working(0x9dc68b63, 0xe1f20c33, 0xfe777bbf, 0xc2fbd9d1, 0x8ada8930, 0xb0638179, 0xcc899961, 0x846ee454),
          0x4a7484aa, 0x0183fc00);
    Turns(22, Working(0xc2606d6d, 0x9dc68b63, 0xe1f20c33, 0xfe777bbf, 0xe1257970, 0x8ada8930, 0xb0638179, 0xcc899961),
          0x5cb0a9dc, 0x12dcbfdb);
    Turns(23, Working(0xa7a3623f, 0xc2606d6d, 0x9dc68b63, 0xe1f20c33, 0x49f5114a, 0xe1257970, 0x8ada8930, 0xb0638179),
          0x76f988da, 0xe2e2c38e);
  }

  lemma Rounds24()
    ensures Rounds(Load(H0), Block(), 32) ==
            Working(0x73b33bf5, 0xea992a22, 0xa0060b30, 0x363482c9,
                    0xba591112, 0x0109ab3a, 0xade79437, 0x6112a3b7)
  {
    hide Rounds, Block;
    Rounds16();
    Turns(24, Working(0xc5d53d8d, 0xa7a3623f, 0xc2606d6d, 0x9dc68b63, 0xaa47c347, 0x49f5114a, 0xe1257970, 0x8ada8930),
          0x983e5152, 0xc8215c1a);
    Turns(25, Working(0x1c2c2838, 0xc5d53d8d, 0xa7a3623f, 0xc2606d6d, 0x2823ef91, 0xaa47c347, 0x49f5114a, 0xe1257970),
          0xa831c66d, 0xb73679a2);
    Turns(26, Working(0xcde8037d, 0x1c2c2838, 0xc5d53d8d, 0xa7a3623f, 0x14383d8e, 0x2823ef91, 0xaa47c347, 0x49f5114a),
          0xb00327c8, 0xe5bc3909);
    Turns(27, Working(0xb62ec4bc, 0xcde8037d, 0x1c2c2838, 0xc5d53d8d, 0xc74c6516, 0x14383d8e, 0x2823ef91, 0xaa47c347),
          0xbf597fc7, 0x32663c5b);
    Turns(28, Working(0x77d37528, 0xb62ec4bc, 0xcde8037d, 0x1c2c2838, 0xedffbff8, 0xc74c6516, 0x14383d8e, 0x2823ef91),
          0xc6e00bf3, 0x9d209d67);
    Turns(29, Working(0x363482c9, 0x77d37528, 0xb62ec4bc, 0xcde8037d, 0x6112a3b7, 0xedffbff8, 0xc74c6516, 0x14383d8e),
          0xd5a79147, 0xec8726cb);
    Turns(30, Working(0xa0060b30, 0x363482c9, 0x77d37528, 0xb62ec4bc, 0xade79437, 0x6112a3b7, 0xedffbff8, 0xc74c6516),
          0x06ca6351, 0x702138a4);
    Turns(31, Working(0xea992a22, 0xa0060b30, 0x363482c9, 0x77d37528, 0x0109ab3a, 0xade79437, 0x6112a3b7, 0xedffbff8),
          0x14292967, 0xd3b7973b);
  }

  lemma Rounds32()
    ensures Rounds(Load(H0), Block(), 40) ==
            Working(0x79ea687a, 0x6dc57a8a, 0x34df1604, 0x41a65cb1,
                    0x1efbc0a0, 0xf0781bc8, 0xa507a53d, 0x0772a26b)
  {
    hide Rounds, Block;
    Rounds24();
    Turns(32, Working(0x73b33bf5, 0xea992a22, 0xa0060b30, 0x363482c9, 0xba591112, 0x0109ab3a, 0xade79437, 0x6112a3b7),
          0x27b70a85, 0x93f5997f);
    Turns(33, Working(0x98e12507, 0x73b33bf5, 0xea992a22, 0xa0060b30, 0x9cd9f5f6, 0xba591112, 0x0109ab3a, 0xade79437),
          0x2e1b2138, 0x3b68ba73);
    Turns(34, Working(0xfe604df5, 0x98e12507, 0x73b33bf5, 0xea992a22, 0x59249dd3, 0x9cd9f5f6, 0xba591112, 0x0109ab3a),
          0x4d2c6dfc, 0xaff4ffc1);
    Turns(35, Working(0xa9a7738c, 0xfe604df5, 0x98e12507, 0x73b33bf5, 0x085f3833, 0x59249dd3, 0x9cd9f5f6, 0xba591112),
          0x53380d13, 0xf10a5c62);
    Turns(36, Working(0x65a0cfe4, 0xa9a7738c, 0xfe604df5, 0x98e12507, 0xf4b002d6, 0x085f3833, 0x59249dd3, 0x9cd9f5f6),
          0x650a7354, 0x0a8b3996);
    Turns(37, Working(0x41a65cb1, 0x65a0cfe4, 0xa9a7738c, 0xfe604df5, 0x0772a26b, 0xf4b002d6, 0x085f3833, 0x59249dd3),
          0x766a0abb, 0x72af830a);
    Turns(38, Working(0x34df1604, 0x41a65cb1, 0x65a0cfe4, 0xa9a7738c, 0xa507a53d, 0x0772a26b, 0xf4b002d6, 0x085f3833),
          0x81c2c92e, 0x9409e33e);
    Turns(39, Working(0x6dc57a8a, 0x34df1604, 0x41a65cb1, 0x65a0cfe4, 0xf0781bc8, 0xa507a53d, 0x0772a26b, 0xf4b002d6),
          0x92722c85, 0x24641522);
  }

  lemma Rounds40()
    ensures Rounds(Load(H0), Block(), 48) ==
            Working(0x4172328d, 0xa14c14b0, 0x72ab4b91, 0x26628815,
                    0xfecf0bc6, 0xd57b94a9, 0xb7755da1, 0xa80f11f0)
  {
    hide Rounds, Block;
    Rounds32();
    Turns(40, Working(0x79ea687a, 0x6dc57a8a, 0x34df1604, 0x41a65cb1, 0x1efbc0a0, 0xf0781bc8, 0xa507a53d, 0x0772a26b),
          0xa2bfe8a1, 0x9f47bf94);
    Turns(41, Working(0xd6670766, 0x79ea687a, 0x6dc57a8a, 0x34df1604, 0x26352d63, 0x1efbc0a0, 0xf0781bc8, 0xa507a53d),
          0xa81a664b, 0xf0a64f5a);
    Turns(42, Working(0xdf46652f, 0xd6670766, 0x79ea687a, 0x6dc57a8a, 0x838b2711, 0x26352d63, 0x1efbc0a0, 0xf0781bc8),
          0xc24b8b70, 0x3e246a79);
    Turns(43, Working(0x17aa0dfe, 0xdf46652f, 0xd6670766, 0x79ea687a, 0xdecd4715, 0x838b2711, 0x26352d63, 0x1efbc0a0),
          0xc76c51a3, 0x27333ba3);
    Turns(44, Working(0x9d4baf93, 0x17aa0dfe, 0xdf46652f, 0xd6670766, 0xfda24c2e, 0xdecd4715, 0x838b2711, 0x26352d63),
          0xd192e819, 0x0c4763f2);
    Turns(45, Working(0x26628815, 0x9d4baf93, 0x17aa0dfe, 0xdf46652f, 0xa80f11f0, 0xfda24c2e, 0xdecd4715, 0x838b2711),
          0xd6990624, 0x840abf27);
    Turns(46, Working(0x72ab4b91, 0x26628815, 0x9d4baf93, 0x17aa0dfe, 0xb7755da1, 0xa80f11f0, 0xfda24c2e, 0xdecd4715),
          0xf40e3585, 0x7a290d5d);
    Turns(47, Working(0xa14c14b0, 0x72ab4b91, 0x26628815, 0x9d4baf93, 0xd57b94a9, 0xb7755da1, 0xa80f11f0, 0xfda24c2e),
          0x106aa070, 0x065c43da);
  }

  lemma Rounds48()
    ensures Rounds(Load(H0), Block(), 56) ==
            Working(0x38cc9913, 0x3ec45cdb, 0xf5702fdb, 0x101fd28f,
                    0x54cb266b, 0xe50e1b4f, 0x9f4787c3, 0x529e7d00)
  {
    hide Rounds, Block;
    Rounds40();
    Turns(48, Working(0x4172328d, 0xa14c14b0, 0x72ab4b91, 0x26628815, 0xfecf0bc6, 0xd57b94a9, 0xb7755da1, 0xa80f11f0),
          0x19a4c116, 0xfb3e89cb);
    Turns(49, Working(0x05757ceb, 0x4172328d, 0xa14c14b0, 0x72ab4b91, 0xbd714038, 0xfecf0bc6, 0xd57b94a9, 0xb7755da1),
          0x1e376c08, 0xcc7617db);
    Turns(50, Working(0xf11bfaa8, 0x05757ceb, 0x4172328d, 0xa14c14b0, 0x6e5c390c, 0xbd714038, 0xfecf0bc6, 0xd57b94a9),
          0x2748774c, 0xb9e66c34);
    Turns(51, Working(0x7a0508a1, 0xf11bfaa8, 0x05757ceb, 0x4172328d, 0x52f1ccf7, 0x6e5c390c, 0xbd714038, 0xfecf0bc6),
          0x34b0bcb5, 0xa9993667);
    Turns(52, Working(0x886e7a22, 0x7a0508a1, 0xf11bfaa8, 0x05757ceb, 0x49231c1e, 0x52f1ccf7, 0x6e5c390c, 0xbd714038),
          0x391c0cb3, 0x84badedd);
    Turns(53, Working(0x101fd28f, 0x886e7a22, 0x7a0508a1, 0xf11bfaa8, 0x529e7d00, 0x49231c1e, 0x52f1ccf7, 0x6e5c390c),
          0x4ed8aa4a, 0xc21462bc);
    Turns(54, Working(0xf5702fdb, 0x101fd28f, 0x886e7a22, 0x7a0508a1, 0x9f4787c3, 0x529e7d00, 0x49231c1e, 0x52f1ccf7),
          0x5b9cca4f, 0x1487472c);
    Turns(55, Working(0x3ec45cdb, 0xf5702fdb, 0x101fd28f, 0x886e7a22, 0xe50e1b4f, 0x9f4787c3, 0x529e7d00, 0x49231c1e),
          0x682e6ff3, 0xb20f7a99);
  }

  lemma Rounds56()
    ensures Rounds(Load(H0), Block(), 64) ==
            Working(0x506e3058, 0xd39a2165, 0x04d24d6c, 0xb85e2ce9,
                    0x5ef50f24, 0xfb121210, 0x948d25b6, 0x961f4894)
  {
    hide Rounds, Block;
    Rounds48();
    Turns(56, Working(0x38cc9913, 0x3ec45cdb, 0xf5702fdb, 0x101fd28f, 0x54cb266b, 0xe50e1b4f, 0x9f4787c3, 0x529e7d00),
          0x748f82ee, 0xef57b9cd);
    Turns(57, Working(0xfcd1887b, 0x38cc9913, 0x3ec45cdb, 0xf5702fdb, 0x9b5e906c, 0x54cb266b, 0xe50e1b4f, 0x9f4787c3),
          0x78a5636f, 0xebe6b238);
    Turns(58, Working(0xc062d46f, 0xfcd1887b, 0x38cc9913, 0x3ec45cdb, 0x7e44008e, 0x9b5e906c, 0x54cb266b, 0xe50e1b4f),
          0x84c87814, 0x9fe3095e);
    Turns(59, Working(0xffb70472, 0xc062d46f, 0xfcd1887b, 0x38cc9913, 0x6d83bfc6, 0x7e44008e, 0x9b5e906c, 0x54cb266b),
          0x8cc70208, 0x78bc8d4b);
    Turns(60, Working(0xb6ae8fff, 0xffb70472, 0xc062d46f, 0xfcd1887b, 0xb21bad3d, 0x6d83bfc6, 0x7e44008e, 0x9b5e906c),
          0x90befffa, 0xa43fcf15);
    Turns(61, Working(0xb85e2ce9, 0xb6ae8fff, 0xffb70472, 0xc062d46f, 0x961f4894, 0xb21bad3d, 0x6d83bfc6, 0x7e44008e),
          0xa4506ceb, 0x668b2ff8);
    Turns(62, Working(0x04d24d6c, 0xb85e2ce9, 0xb6ae8fff, 0xffb70472, 0x948d25b6, 0x961f4894, 0xb21bad3d, 0x6d83bfc6),
          0xbef9a3f7, 0xeeaba2cc);
    Turns(63, Working(0xd39a2165, 0x04d24d6c, 0xb85e2ce9, 0xb6ae8fff, 0xfb121210, 0x948d25b6, 0x961f4894, 0xb21bad3d),
          0xc67178f2, 0x12b1edeb);
  }

  lemma BlockCompressed()
    ensures Compress(H0, Block()) ==
            [0xba7816bf, 0x8f01cfea, 0x414140de, 0x5dae2223, 0xb00361a3, 0x96177a9c, 0xb410ff61, 0xf20015ad]
  {
    hide Rounds, Block;
    Rounds56();
  }

  // ----- The digest -----

  lemma WordThenRest(s: seq<bv32>, i: nat)
    requires i < |s|
    ensures StateOctets(s[i..]) == WordOctets(s[i]) + StateOctets(s[i + 1..])
  {
    hide WordOctets;
    assert s[i..][0] == s[i] && s[i..][1..] == s[i + 1..];
  }

  lemma OctetsOfWords()
    ensures WordOctets(0xba7816bf) == [0xba, 0x78, 0x16, 0xbf]
    ensures WordOctets(0x8f01cfea) == [0x8f, 0x01, 0xcf, 0xea]
    ensures WordOctets(0x414140de) == [0x41, 0x41, 0x40, 0xde]
    ensures WordOctets(0x5dae2223) == [0x5d, 0xae, 0x22, 0x23]
    ensures WordOctets(0xb00361a3) == [0xb0, 0x03, 0x61, 0xa3]
    ensures WordOctets(0x96177a9c) == [0x96, 0x17, 0x7a, 0x9c]
    ensures WordOctets(0xb410ff61) == [0xb4, 0x10, 0xff, 0x61]
    ensures WordOctets(0xf20015ad) == [0xf2, 0x00, 0x15, 0xad]
  {}

  lemma Serialized(s: seq<bv32>)
    requires |s| == 8
    ensures StateOctets(s) == WordOctets(s[0]) + WordOctets(s[1]) + WordOctets(s[2]) + WordOctets(s[3])
                            + (WordOctets(s[4]) + WordOctets(s[5]) + WordOctets(s[6]) + WordOctets(s[7]))
  {
    hide WordOctets, StateOctets;
    HalfSerialized(s, 4);
    HalfSerialized(s, 0);
    assert s[0..] == s;
    assert StateOctets(s[8..]) == [] by { NoWords(s[8..]); }
  }

  lemma HalfSerialized(s: seq<bv32>, i: nat)
    requires i + 4 <= |s|
    ensures StateOctets(s[i..]) == WordOctets(s[i]) + WordOctets(s[i + 1]) + WordOctets(s[i + 2])
                                 + WordOctets(s[i + 3]) + StateOctets(s[i + 4..])
  {
    hide WordOctets, StateOctets;
    WordThenRest(s, i);
    WordThenRest(s, i + 1);
    WordThenRest(s, i + 2);
    WordThenRest(s, i + 3);
  }

  lemma NoWords(s: seq<bv32>)
    requires s == []
    ensures StateOctets(s) == []
  {}

  /** The digest of "abc". */
  lemma DigestOfAbc()
    ensures Digest(ABC) == [
              0xba, 0x78, 0x16, 0xbf, 0x8f, 0x01, 0xcf, 0xea, 0x41, 0x41, 0x40, 0xde, 0x5d, 0xae, 0x22, 0x23,
              0xb0, 0x03, 0x61, 0xa3, 0x96, 0x17, 0x7a, 0x9c, 0xb4, 0x10, 0xff, 0x61, 0xf2, 0x00, 0x15, 0xad]
  {
    hide HashBlocks, Compress, Pad, Block, WordOctets, StateOctets;
    OneBlock();
    HashOne(H0, Block());
    BlockCompressed();
    OctetsOfWords();
    Serialized(Compress(H0, Block()));
  }
}
