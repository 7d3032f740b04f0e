/** Streaming SHA-256 against FIPS 180-4: preprocessing of section 5.1.1, hashing of section 6.2.2. */
module Sha256 {
  import opened Basics

  /** The table of round constants, in rows of eight. */
  const K: seq<seq<bv32>> := [
    [0x428a2f98, 0x71374491, 0xb5c0fbcf, 0xe9b5dba5, 0x3956c25b, 0x59f111f1, 0x923f82a4, 0xab1c5ed5],
    [0xd807aa98, 0x12835b01, 0x243185be, 0x550c7dc3, 0x72be5d74, 0x80deb1fe, 0x9bdc06a7, 0xc19bf174],
    [0xe49b69c1, 0xefbe4786, 0x0fc19dc6, 0x240ca1cc, 0x2de92c6f, 0x4a7484aa, 0x5cb0a9dc, 0x76f988da],
    [0x983e5152, 0xa831c66d, 0xb00327c8, 0xbf597fc7, 0xc6e00bf3, 0xd5a79147, 0x06ca6351, 0x14292967],
    [0x27b70a85, 0x2e1b2138, 0x4d2c6dfc, 0x53380d13, 0x650a7354, 0x766a0abb, 0x81c2c92e, 0x92722c85],
    [0xa2bfe8a1, 0xa81a664b, 0xc24b8b70, 0xc76c51a3, 0xd192e819, 0xd6990624, 0xf40e3585, 0x106aa070],
    [0x19a4c116, 0x1e376c08, 0x2748774c, 0x34b0bcb5, 0x391c0cb3, 0x4ed8aa4a, 0x5b9cca4f, 0x682e6ff3],
    [0x748f82ee, 0x78a5636f, 0x84c87814, 0x8cc70208, 0x90befffa, 0xa4506ceb, 0xbef9a3f7, 0xc67178f2]]

  const H0: seq<bv32> := [
    0x6a09e667, 0xbb67ae85, 0x3c6ef372, 0xa54ff53a, 0x510e527f, 0x9b05688c, 0x1f83d9ab, 0x5be0cd19]

  const TWO_61: int := 0x2000_0000_0000_0000

  type Octets = seq<bv8>

  // ----- Sections 3.2 and 4.1.2: the operations -----

  /** Addition modulo 2^32. */
  function Plus(x: bv32, y: bv32): bv32 {
    x + y
  }

  function RotR(x: bv32, n: bv32): bv32
    requires n < 32
  {
    (x >> n) | (x << (32 - n))
  }

  function SmallSigma0(x: bv32): bv32 {
    RotR(x, 7) ^ RotR(x, 18) ^ (x >> 3)
  }

  function SmallSigma1(x: bv32): bv32 {
    RotR(x, 17) ^ RotR(x, 19) ^ (x >> 10)
  }

  function BigSigma0(x: bv32): bv32 {
    RotR(x, 2) ^ RotR(x, 13) ^ RotR(x, 22)
  }

  function BigSigma1(x: bv32): bv32 {
    RotR(x, 6) ^ RotR(x, 11) ^ RotR(x, 25)
  }

  function Ch(x: bv32, y: bv32, z: bv32): bv32 {
    (x & y) ^ ((!x) & z)
  }

  function Maj(x: bv32, y: bv32, z: bv32): bv32 {
    (x & y) ^ (x & z) ^ (y & z)
  }

  // ----- Section 6.2.2: one block -----

  function BigEndianWord(block: Octets, i: nat): bv32
    requires 4 * i + 4 <= |block|
  {
    ((block[4 * i] as bv32) << 24) | ((block[4 * i + 1] as bv32) << 16)
    | ((block[4 * i + 2] as bv32) << 8) | (block[4 * i + 3] as bv32)
  }

  /** Word `t` of the message schedule. */
  function Schedule(block: Octets, t: nat): bv32
    requires |block| == 64
  {
    if t < 16 then BigEndianWord(block, t)
    else
      Plus(Plus(Plus(Schedule(block, t - 16), SmallSigma0(Schedule(block, t - 15))), Schedule(block, t - 7)),
           SmallSigma1(Schedule(block, t - 2)))
  }

  datatype Working = Working(a: bv32, b: bv32, c: bv32, d: bv32, e: bv32, f: bv32, g: bv32, h: bv32)

  function Round(v: Working, k: bv32, w: bv32): Working {
    var t1 := Plus(Plus(Plus(Plus(v.h, BigSigma1(v.e)), Ch(v.e, v.f, v.g)), k), w);
    var t2 := Plus(BigSigma0(v.a), Maj(v.a, v.b, v.c));
    Working(Plus(t1, t2), v.a, v.b, v.c, Plus(v.d, t1), v.e, v.f, v.g)
  }

  function RoundConstant(t: nat): bv32
    requires t < 64
  {
    K[t / 8][t % 8]
  }

  /** The working variables after the first `t` rounds. */
  function Rounds(v: Working, block: Octets, t: nat): Working
    requires |block| == 64 && t <= 64
  {
    if t == 0 then v else Round(Rounds(v, block, t - 1), RoundConstant(t - 1), Schedule(block, t - 1))
  }

  type State = s: seq<bv32> | |s| == 8 witness H0

  function Load(s: State): Working {
    Working(s[0], s[1], s[2], s[3], s[4], s[5], s[6], s[7])
  }

  function AddWorking(s: State, v: Working): State {
    [Plus(s[0], v.a), Plus(s[1], v.b), Plus(s[2], v.c), Plus(s[3], v.d),
     Plus(s[4], v.e), Plus(s[5], v.f), Plus(s[6], v.g), Plus(s[7], v.h)]
  }

  function Compress(s: State, block: Octets): State
    requires |block| == 64
  {
    AddWorking(s, Rounds(Load(s), block, 64))
  }

  // ----- Section 5.1.1 and the fold over the blocks -----

  /** The low byte of `n`. */
  function Octet(n: nat): bv8 {
    (n % 256) as bv8
  }

  function BigEndianOctets(n: nat, width: nat): (r: Octets)
    ensures |r| == width
  {
    if width == 0 then [] else BigEndianOctets(n / 256, width - 1) + [Octet(n)]
  }

  function Zeros(n: nat): (r: Octets)
    ensures |r| == n
  {
    seq(n, _ => 0)
  }

  /** The least number of zero bytes that leaves room for the length in the last block. */
  function ZeroCount(n: nat): (k: nat)
    ensures (n + 1 + k + 8) % 64 == 0 && k < 64
  {
    (119 - n % 64) % 64
  }

  function Pad(m: Octets): (r: Octets)
    ensures |r| % 64 == 0
  {
    m + [0x80] + Zeros(ZeroCount(|m|)) + BigEndianOctets(8 * |m|, 8)
  }

  function HashBlocks(s: State, data: Octets): State
    requires |data| % 64 == 0
    decreases |data|
  {
    if data == [] then s else HashBlocks(Compress(s, data[..64]), data[64..])
  }

  function WordOctets(w: bv32): Octets {
    [((w >> 24) & 0xFF) as bv8, ((w >> 16) & 0xFF) as bv8, ((w >> 8) & 0xFF) as bv8, (w & 0xFF) as bv8]
  }

  function StateOctets(s: seq<bv32>): Octets {
    if s == [] then [] else WordOctets(s[0]) + StateOctets(s[1..])
  }

  /** The digest of a message. */
  function Digest(m: Octets): Octets {
    StateOctets(HashBlocks(H0, Pad(m)))
  }

  lemma {:induction false} HashConcat(s: State, a: Octets, b: Octets)
    requires |a| % 64 == 0 && |b| % 64 == 0
    ensures HashBlocks(s, a + b) == HashBlocks(HashBlocks(s, a), b)
    decreases |a|
  {
    hide Compress;
    if a == [] {
      assert a + b == b;
    } else {
      assert (a + b)[..64] == a[..64];
      assert (a + b)[64..] == a[64..] + b;
      HashConcat(Compress(s, a[..64]), a[64..], b);
    }
  }

  lemma HashOne(s: State, block: Octets)
    requires |block| == 64
    ensures HashBlocks(s, block) == Compress(s, block)
  {
    hide Compress;
    assert block[..64] == block && block[64..] == [];
  }

  // ----- The implementation -----

  lemma ScheduleLow(block: Octets, t: nat)
    requires |block| == 64 && t < 16
    ensures Schedule(block, t) == BigEndianWord(block, t)
  {}

  lemma ScheduleHigh(block: Octets, t: nat, w16: bv32, s0: bv32, w7: bv32, s1: bv32)
    requires |block| == 64 && 16 <= t
    requires w16 == Schedule(block, t - 16) && w7 == Schedule(block, t - 7)
    requires s0 == SmallSigma0(Schedule(block, t - 15)) && s1 == SmallSigma1(Schedule(block, t - 2))
    ensures Schedule(block, t) == Plus(Plus(Plus(w16, s0), w7), s1)
  {
    hide SmallSigma0, SmallSigma1, Plus;
  }

  /** Expands the message schedule. */
  method Expand(block: Octets) returns (w: array<bv32>)
    requires |block| == 64
    ensures fresh(w) && w.Length == 64 && forall t :: 0 <= t < 64 ==> w[t] == Schedule(block, t)
  {
    hide Schedule, BigEndianWord, SmallSigma0, SmallSigma1, Plus;
    w := new bv32[64];
    for i := 0 to 16
      invariant forall t :: 0 <= t < i ==> w[t] == Schedule(block, t)
    {
      ScheduleLow(block, i);
      w[i] := BigEndianWord(block, i);
    }
    for i := 16 to 64
      invariant forall t :: 0 <= t < i ==> w[t] == Schedule(block, t)
    {
      var s0 := SmallSigma0(w[i - 15]);
      var s1 := SmallSigma1(w[i - 2]);
      ScheduleHigh(block, i, w[i - 16], s0, w[i - 7], s1);
      w[i] := Plus(Plus(Plus(w[i - 16], s0), w[i - 7]), s1);
    }
  }

  lemma RoundsStep(v: Working, block: Octets, t: nat)
    requires |block| == 64 && t < 64
    ensures Rounds(v, block, t + 1) == Round(Rounds(v, block, t), RoundConstant(t), Schedule(block, t))
  {
    hide Round, RoundConstant, Schedule;
  }

  /** The 64 rounds over local variables. */
  method RunRounds(initial: Working, block: Octets) returns (v: Working)
    requires |block| == 64
    ensures v == Rounds(initial, block, 64)
  {
    hide Schedule, Rounds, RoundConstant, BigSigma0, BigSigma1, Ch, Maj, Plus;
    var w := Expand(block);
    var a, b, c, d := initial.a, initial.b, initial.c, initial.d;
    var e, f, g, h := initial.e, initial.f, initial.g, initial.h;
    NoRounds(initial, block);
    for i := 0 to 64
      invariant Working(a, b, c, d, e, f, g, h) == Rounds(initial, block, i)
      invariant forall t :: 0 <= t < 64 ==> w[t] == Schedule(block, t)
    {
      RoundsStep(initial, block, i);
      var temp1 := Plus(Plus(Plus(Plus(h, BigSigma1(e)), Ch(e, f, g)), RoundConstant(i)), w[i]);
      var temp2 := Plus(BigSigma0(a), Maj(a, b, c));
      h := g;
      g := f;
      f := e;
      e := Plus(d, temp1);
      d := c;
      c := b;
      b := a;
      a := Plus(temp1, temp2);
    }
    v := Working(a, b, c, d, e, f, g, h);
  }

  lemma NoRounds(v: Working, block: Octets)
    requires |block| == 64
    ensures Rounds(v, block, 0) == v
  {}

  /** Folds one block into the state. */
  method ProcessBlock(state: array<bv32>, block: Octets)
    requires state.Length == 8 && |block| == 64
    modifies state
    ensures state[..] == Compress(old(state[..]), block)
  {
    hide Rounds, Plus;
    ghost var before := state[..];
    var v := RunRounds(Working(state[0], state[1], state[2], state[3], state[4], state[5], state[6], state[7]), block);
    state[0] := Plus(state[0], v.a);
    state[1] := Plus(state[1], v.b);
    state[2] := Plus(state[2], v.c);
    state[3] := Plus(state[3], v.d);
    state[4] := Plus(state[4], v.e);
    state[5] := Plus(state[5], v.f);
    state[6] := Plus(state[6], v.g);
    state[7] := Plus(state[7], v.h);
    assert state[..] == AddWorking(before, v);
  }

  lemma WholeBlocks(n: nat, k: nat)
    ensures (n - n % 64) % 64 == 0 && (n - n % 64 + k) % 64 == k % 64
  {}

  lemma TotalWraps(total: nat, n: nat, k: nat)
    requires total == n % TWO_64
    ensures (total + k) % TWO_64 == (n + k) % TWO_64
  {}

  lemma AbsorbBlock(m: Octets, block: Octets)
    requires |m| % 64 == 0 && |block| == 64
    ensures HashBlocks(H0, m + block) == Compress(HashBlocks(H0, m), block)
  {
    hide Compress;
    HashConcat(H0, m, block);
    HashOne(HashBlocks(H0, m), block);
  }

  /** Hashes byte strings given piece by piece. */
  class Hasher {
    const state: array<bv32>
    const buffer: array<bv8>
    var buffered: nat
    var totalBytes: nat
    ghost var message: Octets

    /** The state covers every whole block of `m`, and the buffer holds the rest. */
    ghost predicate Holds(m: Octets)
      reads this`buffered, state, buffer
    {
      && state.Length == 8 && buffer.Length == 64
      && buffered == |m| % 64
      && buffer[..buffered] == m[|m| - buffered..]
      && state[..] == HashBlocks(H0, m[..|m| - buffered])
    }

    ghost predicate Valid()
      reads this, state, buffer
    {
      Holds(message) && totalBytes == |message| % TWO_64
    }

    constructor ()
      ensures Valid() && message == [] && fresh(state) && fresh(buffer)
    {
      state := new bv32[8](i requires 0 <= i < 8 => H0[i]);
      buffer := new bv8[64](_ => 0);
      buffered, totalBytes, message := 0, 0, [];
      new;
      assert state[..] == H0;
    }

    /** Tops up a partly filled buffer, and folds it in once it is full. */
    method TopUp(ghost m: Octets, piece: Octets)
      requires Holds(m) && 0 < buffered && |piece| <= 64 - buffered
      modifies this`buffered, state, buffer
      ensures Holds(m + piece)
    {
      hide HashBlocks, Compress;
      var start := buffered;
      forall i | 0 <= i < |piece| { buffer[start + i] := piece[i]; }
      buffered := start + |piece|;
      assert buffer[..buffered] == old(buffer[..start]) + piece;
      TopUpParts(m, piece, start);
      if buffered == 64 {
        assert buffer[..64] == buffer[..];
        Flush(m[..|m| - start]);
      }
    }

    static lemma TopUpParts(m: Octets, piece: Octets, start: nat)
      requires start == |m| % 64 && start + |piece| <= 64
      ensures (|m| - start) % 64 == 0
      ensures |m + piece| % 64 == if start + |piece| == 64 then 0 else start + |piece|
      ensures var whole := m[..|m| - start];
              && (m + piece)[..|whole|] == whole
              && (m + piece)[|whole|..] == m[|whole|..] + piece
              && m + piece == whole + (m[|whole|..] + piece)
    {
      WholeBlocks(|m|, start + |piece|);
      assert |m + piece| == |m| - |m| % 64 + (start + |piece|);
    }

    /** Folds a full buffer into the state and empties it. */
    method Flush(ghost whole: Octets)
      requires state.Length == 8 && buffer.Length == 64 && buffered == 64 && |whole| % 64 == 0
      requires state[..] == HashBlocks(H0, whole)
      modifies this`buffered, state
      ensures Holds(whole + buffer[..]) && buffered == 0
    {
      hide HashBlocks, Compress;
      ghost var next := whole + buffer[..];
      ProcessBlock(state, buffer[..]);
      AbsorbBlock(whole, buffer[..]);
      buffered := 0;
      assert next[..|next|] == next && next[|next|..] == [];
    }

    /** Appends bytes to the message, in whatever pieces they come. */
    method Update(data: Octets)
      requires Valid()
      modifies this, state, buffer
      ensures Valid() && message == old(message) + data
    {
      hide Holds;
      if data == [] {
        assert message + data == message;
        return;
      }
      TotalWraps(totalBytes, |message|, |data|);
      totalBytes := (totalBytes + |data|) % TWO_64;
      var used := Begin(message, data);
      used := WholeBlocksOf(message, data, used);
      Rejoin(message, data, used);
      Keep(message + data[..used], data[used..]);
      message := message + data;
    }

    /** Completes the block left over from earlier pieces, as far as `data` reaches. */
    method Begin(ghost m: Octets, data: Octets) returns (used: nat)
      requires Holds(m)
      modifies this`buffered, state, buffer
      ensures used <= |data| && Holds(m + data[..used]) && (used < |data| ==> buffered == 0)
    {
      hide HashBlocks;
      used := 0;
      assert m + data[..0] == m;
      if buffered != 0 {
        used := if |data| <= 64 - buffered then |data| else 64 - buffered;
        TopUp(m, data[..used]);
      }
    }

    static lemma Rejoin(m: Octets, data: Octets, k: nat)
      requires k <= |data|
      ensures m + data[..k] + data[k..] == m + data
    {}

    /** Folds in every whole block of `data` from `start` on, straight from the input. */
    method WholeBlocksOf(ghost m: Octets, data: Octets, start: nat) returns (used: nat)
      requires start <= |data| && Holds(m + data[..start]) && (start < |data| ==> buffered == 0)
      modifies this`buffered, state, buffer
      ensures start <= used <= |data| < used + 64 && Holds(m + data[..used]) && (used < |data| ==> buffered == 0)
    {
      hide HashBlocks, Compress;
      used := start;
      while |data| - used >= 64
        invariant start <= used <= |data| && (used < |data| ==> buffered == 0)
        invariant Holds(m + data[..used])
        decreases |data| - used
      {
        ghost var before := m + data[..used];
        var block := data[used..used + 64];
        ProcessBlock(state, block);
        AbsorbBlock(before, block);
        WholeBlocks(|before|, 64);
        used := used + 64;
        assert before[..|before|] == before;
        assert m + data[..used] == before + block;
        assert (before + block)[..|before + block|] == before + block;
      }
    }

    /** Keeps the bytes that do not fill a block. */
    method Keep(ghost m: Octets, rest: Octets)
      requires Holds(m) && |rest| < 64 && (rest != [] ==> buffered == 0)
      modifies this`buffered, buffer
      ensures Holds(m + rest)
    {
      hide HashBlocks, Compress;
      if rest == [] {
        assert m + rest == m;
      } else {
        forall i | 0 <= i < |rest| { buffer[i] := rest[i]; }
        WholeBlocks(|m|, |rest|);
        buffered := |rest|;
        assert buffer[..buffered] == rest == (m + rest)[|m|..];
        assert (m + rest)[..|m|] == m == m[..|m|];
      }
    }

    /** The digest of the message so far; the hasher itself is left as it was. */
    method Finalize() returns (digest: Octets)
      requires Valid()
      ensures |message| < TWO_61 ==> digest == Digest(message)
    {
      hide HashBlocks, Compress, StateOctets, Digest, Tail, BitLength;
      var copy := new bv32[8](i requires 0 <= i < 8 reads this, state => state[i]);
      assert copy[..] == state[..];
      var rest := buffer[..buffered];
      var bitLength := BitLength(totalBytes);
      var last := LastBlocks(rest, bitLength);
      ProcessBlock(copy, last[..64]);
      if |last| == 128 {
        ProcessBlock(copy, last[64..]);
      }
      digest := Serialize(copy[..]);
      if |message| < TWO_61 {
        BitLengthExact(|message|);
        DigestOfParts(message, message[..|message| - buffered], rest, last);
      }
    }
  }

  /** The message length in bits, in 64-bit arithmetic. */
  function BitLength(totalBytes: nat): (n: nat)
    ensures n < TWO_64
  {
    totalBytes * 8 % TWO_64
  }

  lemma BitLengthExact(n: nat)
    requires n < TWO_61
    ensures BitLength(n % TWO_64) == 8 * n
  {}

  lemma DigestOfParts(m: Octets, whole: Octets, rest: Octets, last: Octets)
    requires m == whole + rest && |whole| % 64 == 0 && |rest| < 64 && last == Tail(rest, 8 * |m|)
    ensures var s := Compress(HashBlocks(H0, whole), last[..64]);
            Digest(m) == StateOctets(if |last| == 64 then s else Compress(s, last[64..]))
  {
    hide HashBlocks, Compress, StateOctets, Tail, Pad;
    PadSplits(m, whole, rest);
    HashesLast(whole, last);
  }

  /** What padding adds after the whole blocks of a message. */
  function Tail(rest: Octets, bitLength: nat): (r: Octets)
    requires |rest| < 64
    ensures |r| == if |rest| < 56 then 64 else 128
  {
    rest + [0x80] + Zeros(if |rest| < 56 then 55 - |rest| else 119 - |rest|) + BigEndianOctets(bitLength, 8)
  }

  lemma PadSplits(m: Octets, whole: Octets, rest: Octets)
    requires m == whole + rest && |whole| % 64 == 0 && |rest| < 64
    ensures Pad(m) == whole + Tail(rest, 8 * |m|)
  {
    hide BigEndianOctets, Zeros;
    WholeBlocks(|whole|, |rest|);
    assert |m| % 64 == |rest|;
  }

  lemma HashesLast(whole: Octets, last: Octets)
    requires |whole| % 64 == 0 && (|last| == 64 || |last| == 128)
    ensures var s := Compress(HashBlocks(H0, whole), last[..64]);
            HashBlocks(H0, whole + last) == if |last| == 64 then s else Compress(s, last[64..])
  {
    hide Compress, HashBlocks;
    var first, second := last[..64], last[64..];
    assert last == first + second;
    AbsorbBlock(whole, first);
    if |last| == 128 {
      AbsorbBlock(whole + first, second);
      assert whole + first + second == whole + last;
    } else {
      assert last == first;
    }
  }

  /** Fills a zeroed two-block buffer: the rest, the marker bit, and the length in its last eight bytes. */
  method LastBlocks(rest: Octets, bitLength: nat) returns (last: Octets)
    requires |rest| < 64 && bitLength < TWO_64
    ensures last == Tail(rest, bitLength)
  {
    hide BigEndianOctets;
    var block := new bv8[128](_ => 0);
    forall i | 0 <= i < |rest| { block[i] := rest[i]; }
    block[|rest|] := 0x80;
    var length := if |rest| < 56 then 64 else 128;
    ghost var marked := rest + [0x80] + Zeros(length - 9 - |rest|);
    assert block[..length - 8] == marked;
    WriteLength(block, length, bitLength);
    last := block[..length];
    assert last == block[..length - 8] + block[length - 8..length];
  }

  /** Writes the length, low byte last, into the eight bytes before `length`. */
  method WriteLength(block: array<bv8>, length: nat, bitLength: nat)
    requires 8 <= length <= block.Length
    modifies block
    ensures block[..length - 8] == old(block[..length - 8])
    ensures block[length - 8..length] == BigEndianOctets(bitLength, 8)
  {
    hide BigEndianOctets, Octet;
    ghost var octets := BigEndianOctets(bitLength, 8);
    for i := 0 to 8
      invariant forall j :: 0 <= j < length - 8 ==> block[j] == old(block[j])
      invariant forall j :: length - i <= j < length ==> block[j] == octets[j - (length - 8)]
    {
      OctetAt(bitLength, 8, i);
      block[length - 1 - i] := Octet(ShiftOctets(bitLength, i));
    }
  }

  /** `n >> (8 * k)`. */
  function ShiftOctets(n: nat, k: nat): nat {
    if k == 0 then n else ShiftOctets(n / 256, k - 1)
  }

  lemma {:induction false} OctetAt(n: nat, width: nat, i: nat)
    requires i < width
    ensures BigEndianOctets(n, width)[width - 1 - i] == Octet(ShiftOctets(n, i))
    decreases width
  {
    hide Octet;
    if i > 0 { OctetAt(n / 256, width - 1, i - 1); }
  }

  /** Writes each word of the state as four bytes. */
  method Serialize(words: seq<bv32>) returns (r: Octets)
    ensures r == StateOctets(words)
  {
    hide WordOctets;
    r := [];
    for i := 0 to |words|
      invariant r + StateOctets(words[i..]) == StateOctets(words)
    {
      assert words[i..][0] == words[i] && words[i..][1..] == words[i + 1..];
      assert r + WordOctets(words[i]) + StateOctets(words[i + 1..]) == r + StateOctets(words[i..]);
      r := r + WordOctets(words[i]);
    }
    assert words[|words|..] == [];
  }

  /** The one-shot form. */
  method ComputeSha256(data: Octets) returns (digest: Octets)
    ensures |data| < TWO_61 ==> digest == Digest(data)
  {
    var hasher := new Hasher();
    hasher.Update(data);
    assert [] + data == data;
    digest := hasher.Finalize();
  }

  function Concat(pieces: seq<Octets>): Octets {
    if pieces == [] then [] else pieces[0] + Concat(pieces[1..])
  }

  /** However a message is cut into pieces, the streaming digest is the digest of the whole message. */
  method ComputeStreaming(pieces: seq<Octets>) returns (digest: Octets)
    ensures |Concat(pieces)| < TWO_61 ==> digest == Digest(Concat(pieces))
  {
    hide Digest, Hasher.Holds;
    var hasher := new Hasher();
    assert pieces[0..] == pieces;
    for i := 0 to |pieces|
      invariant fresh(hasher) && fresh(hasher.state) && fresh(hasher.buffer)
      invariant hasher.Valid() && hasher.message + Concat(pieces[i..]) == Concat(pieces)
    {
      assert pieces[i..][0] == pieces[i] && pieces[i..][1..] == pieces[i + 1..];
      assert hasher.message + pieces[i] + Concat(pieces[i + 1..]) == hasher.message + Concat(pieces[i..]);
      hasher.Update(pieces[i]);
    }
    assert pieces[|pieces|..] == [];
    assert hasher.message + [] == hasher.message;
    digest := hasher.Finalize();
  }
}
