/**
 SHA-1: the definition of sections 4 to 7 of FIPS 180-1, and the buffered context of the
 library that computes it piece by piece.
 */
module Sha1Spec {
  import opened Bytes

  /** Five chaining words, or the five working variables. */
  datatype Hash = Hash(a: bv32, b: bv32, c: bv32, d: bv32, e: bv32)

  const IV: Hash := Hash(0x6745_2301, 0xefcd_ab89, 0x98ba_dcfe, 0x1032_5476, 0xc3d2_e1f0)

  // ---- words ----

  function S1(x: bv32): bv32 { (x << 1) | (x >> 31) }
  function S5(x: bv32): bv32 { (x << 5) | (x >> 27) }
  function S30(x: bv32): bv32 { (x << 30) | (x >> 2) }

  /** The word made of four octets, the first the most significant. */
  function BigEndian(b0: bv8, b1: bv8, b2: bv8, b3: bv8): bv32 {
    (b0 as bv32 << 24) | (b1 as bv32 << 16) | (b2 as bv32 << 8) | b3 as bv32
  }

  function OctetsOf(w: bv32): (r: seq<bv8>)
    ensures |r| == 4
  {
    [((w >> 24) & 0xff) as bv8, ((w >> 16) & 0xff) as bv8, ((w >> 8) & 0xff) as bv8, (w & 0xff) as bv8]
  }

  /** The four octets of a 32-bit count. */
  function CountOctets(n: nat): (r: seq<bv8>)
    ensures |r| == 4
  {
    [LowByte(n / 0x100_0000), LowByte(n / 0x1_0000), LowByte(n / 0x100), LowByte(n)]
  }

  /** The 32-bit register that holds the count `n`. */
  function CountWord(n: nat): bv32 {
    var o := CountOctets(n);
    BigEndian(o[0], o[1], o[2], o[3])
  }

  function WordAt(block: seq<bv8>, i: nat): bv32
    requires 4 * i + 4 <= |block|
  {
    BigEndian(block[4 * i], block[4 * i + 1], block[4 * i + 2], block[4 * i + 3])
  }

  /** The sixteen words of a 64-octet block. */
  function WordsOf(block: seq<bv8>): (r: seq<bv32>)
    requires |block| == 64
    ensures |r| == 16
  {
    seq(16, i requires 0 <= i < 16 => WordAt(block, i))
  }

  // ---- the compression function ----

  function Choose(b: bv32, c: bv32, d: bv32): bv32 { (b & c) | (!b & d) }
  function Parity(b: bv32, c: bv32, d: bv32): bv32 { b ^ c ^ d }
  function Majority(b: bv32, c: bv32, d: bv32): bv32 { (b & c) | (b & d) | (c & d) }
  function Sum5(a: bv32, f: bv32, e: bv32, w: bv32, k: bv32): bv32 { a + f + e + w + k }

  /** The function f(t; B, C, D) of section 5. */
  function F(t: nat, b: bv32, c: bv32, d: bv32): bv32 {
    if t < 20 then Choose(b, c, d)
    else if t < 40 then Parity(b, c, d)
    else if t < 60 then Majority(b, c, d)
    else Parity(b, c, d)
  }

  /** The constants K(t) of section 6. */
  function K(t: nat): bv32 {
    if t < 20 then 0x5a82_7999 else if t < 40 then 0x6ed9_eba1 else if t < 60 then 0x8f1b_bcdc else 0xca62_c1d6
  }

  function Xor4(a: bv32, b: bv32, c: bv32, d: bv32): bv32 { a ^ b ^ c ^ d }

  /** Step b of section 7: the first `n` words of the schedule. */
  function Schedule(words: seq<bv32>, n: nat): (w: seq<bv32>)
    requires |words| == 16 && 16 <= n
    ensures |w| == n
  {
    if n == 16 then words
    else
      var w := Schedule(words, n - 1);
      w + [Expanded(w, n - 1)]
  }

  function Expanded(w: seq<bv32>, t: nat): bv32
    requires 16 <= t <= |w|
  {
    S1(Xor4(w[t - 3], w[t - 8], w[t - 14], w[t - 16]))
  }

  /** Step d of section 7, for one t. */
  function Round(t: nat, w: bv32, h: Hash): Hash {
    Hash(Sum5(S5(h.a), F(t, h.b, h.c, h.d), h.e, w, K(t)), h.a, S30(h.b), h.c, h.d)
  }

  function Rounds(w: seq<bv32>, h: Hash, n: nat): Hash
    requires n <= |w|
  {
    if n == 0 then h else Round(n - 1, w[n - 1], Rounds(w, h, n - 1))
  }

  function Add(x: bv32, y: bv32): bv32 { x + y }

  function AddWords(h: Hash, r: Hash): Hash {
    Hash(Add(h.a, r.a), Add(h.b, r.b), Add(h.c, r.c), Add(h.d, r.d), Add(h.e, r.e))
  }

  function Compress(h: Hash, words: seq<bv32>): Hash
    requires |words| == 16
  {
    AddWords(h, Rounds(Schedule(words, 80), h, 80))
  }

  // ---- the words and rounds of the standard, spelled out ----

  lemma Rotations(x: bv32)
    ensures S1(x) == x.RotateLeft(1) && S5(x) == x.RotateLeft(5) && S30(x) == x.RotateLeft(30)
  {
  }

  /** Where `b` is set the first function takes `c`, elsewhere `d`. */
  lemma ChooseIs(b: bv32, c: bv32, d: bv32)
    ensures Choose(b, c, d) & b == c & b && Choose(b, c, d) & !b == d & !b
  {
  }

  /** Where `b` and `c` agree the third takes their value, elsewhere `d`. */
  lemma MajorityIs(b: bv32, c: bv32, d: bv32)
    ensures Majority(b, c, d) & !(b ^ c) == b & !(b ^ c) && Majority(b, c, d) & (b ^ c) == d & (b ^ c)
  {
  }

  /** Octets and words, the most significant octet first. */
  lemma WordOctets(w: bv32)
    ensures var o := OctetsOf(w);
            && BigEndian(o[0], o[1], o[2], o[3]) == w
            && o[0] == (w >> 24) as bv8 && o[3] == (w & 0xff) as bv8
  {
  }

  lemma {:induction false} SchedulePrefix(words: seq<bv32>, t: nat, n: nat)
    requires |words| == 16 && 16 <= t <= n
    ensures Schedule(words, n)[..t] == Schedule(words, t)
  {
    hide Expanded;
    if t < n {
      SchedulePrefix(words, t, n - 1);
      assert Schedule(words, n)[..t] == Schedule(words, n - 1)[..t];
    }
  }

  /** Each word of the schedule, from those before it. */
  lemma ScheduleWord(words: seq<bv32>, n: nat, t: nat)
    requires |words| == 16 && 16 <= t < n
    ensures var w := Schedule(words, n);
            w[..16] == words && w[t] == S1(Xor4(w[t - 3], w[t - 8], w[t - 14], w[t - 16]))
  {
    hide S1, Xor4, Schedule;
    SchedulePrefix(words, t, n);
    SchedulePrefix(words, t + 1, n);
    SchedulePrefix(words, 16, n);
    LastWord(words, t);
    var w, v := Schedule(words, n), Schedule(words, t);
    assert w[t] == w[..t + 1][t];
    assert w[t - 3] == v[t - 3] && w[t - 8] == v[t - 8] && w[t - 14] == v[t - 14] && w[t - 16] == v[t - 16];
  }

  lemma LastWord(words: seq<bv32>, t: nat)
    requires |words| == 16 && 16 <= t
    ensures Schedule(words, 16) == words
    ensures Schedule(words, t + 1) == Schedule(words, t) + [Expanded(Schedule(words, t), t)]
  {
    hide Expanded;
  }

  /** The chaining value after a whole number of blocks. */
  function Absorb(h: Hash, blocks: seq<bv8>): Hash
    requires |blocks| % 64 == 0
  {
    if blocks == [] then h
    else
      var n := |blocks| - 64;
      Compress(Absorb(h, blocks[..n]), WordsOf(blocks[n..]))
  }

  lemma AbsorbBlock(h: Hash, blocks: seq<bv8>, block: seq<bv8>)
    requires |blocks| % 64 == 0 && |block| == 64
    ensures Absorb(h, blocks + block) == Compress(Absorb(h, blocks), WordsOf(block))
  {
    hide Compress, WordsOf;
    assert (blocks + block)[..|blocks|] == blocks;
    assert (blocks + block)[|blocks|..] == block;
  }

  // ---- padding and the digest ----

  function Zeros(n: nat): (r: seq<bv8>)
    ensures |r| == n
  {
    seq(n, _ => 0)
  }

  /** A one bit and zeros, up to eight octets before the end of a block. */
  function PadFront(n: nat): (r: seq<bv8>)
    ensures (n + |r| + 8) % 64 == 0
  {
    [0x80] + Zeros((55 - n) % 64)
  }

  /** Section 4: a one bit, zeros, and the length in bits as a 64-bit word, filling the last block. */
  function Padding(n: nat): (r: seq<bv8>)
    ensures (n + |r|) % 64 == 0
  {
    PadFront(n) + CountOctets(8 * n / 0x1_0000_0000) + CountOctets(8 * n)
  }

  function DigestOf(h: Hash): (r: seq<bv8>)
    ensures |r| == 20
  {
    OctetsOf(h.a) + OctetsOf(h.b) + OctetsOf(h.c) + OctetsOf(h.d) + OctetsOf(h.e)
  }

  /** SHA-1 of a message, which FIPS 180-1 defines below 2^64 bits. */
  function Sha1(msg: seq<bv8>): (r: seq<bv8>)
    ensures |r| == 20
  {
    DigestOf(Absorb(IV, msg + Padding(|msg|)))
  }

  /** The padding of the library: its bit count is 32 bits wide and the upper length word is always zero. */
  function ShortPadding(n: nat): (r: seq<bv8>)
    ensures (n + |r|) % 64 == 0
  {
    PadFront(n) + Zeros(4) + CountOctets(8 * n % 0x1_0000_0000)
  }

  /** The hash the library computes. */
  function ShortSha1(msg: seq<bv8>): (r: seq<bv8>)
    ensures |r| == 20
  {
    DigestOf(Absorb(IV, msg + ShortPadding(|msg|)))
  }

  /** Dropping a multiple of 2^32 does not change any of the low four octets. */
  lemma OctetsOfRemainder(n: nat)
    ensures var r := n % 0x1_0000_0000;
            && r / 0x100_0000 % 256 == n / 0x100_0000 % 256
            && r / 0x1_0000 % 256 == n / 0x1_0000 % 256
            && r / 0x100 % 256 == n / 0x100 % 256
            && r % 256 == n % 256
  {
    var q, r := n / 0x1_0000_0000, n % 0x1_0000_0000;
    assert n == 0x1_0000_0000 * q + r;
    assert n / 0x100_0000 == 0x100 * q + r / 0x100_0000;
    assert n / 0x1_0000 == 0x1_0000 * q + r / 0x1_0000;
    assert n / 0x100 == 0x100_0000 * q + r / 0x100;
  }

  lemma SameByte(a: nat, b: nat)
    requires a % 256 == b % 256
    ensures LowByte(a) == LowByte(b)
  {
  }

  lemma CountOctetsOfRemainder(n: nat)
    ensures CountOctets(n % 0x1_0000_0000) == CountOctets(n)
  {
    hide LowByte, NatOf;
    var r := n % 0x1_0000_0000;
    OctetsOfRemainder(n);
    SameByte(r / 0x100_0000, n / 0x100_0000);
    SameByte(r / 0x1_0000, n / 0x1_0000);
    SameByte(r / 0x100, n / 0x100);
    SameByte(r, n);
  }

  lemma CountOctetsZero(n: nat)
    requires n < 0x1_0000_0000
    ensures CountOctets(n) == Zeros(4) <==> n == 0
  {
    hide LowByte, NatOf;
    ByteZero();
    var o := CountOctets(n);
    if n == 0 {
      SameNat(o[0], 0);
    } else {
      assert NatOf(o[0]) != 0 || NatOf(o[1]) != 0 || NatOf(o[2]) != 0 || NatOf(o[3]) != 0;
    }
  }

  lemma ByteZero()
    ensures NatOf(0) == 0
  {
  }

  /** The library pads as FIPS 180-1 says exactly when the bit count fits its 32-bit counter. */
  lemma ShortPaddingIff(n: nat)
    requires 8 * n < 0x1_0000_0000_0000_0000
    ensures ShortPadding(n) == Padding(n) <==> n < 0x2000_0000
  {
    hide CountOctets;
    var high := 8 * n / 0x1_0000_0000;
    CountOctetsOfRemainder(8 * n);
    CountOctetsZero(high);
    var front := PadFront(n);
    if ShortPadding(n) == Padding(n) {
      assert CountOctets(high) == Padding(n)[|front|..|front| + 4];
      assert Zeros(4) == ShortPadding(n)[|front|..|front| + 4];
    }
  }

  lemma ShortSha1IsSha1(msg: seq<bv8>)
    requires |msg| < 0x2000_0000
    ensures ShortSha1(msg) == Sha1(msg)
  {
    ShortPaddingIff(|msg|);
  }
}
