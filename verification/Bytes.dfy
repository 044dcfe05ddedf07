/** Octets, 16-octet blocks and their big-endian reading. */
module Bytes {

  // ---- the widths of counters and indices ----

  const UINT32: nat := 0x1_0000_0000
  const UINT64: nat := 0x1_0000_0000_0000_0000
  const INDEX_MAX: nat := 0x1_0000_0000_0000   // packet indices have 48 bits
  const E_BIT: nat := 0x8000_0000              // RTCP indices have 31; the bit above them marks encryption

  // ---- octets ----

  type Block = s: seq<bv8> | |s| == 16 witness seq(16, _ => 0)

  const ZERO_BLOCK: Block := [0, 0, 0, 0, 0, 0, 0, 0, 0, 0, 0, 0, 0, 0, 0, 0]

  function NatOf(b: bv8): (n: nat)
    ensures n < 256
  {
    b as nat
  }

  /** The octet with value `n`; counted up from zero, which is easier to reason about than a conversion. */
  function ByteOf(n: nat): (b: bv8)
    requires n < 256
    ensures NatOf(b) == n
  {
    if n == 0 then 0
    else
      var before := ByteOf(n - 1);
      NextOctet(before);
      before + 1
  }

  lemma NextOctet(b: bv8)
    ensures NatOf(0) == 0
    ensures NatOf(b) < 255 ==> NatOf(b + 1) == NatOf(b) + 1
  {
  }

  /** The low octet of a number. */
  function LowByte(n: nat): (b: bv8)
    ensures NatOf(b) == n % 256
  {
    ByteOf(n % 256)
  }

  /** An octet is determined by its value. */
  lemma SameNat(a: bv8, b: bv8)
    requires NatOf(a) == NatOf(b)
    ensures a == b
  {
  }

  function XorByte(a: bv8, b: bv8): bv8 {
    a ^ b
  }

  lemma XorTwice(a: bv8, b: bv8)
    ensures XorByte(XorByte(a, b), b) == a
  {
  }

  lemma XorCancels(a: bv8, b: bv8, c: bv8)
    requires XorByte(c, a) == XorByte(c, b)
    ensures a == b
  {
  }

  lemma XorAssoc(a: bv8, b: bv8, c: bv8)
    ensures XorByte(XorByte(a, b), c) == XorByte(a, XorByte(b, c))
  {
  }

  lemma XorComm(a: bv8, b: bv8)
    ensures XorByte(a, b) == XorByte(b, a)
  {
  }

  lemma XorZero(a: bv8)
    ensures XorByte(0, a) == a && XorByte(a, 0) == a && XorByte(a, a) == 0
  {
  }

  /** Octet-wise exclusive or. */
  function Xor(a: seq<bv8>, b: seq<bv8>): (r: seq<bv8>)
    requires |a| == |b|
    ensures |r| == |a|
  {
    seq(|a|, i requires 0 <= i < |a| => XorByte(a[i], b[i]))
  }

  lemma XorBlockCancels(a: Block, k: Block)
    ensures Xor(Xor(a, k), k) == a
  {
    hide XorByte;
    forall i | 0 <= i < 16
      ensures Xor(Xor(a, k), k)[i] == a[i]
    {
      XorTwice(a[i], k[i]);
    }
  }

  // ---- numbers in network byte order ----

  function Decode2(b0: bv8, b1: bv8): (n: nat)
    ensures n < 0x1_0000
  {
    256 * NatOf(b0) + NatOf(b1)
  }

  function Decode4(b: seq<bv8>): (n: nat)
    requires |b| == 4
    ensures n < 0x1_0000_0000
  {
    0x100_0000 * NatOf(b[0]) + 0x1_0000 * NatOf(b[1]) + 0x100 * NatOf(b[2]) + NatOf(b[3])
  }

  function Encode4(n: nat): (b: seq<bv8>)
    requires n < 0x1_0000_0000
    ensures |b| == 4
  {
    var q1 := n / 256;
    var q2 := q1 / 256;
    var q3 := q2 / 256;
    [LowByte(q3), LowByte(q2), LowByte(q1), LowByte(n)]
  }

  lemma DecodeEncode4(n: nat)
    requires n < 0x1_0000_0000
    ensures Decode4(Encode4(n)) == n
  {
    hide NatOf, LowByte;
    var q1 := n / 256;
    var q2 := q1 / 256;
    var q3 := q2 / 256;
    assert n == 256 * q1 + n % 256 && q1 == 256 * q2 + q1 % 256 && q2 == 256 * q3 + q2 % 256;
    assert q3 < 256;
    assert q3 % 256 == q3;
  }

  /** The octets of a number, the most significant first. */
  lemma Encode4Octets(n: nat)
    requires n < 0x1_0000_0000
    ensures var b := Encode4(n);
            && NatOf(b[0]) == n / 0x100_0000
            && NatOf(b[1]) == n / 0x1_0000 % 0x100
            && NatOf(b[2]) == n / 0x100 % 0x100
            && NatOf(b[3]) == n % 0x100
  {
    hide NatOf, LowByte;
    Quotients(n);
  }

  lemma Quotients(n: nat)
    ensures n / 256 / 256 == n / 0x1_0000 && n / 256 / 256 / 256 == n / 0x100_0000
    ensures n < 0x1_0000_0000 ==> n / 0x100_0000 < 256
  {
    var q1 := n / 256;
    var q2 := q1 / 256;
    var q3 := q2 / 256;
    assert n == 256 * q1 + n % 256 && q1 == 256 * q2 + q1 % 256 && q2 == 256 * q3 + q2 % 256;
    assert n == 0x1_0000 * q2 + (256 * (q1 % 256) + n % 256);
    assert n == 0x100_0000 * q3 + (0x1_0000 * (q2 % 256) + 256 * (q1 % 256) + n % 256);
  }
}
