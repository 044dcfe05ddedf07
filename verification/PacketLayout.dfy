/**
 What a protected packet is, octet by octet: the cipher input blocks of section 4.1.1 of RFC 3711,
 the octets they encrypt, the octets each tag covers, and the fields of the headers.
 */
module PacketLayout {
  import opened Bytes
  import opened CounterMode
  import opened HmacSha1
  import opened Packets
  import opened Sha1Spec

  // ---- cipher input blocks ----

  /** Block `n` of packet `index`: the salt, with SSRC, 48-bit index and 16-bit block number added in place. */
  ghost predicate IsInput(salt: Block, ssrc: Ssrc, index: nat, n: nat, b: Block) {
    && b[0] == salt[0] && b[1] == salt[1] && b[2] == salt[2] && b[3] == salt[3]
    && b[4] == XorByte(salt[4], ssrc[0]) && b[5] == XorByte(salt[5], ssrc[1]) && b[6] == XorByte(salt[6], ssrc[2]) && b[7] == XorByte(salt[7], ssrc[3])
    && NatOf(XorByte(b[8], salt[8])) == index / 0x100_0000_0000 && NatOf(XorByte(b[9], salt[9])) == index / 0x1_0000_0000 % 0x100
    && NatOf(XorByte(b[10], salt[10])) == index / 0x100_0000 % 0x100 && NatOf(XorByte(b[11], salt[11])) == index / 0x1_0000 % 0x100
    && NatOf(XorByte(b[12], salt[12])) == index / 0x100 % 0x100 && NatOf(XorByte(b[13], salt[13])) == index % 0x100
    && NatOf(b[14]) == n / 0x100 && NatOf(b[15]) == n % 0x100
  }

  lemma Index6Octets(index: nat)
    requires index < INDEX_MAX
    ensures var b := Index6(index);
            && NatOf(b[0]) == index / 0x100_0000_0000 && NatOf(b[1]) == index / 0x1_0000_0000 % 0x100
            && NatOf(b[2]) == index / 0x100_0000 % 0x100 && NatOf(b[3]) == index / 0x1_0000 % 0x100
            && NatOf(b[4]) == index / 0x100 % 0x100 && NatOf(b[5]) == index % 0x100
  {
    hide NatOf, LowByte, Encode4;
    Encode4Octets(index / 0x1_0000);
    RolloverQuotients(index);
  }

  lemma RolloverQuotients(index: nat)
    ensures index / 0x1_0000 / 0x100_0000 == index / 0x100_0000_0000
    ensures index / 0x1_0000 / 0x1_0000 == index / 0x1_0000_0000
    ensures index / 0x1_0000 / 0x100 == index / 0x100_0000
  {
    var q := index / 0x1_0000;
    assert index == 0x1_0000 * q + index % 0x1_0000;
    assert q == 0x100_0000 * (q / 0x100_0000) + q % 0x100_0000;
    assert q == 0x1_0000 * (q / 0x1_0000) + q % 0x1_0000;
    assert q == 0x100 * (q / 0x100) + q % 0x100;
  }

  lemma XorBack(a: bv8, b: bv8)
    ensures XorByte(XorByte(a, b), a) == b && XorByte(a, 0) == a
  {
  }

  lemma FrontOctet(c: Crypto, ssrc: Ssrc, index: nat, n: nat, k: nat)
    requires index < INDEX_MAX && k < 14
    ensures var b, v := CounterAt(Fresh(c, ssrc, index).counter, n), IvFor(ssrc, index)[k];
            && b[k] == XorByte(c.salt[k], v)
            && XorByte(b[k], c.salt[k]) == v
            && (v == 0 ==> b[k] == c.salt[k])
  {
    hide NatOf, XorByte, CounterAt, IvFor;
    var counter := Fresh(c, ssrc, index).counter;
    CounterOctets(counter, n);
    assert CounterAt(counter, n)[..14][k] == counter[..14][k] == counter[k];
    XorBack(c.salt[k], IvFor(ssrc, index)[k]);
  }

  /** The blocks the model feeds to the cipher are these. */
  lemma CipherInput(c: Crypto, ssrc: Ssrc, index: nat, n: nat)
    requires WellKeyed(c) && index < INDEX_MAX && n < 0x1_0000
    ensures IsInput(c.salt, ssrc, index, n, CounterAt(Fresh(c, ssrc, index).counter, n))
  {
    hide NatOf, XorByte, CounterAt, Index6, Fresh;
    var counter, v := Fresh(c, ssrc, index).counter, IvFor(ssrc, index);
    assert v[8..14] == Index6(index);
    Index6Octets(index);
    forall k | 0 <= k < 14
      ensures var b := CounterAt(counter, n)[k];
              b == XorByte(c.salt[k], v[k]) && XorByte(b, c.salt[k]) == v[k] && (v[k] == 0 ==> b == c.salt[k])
    {
      FrontOctet(c, ssrc, index, n, k);
    }
    FreshCounterIsZero(c, ssrc, index);
    CounterParts(counter, n);
    BackOctets(CounterAt(counter, n), n);
  }

  lemma BackOctets(b: Block, n: nat)
    requires BlockIndex(b) == n
    ensures NatOf(b[14]) == n / 0x100 && NatOf(b[15]) == n % 0x100
  {
    hide NatOf;
  }

  /** The octets leave no choice. */
  lemma InputUnique(salt: Block, ssrc: Ssrc, index: nat, n: nat, a: Block, b: Block)
    requires IsInput(salt, ssrc, index, n, a) && IsInput(salt, ssrc, index, n, b)
    ensures a == b
  {
    hide NatOf, XorByte;
    forall k | 8 <= k < 14
      ensures a[k] == b[k]
    {
      SameNat(XorByte(a[k], salt[k]), XorByte(b[k], salt[k]));
      XorComm(a[k], salt[k]);
      XorComm(b[k], salt[k]);
      XorCancels(a[k], b[k], salt[k]);
    }
    SameNat(a[14], b[14]);
    SameNat(a[15], b[15]);
  }

  // ---- RTP ----

  /** The fields of the fixed header, and where it says that the payload starts. */
  lemma HeaderFields(pkt: seq<bv8>)
    requires |pkt| >= 12
    ensures SsrcOf(pkt) == [pkt[8], pkt[9], pkt[10], pkt[11]]
    ensures SeqOf(pkt) == 0x100 * NatOf(pkt[2]) + NatOf(pkt[3])
    ensures var csrcs, extended := NatOf(pkt[0]) % 0x10, NatOf(pkt[0]) / 0x10 % 2 == 1;
            var fixed := 12 + 4 * csrcs;
            PayloadStart(pkt) == if !extended then fixed
                                 else if fixed + 4 > |pkt| then |pkt| + 1
                                 else fixed + 4 + 4 * (0x100 * NatOf(pkt[fixed + 2]) + NatOf(pkt[fixed + 3]))
  {
    FirstOctet(pkt[0]);
    hide FixedLength, HasExtension, NatOf;
  }

  lemma FirstOctet(b: bv8)
    ensures FixedLength(b) == 12 + 4 * (NatOf(b) % 0x10)
    ensures HasExtension(b) <==> NatOf(b) / 0x10 % 2 == 1
  {
    hide NatOf;
    Nibbles(b);
    SplitOctet(b);
    LowBit(b >> 4);
  }

  lemma Nibbles(b: bv8)
    ensures NatOf(b & 0x0f) < 0x10 && NatOf(b >> 4) < 0x10
  {
  }

  lemma SplitOctet(b: bv8)
    ensures NatOf(b) == 0x10 * NatOf(b >> 4) + NatOf(b & 0x0f)
  {
  }

  lemma LowBit(b: bv8)
    ensures b & 1 == 1 <==> NatOf(b) % 2 == 1
  {
  }

  /** One segment is 65535 octets of payload. */
  lemma PayloadFitsIs(pkt: seq<bv8>)
    requires |pkt| >= 12
    ensures PayloadFits(pkt) <==> PayloadStart(pkt) <= |pkt| <= PayloadStart(pkt) + 0xffff
  {
    hide PayloadStart;
  }

  /** Octets `start` to the end are encrypted with the blocks above, in their order. */
  lemma Encrypted(c: Crypto, ssrc: Ssrc, index: nat, pkt: seq<bv8>, start: nat, i: nat, j: nat, input: Block)
    requires WellKeyed(c) && index < INDEX_MAX && i < 0x1_0000 && j < 16 && start + 16 * i + j < |pkt|
    requires IsInput(c.salt, ssrc, index, i, input)
    ensures var k := start + 16 * i + j;
            CryptPayload(c, ssrc, index, pkt, start)[k] == XorByte(pkt[k], c.enc(input)[j])
    ensures CryptPayload(c, ssrc, index, pkt, start)[..start] == pkt[..start]
  {
    hide NatOf, CounterAt, XorByte, Crypt, IsInput;
    CipherInput(c, ssrc, index, i);
    InputUnique(c.salt, ssrc, index, i, input, CounterAt(Fresh(c, ssrc, index).counter, i));
    CryptOctet(c.enc, Fresh(c, ssrc, index), pkt[start..], i, j);
    assert pkt[start..][16 * i + j] == pkt[start + 16 * i + j];
  }

  /** srtp_protect leaves the header and encrypts the payload; the tag comes behind it. */
  lemma SealedPayload(c: Crypto, auth: bool, index: nat, pkt: seq<bv8>, i: nat, j: nat, input: Block)
    requires WellKeyed(c) && index < INDEX_MAX && |pkt| >= 12 && PayloadFits(pkt)
    requires i < 0x1_0000 && j < 16 && PayloadStart(pkt) + 16 * i + j < |pkt|
    requires IsInput(c.salt, SsrcOf(pkt), index, i, input)
    ensures var sealed, k := Seal(c, true, auth, index, pkt), PayloadStart(pkt) + 16 * i + j;
            && sealed[k] == XorByte(pkt[k], c.enc(input)[j])
            && sealed[..PayloadStart(pkt)] == pkt[..PayloadStart(pkt)]
            && |sealed| == |pkt| + if auth then c.tagLen else 0
  {
    hide NatOf, XorByte, CryptPayload, PayloadStart, IsInput, SsrcOf;
    Encrypted(c, SsrcOf(pkt), index, pkt, PayloadStart(pkt), i, j, input);
  }

  /** srtp_unprotect runs the same keystream over the same octets. */
  lemma OpenedPayload(c: Crypto, auth: bool, index: nat, sealed: seq<bv8>, i: nat, j: nat, input: Block)
    requires WellKeyed(c) && index < INDEX_MAX && |sealed| >= 12 + c.tagLen
    requires Open(c, true, auth, index, sealed).Authentic?
    requires i < 0x1_0000 && j < 16 && PayloadStart(sealed) + 16 * i + j < |sealed| - c.tagLen
    requires IsInput(c.salt, SsrcOf(sealed), index, i, input)
    ensures var pkt, k := Open(c, true, auth, index, sealed).pkt, PayloadStart(sealed) + 16 * i + j;
            && |pkt| == |sealed| - c.tagLen
            && pkt[k] == XorByte(sealed[k], c.enc(input)[j])
            && pkt[..PayloadStart(sealed)] == sealed[..PayloadStart(sealed)]
  {
    hide NatOf, XorByte, CryptPayload, PayloadStart, IsInput, SsrcOf, RtpTag;
    var body := sealed[..|sealed| - c.tagLen];
    Encrypted(c, SsrcOf(sealed), index, body, PayloadStart(sealed), i, j, input);
  }

  /** The four octets of the rollover counter, which no packet carries. */
  ghost predicate IsRollover(index: nat, roc: seq<bv8>) {
    && |roc| == 4
    && NatOf(roc[0]) == index / 0x100_0000_0000 && NatOf(roc[1]) == index / 0x1_0000_0000 % 0x100
    && NatOf(roc[2]) == index / 0x100_0000 % 0x100 && NatOf(roc[3]) == index / 0x1_0000 % 0x100
  }

  lemma RolloverUnique(index: nat, roc: seq<bv8>)
    requires index < INDEX_MAX && IsRollover(index, roc)
    ensures roc == Index6(index)[..4]
  {
    hide NatOf, Index6;
    Index6Octets(index);
    var b := Index6(index);
    SameNat(roc[0], b[0]);
    SameNat(roc[1], b[1]);
    SameNat(roc[2], b[2]);
    SameNat(roc[3], b[3]);
    assert b[..4] == [b[0], b[1], b[2], b[3]];
  }

  lemma RtpTagIs(c: Crypto, index: nat, body: seq<bv8>, roc: seq<bv8>)
    requires WellKeyed(c) && index < INDEX_MAX && IsRollover(index, roc) && |body| < 0x1fff_ffbc
    ensures RtpTag(c, index, body) == Hmac(Sha1, c.authKey, body + roc)[..c.tagLen]
  {
    hide Index6, IsRollover, Sha1, Hmac, Tag;
    RolloverUnique(index, roc);
    TagIsHmac(c.authKey, body + roc);
  }

  /** The tag of srtp_protect: HMAC-SHA1 over everything before it and the rollover counter. */
  lemma SealedTag(c: Crypto, conf: bool, index: nat, pkt: seq<bv8>, roc: seq<bv8>)
    requires WellKeyed(c) && index < INDEX_MAX && 12 <= |pkt| < 0x1fff_ffbc && (conf ==> PayloadFits(pkt))
    requires IsRollover(index, roc)
    ensures var sealed, n := Seal(c, conf, true, index, pkt), |pkt|;
            sealed[n..] == Hmac(Sha1, c.authKey, sealed[..n] + roc)[..c.tagLen]
  {
    hide RtpTag, IsRollover, Sha1, Hmac, CryptPayload, PayloadStart, SsrcOf;
    var body := RtpBody(c, conf, index, pkt);
    var sealed := Seal(c, conf, true, index, pkt);
    assert sealed[..|pkt|] == body && sealed[|pkt|..] == RtpTag(c, index, body);
    RtpTagIs(c, index, body, roc);
  }

  /** srtp_unprotect refuses a tag if and only if it is another one. */
  lemma OpenedTag(c: Crypto, conf: bool, index: nat, sealed: seq<bv8>, roc: seq<bv8>)
    requires WellKeyed(c) && index < INDEX_MAX && 12 + c.tagLen <= |sealed| < 0x1fff_ffbc && IsRollover(index, roc)
    ensures var n := |sealed| - c.tagLen;
            Open(c, conf, true, index, sealed) != BadTag
            <==> sealed[n..] == Hmac(Sha1, c.authKey, sealed[..n] + roc)[..c.tagLen]
  {
    hide RtpTag, IsRollover, Sha1, Hmac, CryptPayload, PayloadStart, SsrcOf;
    RtpTagIs(c, index, sealed[..|sealed| - c.tagLen], roc);
  }

  // ---- RTCP ----

  /** The trailer word: the encryption bit on top of a 31-bit index. */
  ghost predicate IsTrailer(encrypted: bool, index: nat, t: seq<bv8>) {
    && |t| == 4
    && NatOf(t[0]) == (if encrypted then 0x80 else 0) + index / 0x100_0000
    && NatOf(t[1]) == index / 0x1_0000 % 0x100 && NatOf(t[2]) == index / 0x100 % 0x100 && NatOf(t[3]) == index % 0x100
  }

  /** Packet, trailer, tag: the tag of srtp_protect_rtcp covers the packet and the trailer. */
  lemma SealedRtcp(c: Crypto, conf: bool, index: nat, pkt: seq<bv8>)
    requires WellKeyed(c) && index < E_BIT && 8 <= |pkt| < 0x1fff_ffbc
    ensures var sealed, n := SealRtcp(c, conf, index, pkt), |pkt| + 4;
            && |sealed| == n + c.tagLen
            && IsTrailer(conf, index, sealed[|pkt|..n])
            && sealed[n..] == Hmac(Sha1, c.authKey, sealed[..n])[..c.tagLen]
            && (!conf ==> sealed[..|pkt|] == pkt)
  {
    hide Tag, Sha1, Hmac, CryptPayload, Encode4, RtcpSsrcOf, NatOf;
    var covered := RtcpCovered(c, conf, index, pkt);
    var sealed := SealRtcp(c, conf, index, pkt);
    assert sealed[..|pkt| + 4] == covered && sealed[|pkt| + 4..] == RtcpTag(c, covered);
    assert sealed[|pkt|..|pkt| + 4] == Encode4(TrailerWord(conf, index));
    Encode4Octets(TrailerWord(conf, index));
    TopOctet(index);
    TagIsHmac(c.authKey, covered);
    assert !conf ==> sealed[..|pkt|] == pkt;
  }

  lemma TopOctet(index: nat)
    requires index < E_BIT
    ensures (E_BIT + index) / 0x100_0000 == 0x80 + index / 0x100_0000
    ensures (E_BIT + index) / 0x1_0000 % 0x100 == index / 0x1_0000 % 0x100
    ensures (E_BIT + index) / 0x100 % 0x100 == index / 0x100 % 0x100
    ensures (E_BIT + index) % 0x100 == index % 0x100
  {
    assert (E_BIT + index) / 0x1_0000 == 0x8000 + index / 0x1_0000;
    assert (E_BIT + index) / 0x100 == 0x80_0000 + index / 0x100;
  }

  /** The first eight octets of a packet stay in the clear, all others are encrypted. */
  lemma SealedRtcpPayload(c: Crypto, index: nat, pkt: seq<bv8>, i: nat, j: nat, input: Block)
    requires WellKeyed(c) && index < E_BIT && |pkt| >= 8
    requires i < 0x1_0000 && j < 16 && 8 + 16 * i + j < |pkt|
    requires IsInput(c.salt, [pkt[4], pkt[5], pkt[6], pkt[7]], index, i, input)
    ensures var sealed, k := SealRtcp(c, true, index, pkt), 8 + 16 * i + j;
            sealed[k] == XorByte(pkt[k], c.enc(input)[j]) && sealed[..8] == pkt[..8]
  {
    hide NatOf, XorByte, CryptPayload, IsInput, RtcpTag, Encode4;
    assert RtcpSsrcOf(pkt) == [pkt[4], pkt[5], pkt[6], pkt[7]];
    Encrypted(c, RtcpSsrcOf(pkt), index, pkt, 8, i, j, input);
  }

  /** srtp_unprotect_rtcp refuses a tag if and only if it is another one than the one over packet and trailer. */
  lemma OpenedRtcpTag(c: Crypto, sealed: seq<bv8>)
    requires WellKeyed(c) && 12 + c.tagLen <= |sealed| < 0x1fff_ffbc
    ensures var n := |sealed| - c.tagLen;
            OpenRtcp(c, sealed) != BadTag <==> sealed[n..] == Hmac(Sha1, c.authKey, sealed[..n])[..c.tagLen]
  {
    hide Tag, Sha1, Hmac, CryptPayload, RtcpSsrcOf, RtcpIndexOf, RtcpEncrypted;
    TagIsHmac(c.authKey, sealed[..|sealed| - c.tagLen]);
  }

  /** An accepted packet with the encryption bit is decrypted from octet 8 to the trailer, under the index it carries. */
  lemma OpenedRtcpPayload(c: Crypto, sealed: seq<bv8>, i: nat, j: nat, input: Block)
    requires WellKeyed(c) && |sealed| >= 12 + c.tagLen && OpenRtcp(c, sealed).Authentic?
    requires i < 0x1_0000 && j < 16 && 8 + 16 * i + j < |sealed| - c.tagLen - 4
    requires IsInput(c.salt, [sealed[4], sealed[5], sealed[6], sealed[7]], RtcpIndexOf(c, sealed), i, input)
    ensures var pkt, k := OpenRtcp(c, sealed).pkt, 8 + 16 * i + j;
            && |pkt| == |sealed| - c.tagLen - 4 && pkt[..8] == sealed[..8]
            && pkt[k] == if RtcpEncrypted(c, sealed) then XorByte(sealed[k], c.enc(input)[j]) else sealed[k]
  {
    hide NatOf, XorByte, CryptPayload, IsInput, RtcpTag, RtcpIndexOf, RtcpEncrypted;
    assert RtcpSsrcOf(sealed) == [sealed[4], sealed[5], sealed[6], sealed[7]];
    var body := sealed[..|sealed| - c.tagLen - 4];
    Encrypted(c, RtcpSsrcOf(sealed), RtcpIndexOf(c, sealed), body, 8, i, j, input);
  }

  /** Index and encryption bit are read from the four octets before the tag. */
  lemma ReadRtcp(c: Crypto, sealed: seq<bv8>)
    requires |sealed| >= 12 + c.tagLen
    ensures var n := |sealed| - c.tagLen - 4;
            IsTrailer(RtcpEncrypted(c, sealed), RtcpIndexOf(c, sealed), sealed[n..n + 4])
    ensures RtcpSsrcOf(sealed) == [sealed[4], sealed[5], sealed[6], sealed[7]]
  {
    hide NatOf;
    var t := TrailerOf(c, sealed);
    TopBit(t[0]);
    TrailerNumber(NatOf(t[0]), NatOf(t[1]), NatOf(t[2]), NatOf(t[3]));
  }

  lemma TrailerNumber(b0: nat, b1: nat, b2: nat, b3: nat)
    requires b0 < 0x100 && b1 < 0x100 && b2 < 0x100 && b3 < 0x100
    ensures var index := (0x100_0000 * b0 + 0x1_0000 * b1 + 0x100 * b2 + b3) % E_BIT;
            && b0 == (if b0 >= 128 then 0x80 else 0) + index / 0x100_0000
            && b1 == index / 0x1_0000 % 0x100 && b2 == index / 0x100 % 0x100 && b3 == index % 0x100
  {
    var low := if b0 >= 128 then b0 - 128 else b0;
    var index := ((low * 256 + b1) * 256 + b2) * 256 + b3;
    assert index < E_BIT && index == (0x100_0000 * b0 + 0x1_0000 * b1 + 0x100 * b2 + b3) % E_BIT;
    Quotients(index);
    assert index / 256 == (low * 256 + b1) * 256 + b2;
    assert index / 256 / 256 == low * 256 + b1;
    assert index / 256 / 256 / 256 == low;
  }
}
