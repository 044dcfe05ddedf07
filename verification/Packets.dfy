/**
 RTP and RTCP packets as octet strings: where the payload starts, how the initial vector is
 laid out, and what one protected packet looks like under the session keys.
 */
module Packets {
  import opened Bytes
  import opened CounterMode
  import opened HmacSha1

  type Ssrc = s: seq<bv8> | |s| == 4 witness seq(4, _ => 0)

  const RTP_HEADER: nat := 12
  const RTCP_HEADER: nat := 8
  const TRAILER: nat := 4
  const TAG_LIMIT: nat := 12          // SRTP_MAX_TAG_LEN

  // ---- the packet index on the wire ----

  /** A 48-bit packet index, the rollover counter first. */
  function Index6(i: nat): (b: seq<bv8>)
    requires i < INDEX_MAX
    ensures |b| == 6
  {
    Encode4(i / 0x1_0000) + [LowByte(i / 256), LowByte(i)]
  }

  lemma Index6Injective(i: nat, j: nat)
    requires i < INDEX_MAX && j < INDEX_MAX && Index6(i) == Index6(j)
    ensures i == j
  {
    hide NatOf, LowByte, Encode4, Decode4;
    assert Index6(i)[..4] == Encode4(i / 0x1_0000) && Index6(j)[..4] == Encode4(j / 0x1_0000);
    DecodeEncode4(i / 0x1_0000);
    DecodeEncode4(j / 0x1_0000);
    assert Index6(i)[4] == LowByte(i / 256) && Index6(i)[5] == LowByte(i);
    assert Index6(j)[4] == LowByte(j / 256) && Index6(j)[5] == LowByte(j);
    SplitIndex(i);
    SplitIndex(j);
  }

  lemma SplitIndex(i: nat)
    ensures i == 0x1_0000 * (i / 0x1_0000) + 256 * (i / 256 % 256) + i % 256
  {
    var q := i / 256;
    assert i == 256 * q + i % 256 && q == 256 * (q / 256) + q % 256;
    assert q / 256 == i / 0x1_0000;
  }

  // ---- the initial vector ----

  /** Four zeros, the SSRC, the 48-bit index, and room for the block counter. */
  function IvFor(ssrc: Ssrc, index: nat): Block
    requires index < INDEX_MAX
  {
    [0, 0, 0, 0] + ssrc + Index6(index) + [0, 0]
  }

  /** The keys and lengths of one direction, shared by all streams of a session. */
  datatype Crypto = Crypto(enc: Block -> Block, salt: Block, authKey: seq<bv8>, tagLen: nat)

  predicate WellKeyed(c: Crypto) {
    c.salt[14] == 0 && c.salt[15] == 0 && |c.authKey| <= KEY_MAX && c.tagLen <= TAG_LIMIT
  }

  /** The cipher state right after the vector is set. */
  function Fresh(c: Crypto, ssrc: Ssrc, index: nat): State
    requires index < INDEX_MAX
  {
    State(Xor(c.salt, IvFor(ssrc, index)), ZERO_BLOCK, 0)
  }

  lemma FreshCounterIsZero(c: Crypto, ssrc: Ssrc, index: nat)
    requires index < INDEX_MAX && WellKeyed(c)
    ensures BlockIndex(Fresh(c, ssrc, index).counter) == 0
  {
    hide NatOf, XorByte;
    XorZero(0);
    ZeroValue();
    var counter := Fresh(c, ssrc, index).counter;
    assert IvFor(ssrc, index)[14] == 0 && IvFor(ssrc, index)[15] == 0;
    assert counter[14] == 0 && counter[15] == 0;
  }

  lemma ZeroValue()
    ensures NatOf(0) == 0
  {
  }

  /** Two packets share a cipher input block only if SSRC, index and block number agree. */
  lemma InputBlockInjective(c: Crypto, ssrc: Ssrc, index: nat, n: nat, ssrc': Ssrc, index': nat, n': nat)
    requires WellKeyed(c) && index < INDEX_MAX && index' < INDEX_MAX
    requires n < 0x1_0000 && n' < 0x1_0000
    requires CounterAt(Fresh(c, ssrc, index).counter, n) == CounterAt(Fresh(c, ssrc', index').counter, n')
    ensures ssrc == ssrc' && index == index' && n == n'
  {
    hide NatOf, XorByte, CounterAt, BlockIndex, Index6;
    var a, b := Fresh(c, ssrc, index).counter, Fresh(c, ssrc', index').counter;
    FreshCounterIsZero(c, ssrc, index);
    FreshCounterIsZero(c, ssrc', index');
    CounterParts(a, n);
    CounterParts(b, n');
    assert a[..14] == b[..14];
    var v, v' := IvFor(ssrc, index), IvFor(ssrc', index');
    forall k | 0 <= k < 14
      ensures v[k] == v'[k]
    {
      assert a[k] == a[..14][k] == b[..14][k] == b[k];
      XorCancels(v[k], v'[k], c.salt[k]);
    }
    assert v[4..8] == ssrc && v'[4..8] == ssrc';
    assert v[8..14] == Index6(index) && v'[8..14] == Index6(index');
    assert v[4..8] == v'[4..8] && v[8..14] == v'[8..14];
    Index6Injective(index, index');
  }

  // ---- RTP packets ----

  function SsrcOf(pkt: seq<bv8>): Ssrc
    requires |pkt| >= RTP_HEADER
  {
    pkt[8..12]
  }

  function SeqOf(pkt: seq<bv8>): (s: nat)
    requires |pkt| >= RTP_HEADER
    ensures s < 0x1_0000
  {
    Decode2(pkt[2], pkt[3])
  }

  /** The fixed header and the CSRC list. */
  function FixedLength(b0: bv8): nat {
    RTP_HEADER + 4 * NatOf(b0 & 0x0f)
  }

  predicate HasExtension(b0: bv8) {
    (b0 >> 4) & 1 == 1
  }

  /** Where the encrypted part starts; past the end when the header does not fit the packet. */
  function PayloadStart(pkt: seq<bv8>): nat
    requires |pkt| >= RTP_HEADER
  {
    var fixed := FixedLength(pkt[0]);
    if !HasExtension(pkt[0]) then fixed
    else if fixed + 4 > |pkt| then |pkt| + 1
    else fixed + 4 * (Decode2(pkt[fixed + 2], pkt[fixed + 3]) + 1)
  }

  /** Octets `start` to the end encrypted or decrypted. */
  function CryptPayload(c: Crypto, ssrc: Ssrc, index: nat, pkt: seq<bv8>, start: nat): (r: seq<bv8>)
    requires index < INDEX_MAX && start <= |pkt|
    ensures |r| == |pkt|
  {
    pkt[..start] + Crypt(c.enc, Fresh(c, ssrc, index), pkt[start..])
  }

  lemma CryptPayloadTwice(c: Crypto, ssrc: Ssrc, index: nat, pkt: seq<bv8>, start: nat)
    requires index < INDEX_MAX && start <= |pkt|
    ensures CryptPayload(c, ssrc, index, CryptPayload(c, ssrc, index, pkt, start), start) == pkt
    ensures CryptPayload(c, ssrc, index, pkt, start)[..start] == pkt[..start]
  {
    hide Crypt;
    var once := CryptPayload(c, ssrc, index, pkt, start);
    assert once[start..] == Crypt(c.enc, Fresh(c, ssrc, index), pkt[start..]);
    CryptTwice(c.enc, Fresh(c, ssrc, index), pkt[start..]);
  }

  /** Does the payload fit one segment of keystream? */
  predicate PayloadFits(pkt: seq<bv8>)
    requires |pkt| >= RTP_HEADER
  {
    PayloadStart(pkt) <= |pkt| && |pkt| - PayloadStart(pkt) <= SEGMENT_MAX
  }

  /** The packet with its payload encrypted, or as it is when no confidentiality is asked for. */
  function RtpBody(c: Crypto, conf: bool, index: nat, pkt: seq<bv8>): (r: seq<bv8>)
    requires index < INDEX_MAX && |pkt| >= RTP_HEADER
    requires conf ==> PayloadFits(pkt)
    ensures |r| == |pkt|
  {
    if conf then CryptPayload(c, SsrcOf(pkt), index, pkt, PayloadStart(pkt)) else pkt
  }

  /** The tag over the body and the rollover counter. */
  function RtpTag(c: Crypto, index: nat, body: seq<bv8>): (r: seq<bv8>)
    requires index < INDEX_MAX && WellKeyed(c)
    ensures |r| == c.tagLen
  {
    Tag(c.authKey, body + Index6(index)[..4])[..c.tagLen]
  }

  /** What srtp_protect makes of a packet. */
  function Seal(c: Crypto, conf: bool, auth: bool, index: nat, pkt: seq<bv8>): (r: seq<bv8>)
    requires index < INDEX_MAX && |pkt| >= RTP_HEADER && WellKeyed(c)
    requires conf ==> PayloadFits(pkt)
    ensures |r| == |pkt| + if auth then c.tagLen else 0
  {
    var body := RtpBody(c, conf, index, pkt);
    if auth then body + RtpTag(c, index, body) else body
  }

  datatype Opened = Authentic(pkt: seq<bv8>) | BadTag | BadPayload

  /** What srtp_unprotect makes of it, before it looks at the key limit. */
  function Open(c: Crypto, conf: bool, auth: bool, index: nat, sealed: seq<bv8>): Opened
    requires index < INDEX_MAX && |sealed| >= RTP_HEADER && WellKeyed(c)
  {
    var n := |sealed| - c.tagLen;
    var body := sealed[..n];
    if auth && sealed[n..] != RtpTag(c, index, body) then BadTag
    else if !conf then Authentic(body)
    else
      var start := PayloadStart(sealed);
      if start <= n && n - start <= SEGMENT_MAX then
        Authentic(CryptPayload(c, SsrcOf(sealed), index, body, start))
      else BadPayload
  }

  /** The header is not encrypted, so both ends see the same payload start. */
  lemma SameHeader(pkt: seq<bv8>, body: seq<bv8>, sealed: seq<bv8>)
    requires RTP_HEADER <= |pkt| == |body| <= |sealed|
    requires PayloadFits(pkt)
    requires body[..PayloadStart(pkt)] == pkt[..PayloadStart(pkt)] && sealed[..|body|] == body
    ensures PayloadStart(pkt) >= RTP_HEADER
    ensures PayloadStart(sealed) == PayloadStart(pkt)
    ensures SsrcOf(sealed) == SsrcOf(pkt) && SeqOf(sealed) == SeqOf(pkt)
  {
    hide Decode2, NatOf;
    var start := PayloadStart(pkt);
    assert start >= RTP_HEADER;
    forall k | 0 <= k < start
      ensures sealed[k] == pkt[k]
    {
      assert sealed[k] == sealed[..|body|][k];
      assert body[k] == body[..start][k] && pkt[k] == pkt[..start][k];
    }
  }

  lemma PlainHeader(pkt: seq<bv8>, sealed: seq<bv8>)
    requires RTP_HEADER <= |pkt| <= |sealed| && sealed[..|pkt|] == pkt
    ensures SsrcOf(sealed) == SsrcOf(pkt) && SeqOf(sealed) == SeqOf(pkt)
  {
    hide Decode2;
    assert forall k :: 0 <= k < |pkt| ==> sealed[k] == sealed[..|pkt|][k];
  }

  /** SSRC and sequence number survive protection. */
  lemma SealKeepsHeader(c: Crypto, conf: bool, auth: bool, index: nat, pkt: seq<bv8>)
    requires index < INDEX_MAX && |pkt| >= RTP_HEADER && WellKeyed(c)
    requires conf ==> PayloadFits(pkt)
    ensures var sealed := Seal(c, conf, auth, index, pkt);
            SsrcOf(sealed) == SsrcOf(pkt) && SeqOf(sealed) == SeqOf(pkt)
    ensures conf ==> PayloadStart(Seal(c, conf, auth, index, pkt)) == PayloadStart(pkt)
  {
    hide PayloadStart, CryptPayload, Tag, SeqOf, SsrcOf, Fresh;
    var sealed := Seal(c, conf, auth, index, pkt);
    var body := RtpBody(c, conf, index, pkt);
    assert sealed[..|body|] == body;
    if conf {
      CryptPayloadTwice(c, SsrcOf(pkt), index, pkt, PayloadStart(pkt));
      SameHeader(pkt, body, sealed);
    } else {
      PlainHeader(pkt, sealed);
    }
  }

  /**
   A packet protected and then opened under the same keys and index comes back exactly when
   it carries a tag, or tags have no length: without authentication the receiver still cuts
   off the tag length.
   */
  lemma OpenSeal(c: Crypto, conf: bool, auth: bool, index: nat, pkt: seq<bv8>)
    requires index < INDEX_MAX && |pkt| >= RTP_HEADER && WellKeyed(c)
    requires conf ==> PayloadFits(pkt)
    ensures Open(c, conf, auth, index, Seal(c, conf, auth, index, pkt)) == Authentic(pkt) <==> auth || c.tagLen == 0
  {
    hide PayloadStart, CryptPayload, Tag, SeqOf, SsrcOf, Fresh;
    var sealed := Seal(c, conf, auth, index, pkt);
    var body := RtpBody(c, conf, index, pkt);
    SealKeepsHeader(c, conf, auth, index, pkt);
    if auth || c.tagLen == 0 {
      assert sealed[..|body|] == body;
      if auth {
        assert sealed[|body|..] == RtpTag(c, index, body);
      }
      if conf {
        CryptPayloadTwice(c, SsrcOf(pkt), index, pkt, PayloadStart(pkt));
      }
    }
  }

  // ---- RTCP packets ----

  function RtcpSsrcOf(pkt: seq<bv8>): Ssrc
    requires |pkt| >= RTCP_HEADER
  {
    pkt[4..8]
  }

  /** The trailer word: encryption bit and index, combined by an or of the two words. */
  function TrailerWord(conf: bool, index: nat): (n: nat)
    requires index <= E_BIT
    ensures n < 0x1_0000_0000
  {
    if conf && index < E_BIT then E_BIT + index else index
  }

  function RtcpFits(pkt: seq<bv8>): bool
    requires |pkt| >= RTCP_HEADER
  {
    |pkt| - RTCP_HEADER <= SEGMENT_MAX
  }

  /** Body and trailer of a protected RTCP packet: the part the tag covers. */
  function RtcpCovered(c: Crypto, conf: bool, index: nat, pkt: seq<bv8>): (r: seq<bv8>)
    requires index <= E_BIT && |pkt| >= RTCP_HEADER
    ensures |r| == |pkt| + TRAILER
  {
    (if conf then CryptPayload(c, RtcpSsrcOf(pkt), index, pkt, RTCP_HEADER) else pkt)
    + Encode4(TrailerWord(conf, index))
  }

  function RtcpTag(c: Crypto, covered: seq<bv8>): (r: seq<bv8>)
    requires WellKeyed(c)
    ensures |r| == c.tagLen
  {
    Tag(c.authKey, covered)[..c.tagLen]
  }

  /** What srtp_protect_rtcp makes of a packet. */
  function SealRtcp(c: Crypto, conf: bool, index: nat, pkt: seq<bv8>): (r: seq<bv8>)
    requires index <= E_BIT && |pkt| >= RTCP_HEADER && WellKeyed(c)
    ensures |r| == |pkt| + TRAILER + c.tagLen
  {
    var covered := RtcpCovered(c, conf, index, pkt);
    covered + RtcpTag(c, covered)
  }

  /** The trailer of a protected packet. */
  function TrailerOf(c: Crypto, sealed: seq<bv8>): (r: seq<bv8>)
    requires |sealed| >= RTCP_HEADER + TRAILER + c.tagLen
    ensures |r| == 4
  {
    var n := |sealed| - c.tagLen - TRAILER;
    sealed[n..n + TRAILER]
  }

  function RtcpIndexOf(c: Crypto, sealed: seq<bv8>): (i: nat)
    requires |sealed| >= RTCP_HEADER + TRAILER + c.tagLen
    ensures i < E_BIT
  {
    Decode4(TrailerOf(c, sealed)) % E_BIT
  }

  predicate RtcpEncrypted(c: Crypto, sealed: seq<bv8>)
    requires |sealed| >= RTCP_HEADER + TRAILER + c.tagLen
  {
    TrailerOf(c, sealed)[0] & 0x80 != 0
  }

  /** What srtp_unprotect_rtcp makes of a packet whose index is not a replay. */
  function OpenRtcp(c: Crypto, sealed: seq<bv8>): Opened
    requires |sealed| >= RTCP_HEADER + TRAILER + c.tagLen && WellKeyed(c)
  {
    var n := |sealed| - c.tagLen;
    var body := sealed[..n - TRAILER];
    if sealed[n..] != RtcpTag(c, sealed[..n]) then BadTag
    else if !RtcpEncrypted(c, sealed) then Authentic(body)
    else if RtcpFits(body) then
      Authentic(CryptPayload(c, RtcpSsrcOf(sealed), RtcpIndexOf(c, sealed), body, RTCP_HEADER))
    else BadPayload
  }

  lemma TopBit(b: bv8)
    ensures b & 0x80 != 0 <==> NatOf(b) >= 128
  {
  }

  lemma TrailerReads(conf: bool, index: nat)
    requires index <= E_BIT
    ensures var t := Encode4(TrailerWord(conf, index));
            && Decode4(t) % E_BIT == (if index < E_BIT then index else 0)
            && (t[0] & 0x80 != 0 <==> conf || index == E_BIT)
  {
    hide NatOf, LowByte;
    var word := TrailerWord(conf, index);
    DecodeEncode4(word);
    var t := Encode4(word);
    TopBit(t[0]);
  }

  /** The receiver reads SSRC, index and encryption bit as the sender wrote them, but for index 2^31. */
  lemma SealRtcpKeepsHeader(c: Crypto, conf: bool, index: nat, pkt: seq<bv8>)
    requires index <= E_BIT && |pkt| >= RTCP_HEADER && WellKeyed(c)
    ensures var sealed := SealRtcp(c, conf, index, pkt);
            && RtcpSsrcOf(sealed) == RtcpSsrcOf(pkt)
            && RtcpIndexOf(c, sealed) == (if index < E_BIT then index else 0)
            && (RtcpEncrypted(c, sealed) <==> conf || index == E_BIT)
            && sealed[..|pkt| + TRAILER] == RtcpCovered(c, conf, index, pkt)
            && sealed[|pkt| + TRAILER..] == RtcpTag(c, RtcpCovered(c, conf, index, pkt))
  {
    hide Tag, Encode4, Decode4, CryptPayload;
    var sealed := SealRtcp(c, conf, index, pkt);
    var covered := RtcpCovered(c, conf, index, pkt);
    assert sealed[..|covered|] == covered;
    assert TrailerOf(c, sealed) == Encode4(TrailerWord(conf, index));
    TrailerReads(conf, index);
    if conf {
      var body := CryptPayload(c, RtcpSsrcOf(pkt), index, pkt, RTCP_HEADER);
      CryptPayloadTwice(c, RtcpSsrcOf(pkt), index, pkt, RTCP_HEADER);
      assert sealed[..RTCP_HEADER] == body[..RTCP_HEADER] == pkt[..RTCP_HEADER];
    } else {
      assert sealed[..RTCP_HEADER] == pkt[..RTCP_HEADER];
    }
    assert sealed[4..8] == sealed[..RTCP_HEADER][4..8] && pkt[4..8] == pkt[..RTCP_HEADER][4..8];
  }

  /** Every protected RTCP packet with a 31-bit index opens to the original. */
  lemma OpenSealRtcp(c: Crypto, conf: bool, index: nat, pkt: seq<bv8>)
    requires index < E_BIT && |pkt| >= RTCP_HEADER && WellKeyed(c)
    requires conf ==> RtcpFits(pkt)
    ensures OpenRtcp(c, SealRtcp(c, conf, index, pkt)) == Authentic(pkt)
  {
    hide Tag, Encode4, Decode4, CryptPayload, RtcpIndexOf, RtcpEncrypted, RtcpSsrcOf, Fresh;
    SealRtcpKeepsHeader(c, conf, index, pkt);
    var sealed := SealRtcp(c, conf, index, pkt);
    var covered := RtcpCovered(c, conf, index, pkt);
    var n := |sealed| - c.tagLen;
    assert sealed[..n] == covered;
    if conf {
      var body := CryptPayload(c, RtcpSsrcOf(pkt), index, pkt, RTCP_HEADER);
      assert covered[..|pkt|] == body && sealed[..n - TRAILER] == body;
      CryptPayloadTwice(c, RtcpSsrcOf(pkt), index, pkt, RTCP_HEADER);
    } else {
      assert covered[..|pkt|] == pkt && sealed[..n - TRAILER] == pkt;
    }
  }

  /** The receiver reads the index the sender used exactly when it has 31 bits. */
  lemma RtcpIndexReadsBackIff(c: Crypto, conf: bool, index: nat, pkt: seq<bv8>)
    requires index <= E_BIT && |pkt| >= RTCP_HEADER && WellKeyed(c)
    ensures RtcpIndexOf(c, SealRtcp(c, conf, index, pkt)) == index <==> index < E_BIT
  {
    hide SealRtcp, RtcpIndexOf, RtcpCovered, RtcpTag, RtcpEncrypted, RtcpSsrcOf;
    SealRtcpKeepsHeader(c, conf, index, pkt);
  }

  /**
   Index 2^31, which the counter lets through once, reads as index 0 with the encryption bit
   set, whether or not the payload is encrypted: the receiver runs the keystream of index 0
   over it and accepts what comes out.
   */
  lemma LastIndexCollides(c: Crypto, conf: bool, pkt: seq<bv8>)
    requires |pkt| >= RTCP_HEADER && WellKeyed(c) && RtcpFits(pkt)
    ensures var sealed := SealRtcp(c, conf, E_BIT, pkt);
            var sent := if conf then CryptPayload(c, RtcpSsrcOf(pkt), E_BIT, pkt, RTCP_HEADER) else pkt;
            && RtcpIndexOf(c, sealed) == 0 && RtcpEncrypted(c, sealed)
            && OpenRtcp(c, sealed) == Authentic(CryptPayload(c, RtcpSsrcOf(pkt), 0, sent, RTCP_HEADER))
  {
    hide Tag, Encode4, Decode4, CryptPayload, RtcpIndexOf, RtcpEncrypted, RtcpSsrcOf, Fresh;
    SealRtcpKeepsHeader(c, conf, E_BIT, pkt);
    var sealed := SealRtcp(c, conf, E_BIT, pkt);
    var covered := RtcpCovered(c, conf, E_BIT, pkt);
    var n := |sealed| - c.tagLen;
    assert sealed[..n] == covered;
    assert sealed[..n - TRAILER] == covered[..|pkt|];
  }
}
