/**
 The in-place work on packet buffers that the SRTP calls share: initial vectors, payload
 encryption, tags and trailers.  Each method is tied to the packet functions of `Packets`.
 */
module PacketBuffers {
  import opened Status
  import opened Bytes
  import opened CounterMode
  import opened HmacSha1
  import opened Packets

  const OFFSET_MAX: nat := 0x4_0100   // fixed header, CSRCs and the longest extension
  const LENGTH_MAX: nat := 0x8000_0000

  // ---- octets ----

  method WriteOctets(buf: array<bv8>, at: nat, data: seq<bv8>)
    requires at + |data| <= buf.Length
    modifies buf
    ensures buf[..] == old(buf[..at]) + data + old(buf[at + |data|..])
  {
    ghost var before := buf[..];
    for i := 0 to |data|
      invariant forall k :: 0 <= k < buf.Length ==> buf[k] == if at <= k < at + i then data[k - at] else before[k]
    {
      buf[at + i] := data[i];
    }
  }

  /** octet_string_is_eq, which answers whether the strings differ. */
  method Differs(tag: seq<bv8>, buf: array<bv8>, at: nat) returns (differ: bool)
    requires at + |tag| <= buf.Length
    ensures differ <==> tag != buf[at..at + |tag|]
  {
    for i := 0 to |tag|
      invariant tag[..i] == buf[at..at + i]
    {
      if tag[i] != buf[at + i] {
        assert tag[i] != buf[at..at + |tag|][i];
        return true;
      }
    }
    assert tag[..|tag|] == tag;
    return false;
  }

  // ---- encryption ----

  ghost predicate CipherFor(cipher: Icm, c: Crypto) {
    cipher.enc == c.enc && cipher.offset == c.salt
  }

  /** The cipher is about to produce the keystream of packet `index`. */
  ghost predicate StartsAt(cipher: Icm, c: Crypto, ssrc: Ssrc, index: nat)
    requires index < INDEX_MAX
    reads cipher
  {
    cipher.Valid() && cipher.enc == c.enc && cipher.bytesInBuffer == 0 && cipher.counter == Fresh(c, ssrc, index).counter
  }

  method SetPacketIv(cipher: Icm, ghost c: Crypto, ssrc: Ssrc, est: nat)
    requires est < INDEX_MAX && cipher.Valid() && CipherFor(cipher, c)
    modifies cipher
    ensures cipher.Valid() && StartsAt(cipher, c, ssrc, est)
  {
    hide XorByte, Index6;
    cipher.SetIv(IvFor(ssrc, est));
  }

  /** A cipher with an empty buffer does not look at what the buffer held. */
  lemma StartIsFresh(enc: Block -> Block, s: State, f: State, buf: seq<bv8>, start: nat, n: nat)
    requires s.unused == 0 && f == State(s.counter, f.keystream, 0) && start + n <= |buf|
    ensures CryptIn(enc, s, buf, start, n) == CryptIn(enc, f, buf, start, n)
  {
    hide XorByte, CounterAt;
    assert forall k: nat :: Ahead(enc, s, k) == Ahead(enc, f, k);
  }

  lemma FreshFits(c: Crypto, ssrc: Ssrc, index: nat, s: State, n: nat)
    requires WellKeyed(c) && index < INDEX_MAX && n < UINT32
    requires s.counter == Fresh(c, ssrc, index).counter
    ensures Fits(s, n) <==> n <= SEGMENT_MAX
  {
    hide XorByte, NatOf, BlockIndex, IvFor;
    FreshCounterIsZero(c, ssrc, index);
  }

  /**
   cipher_encrypt or cipher_decrypt from `start` to `end`, with the length in unsigned 32-bit
   arithmetic: a start beyond the end wraps to a length that no segment holds.
   */
  method CryptInPlace(cipher: Icm, ghost c: Crypto, ghost ssrc: Ssrc, ghost index: nat,
                      buf: array<bv8>, start: nat, end: nat)
    returns (status: Status)
    requires index < INDEX_MAX && WellKeyed(c) && StartsAt(cipher, c, ssrc, index)
    requires end <= buf.Length && end < LENGTH_MAX && start <= OFFSET_MAX
    modifies cipher, buf
    ensures cipher.Valid()
    ensures status == Ok <==> start <= end && end - start <= SEGMENT_MAX
    ensures status == Ok ==> buf[..] == CryptIn(c.enc, Fresh(c, ssrc, index), old(buf[..]), start, end - start)
    ensures status != Ok ==> buf[..] == old(buf[..])
  {
    hide XorByte, NatOf, BlockIndex, IvFor, Fits, After, CryptIn;
    var n := (end - start) % UINT32;
    ghost var s := cipher.Contents();
    FreshFits(c, ssrc, index, s, n);
    assert n <= SEGMENT_MAX <==> start <= end && end - start <= SEGMENT_MAX;
    status := cipher.Encrypt(buf, start, n);
    if status == Ok {
      StartIsFresh(c.enc, s, Fresh(c, ssrc, index), old(buf[..]), start, n);
    }
  }

  /** Encrypting inside the buffer is encrypting the packet at its front. */
  lemma CryptInIsPayload(c: Crypto, ssrc: Ssrc, index: nat, buf: seq<bv8>, start: nat, end: nat)
    requires index < INDEX_MAX && start <= end <= |buf|
    ensures var after := CryptIn(c.enc, Fresh(c, ssrc, index), buf, start, end - start);
            after[..end] == CryptPayload(c, ssrc, index, buf[..end], start) && after[end..] == buf[end..]
  {
    hide Crypt, Xor, IvFor;
    var after := CryptIn(c.enc, Fresh(c, ssrc, index), buf, start, end - start);
    assert buf[..end][start..] == buf[start..end];
    assert after[..end] == buf[..start] + Crypt(c.enc, Fresh(c, ssrc, index), buf[start..end]);
    assert buf[..end][..start] == buf[..start];
  }

  // ---- RTP ----

  /** Where the packet's header says its payload starts; the extension length is read even if it lies past the packet. */
  method PayloadOffset(buf: array<bv8>, len: nat) returns (start: nat)
    requires RTP_HEADER <= len <= buf.Length
    requires HasExtension(buf[0]) ==> FixedLength(buf[0]) + 4 <= buf.Length
    ensures PayloadStart(buf[..len]) <= len ==> start == PayloadStart(buf[..len])
    ensures PayloadStart(buf[..len]) > len ==> start > len
    ensures start <= OFFSET_MAX
  {
    hide NatOf, FixedLength, Decode2;
    LowNibble(buf[0]);
    start := FixedLength(buf[0]);
    if HasExtension(buf[0]) {
      start := start + 4 * (Decode2(buf[start + 2], buf[start + 3]) + 1);
    }
  }

  lemma LowNibble(b: bv8)
    ensures FixedLength(b) <= RTP_HEADER + 60
  {
    assert b & 0x0f <= 15;
    assert NatOf(b & 0x0f) <= 15;
  }

  ghost predicate AuthFor(auth: HmacContext, c: Crypto)
    reads auth.Footprint()
  {
    auth.Keyed() && auth.key == c.authKey
  }

  /** The tag over the first `n` octets of the buffer and `last`. */
  method ComputeTag(auth: HmacContext, ghost c: Crypto, buf: array<bv8>, n: nat, last: seq<bv8>, tagLen: nat)
    returns (tag: seq<bv8>)
    requires AuthFor(auth, c) && n <= buf.Length && buf !in auth.Footprint()
    requires tagLen == c.tagLen && WellKeyed(c)
    modifies auth.Footprint()
    ensures AuthFor(auth, c) && buf[..] == old(buf[..])
    ensures tag == Tag(c.authKey, buf[..n] + last)[..tagLen]
  {
    hide Tag, KeyXor, HmacContext.Keyed, HmacContext.Started;
    auth.Start();
    auth.Update(buf[..n]);
    assert [] + buf[..n] == buf[..n];
    var status;
    status, tag := auth.Compute(last, tagLen);
  }

  /** The payload encrypted, if confidentiality is asked for. */
  method SealBody(cipher: Icm, ghost c: Crypto, conf: bool, ghost ssrc: Ssrc, ghost est: nat, buf: array<bv8>, len: nat)
    returns (status: Status)
    requires est < INDEX_MAX && WellKeyed(c) && cipher.Valid() && StartsAt(cipher, c, ssrc, est)
    requires RTP_HEADER <= len < LENGTH_MAX && len <= buf.Length && ssrc == SsrcOf(buf[..len])
    requires HasExtension(buf[0]) ==> FixedLength(buf[0]) + 4 <= buf.Length
    modifies cipher, buf
    ensures cipher.Valid()
    ensures status == if conf && !PayloadFits(old(buf[..len])) then CipherFail else Ok
    ensures status == Ok ==> buf[..len] == RtpBody(c, conf, est, old(buf[..len])) && buf[len..] == old(buf[len..])
    ensures status != Ok ==> buf[..] == old(buf[..])
  {
    hide CryptPayload, CryptIn, PayloadStart, Icm.Valid, FixedLength, HasExtension, StartsAt, Fresh;
    ghost var before := buf[..];
    assert before[..len] == buf[..len];
    if conf {
      var start := PayloadOffset(buf, len);
      status := CryptInPlace(cipher, c, ssrc, est, buf, start, len);
      if status != Ok {
        return CipherFail;
      }
      CryptInIsPayload(c, ssrc, est, before, start, len);
    }
    return Ok;
  }

  /** The tag behind the packet, if authentication is asked for. */
  method AppendTag(auth: HmacContext, ghost c: Crypto, authOn: bool, tagLen: nat, est: nat, buf: array<bv8>, len: nat)
    returns (newLen: nat)
    requires est < INDEX_MAX && WellKeyed(c) && tagLen == c.tagLen && AuthFor(auth, c) && buf !in auth.Footprint()
    requires len + tagLen <= buf.Length
    modifies auth.Footprint(), buf
    ensures AuthFor(auth, c)
    ensures newLen == len + (if authOn then tagLen else 0)
    ensures buf[..newLen] == old(buf[..len]) + if authOn then RtpTag(c, est, old(buf[..len])) else []
    ensures buf[newLen..] == old(buf[newLen..])
  {
    hide Tag, HmacContext.Keyed, RtpTag;
    if !authOn {
      return len;
    }
    ghost var before := buf[..];
    var tag := ComputeTag(auth, c, buf, len, Encode4(est / 0x1_0000), tagLen);
    TagMatches(c, est, before[..len], Encode4(est / 0x1_0000));
    assert buf[..len] == before[..len];
    WriteOctets(buf, len, tag);
    assert buf[..len + tagLen] == before[..len] + tag;
    return len + tagLen;
  }

  /** From the initial vector to the tag: the middle part of srtp_protect. */
  method SealInPlace(cipher: Icm, auth: HmacContext, ghost c: Crypto, conf: bool, authOn: bool, tagLen: nat,
                     ssrc: Ssrc, est: nat, buf: array<bv8>, len: nat)
    returns (status: Status, newLen: nat)
    requires est < INDEX_MAX && WellKeyed(c) && tagLen == c.tagLen
    requires cipher.Valid() && CipherFor(cipher, c) && AuthFor(auth, c) && buf !in auth.Footprint()
    requires RTP_HEADER <= len < LENGTH_MAX && len + tagLen <= buf.Length && ssrc == SsrcOf(buf[..len])
    requires HasExtension(buf[0]) ==> FixedLength(buf[0]) + 4 <= buf.Length
    modifies cipher, auth.Footprint(), buf
    ensures cipher.Valid() && AuthFor(auth, c)
    ensures status == if conf && !PayloadFits(old(buf[..len])) then CipherFail else Ok
    ensures status == Ok ==>
              && newLen == len + (if authOn then tagLen else 0)
              && buf[..newLen] == Seal(c, conf, authOn, est, old(buf[..len]))
              && buf[newLen..] == old(buf[newLen..])
    ensures status != Ok ==> newLen == len && buf[..] == old(buf[..])
  {
    hide Tag, RtpBody, RtpTag, PayloadFits, HmacContext.Keyed, Icm.Valid, FixedLength, HasExtension, StartsAt, Fresh;
    ghost var before := buf[..];
    assert before[..len] == buf[..len];
    SetPacketIv(cipher, c, ssrc, est);
    status := SealBody(cipher, c, conf, ssrc, est, buf, len);
    if status != Ok {
      return status, len;
    }
    ghost var middle := buf[..];
    assert middle[..len] == buf[..len];
    newLen := AppendTag(auth, c, authOn, tagLen, est, buf, len);
    assert middle[newLen..] == middle[len..][newLen - len..] && before[newLen..] == before[len..][newLen - len..];
    assert buf[newLen..] == before[newLen..];
  }

  lemma TagMatches(c: Crypto, est: nat, body: seq<bv8>, roc: seq<bv8>)
    requires est < INDEX_MAX && WellKeyed(c) && roc == Encode4(est / 0x1_0000)
    ensures Tag(c.authKey, body + roc)[..c.tagLen] == RtpTag(c, est, body)
  {
    hide Tag, Encode4;
    assert Index6(est)[..4] == roc;
  }

  /** The tag comparison of srtp_unprotect. */
  method TagIsBad(auth: HmacContext, ghost c: Crypto, est: nat, buf: array<bv8>, len: nat, tagLen: nat)
    returns (bad: bool)
    requires est < INDEX_MAX && WellKeyed(c) && tagLen == c.tagLen && AuthFor(auth, c) && buf !in auth.Footprint()
    requires tagLen <= len <= buf.Length
    modifies auth.Footprint()
    ensures AuthFor(auth, c) && buf[..] == old(buf[..])
    ensures bad <==> buf[..len][len - tagLen..] != RtpTag(c, est, buf[..len][..len - tagLen])
  {
    hide Tag, HmacContext.Keyed, RtpTag;
    var n := len - tagLen;
    var tag := ComputeTag(auth, c, buf, n, Encode4(est / 0x1_0000), tagLen);
    TagMatches(c, est, buf[..n], Encode4(est / 0x1_0000));
    bad := Differs(tag, buf, n);
    assert buf[..len][n..] == buf[n..n + tagLen] && buf[..len][..n] == buf[..n];
  }

  /** The decryption of srtp_unprotect. */
  method DecryptInPlace(cipher: Icm, ghost c: Crypto, conf: bool, ssrc: Ssrc, ghost est: nat,
                        buf: array<bv8>, len: nat, tagLen: nat)
    returns (status: Status)
    requires est < INDEX_MAX && WellKeyed(c) && tagLen == c.tagLen && cipher.Valid() && StartsAt(cipher, c, ssrc, est)
    requires RTP_HEADER <= len < LENGTH_MAX && len <= buf.Length && ssrc == SsrcOf(buf[..len])
    requires HasExtension(buf[0]) ==> FixedLength(buf[0]) + 4 <= buf.Length
    modifies cipher, buf
    ensures cipher.Valid()
    ensures var pkt := old(buf[..len]);
            var n := len - tagLen;
            var result := Open(c, conf, false, est, pkt);
            && status == (if result == BadPayload then CipherFail else Ok)
            && (status == Ok ==> result == Authentic(buf[..n]) && buf[n..] == old(buf[n..]))
            && (status != Ok ==> buf[..] == old(buf[..]))
  {
    hide CryptPayload, CryptIn, PayloadStart, Icm.Valid, FixedLength, HasExtension, StartsAt, Fresh;
    ghost var before := buf[..];
    var n := len - tagLen;
    assert before[..len][..n] == before[..n] && before[..len] == buf[..len];
    if conf {
      var start := PayloadOffset(buf, len);
      status := CryptInPlace(cipher, c, ssrc, est, buf, start, n);
      if status != Ok {
        return CipherFail;
      }
      CryptInIsPayload(c, ssrc, est, before, start, n);
    }
    return Ok;
  }

  // ---- RTCP ----

  lemma OrTopBit(b: bv8)
    ensures NatOf(b) < 128 ==> NatOf(0x80 | b) == 128 + NatOf(b)
    ensures NatOf(b) == 128 ==> NatOf(0x80 | b) == 128
  {
    var n := NatOf(b);
    if n < 128 {
      assert b < 128;
      assert 0x80 | b == 0x80 + b;
    } else if n == 128 {
      assert b == 128;
    }
  }

  lemma OrZero(b: bv8)
    ensures 0 | b == b
  {
  }

  /** The trailer word is the encryption bit or-ed with the index. */
  lemma OrTrailer(conf: bool, index: nat)
    requires index <= E_BIT
    ensures var b := Encode4(index);
            Encode4(TrailerWord(conf, index)) == [(if conf then 0x80 else 0) | b[0], 0 | b[1], 0 | b[2], 0 | b[3]]
  {
    hide NatOf, LowByte;
    var b, t := Encode4(index), Encode4(TrailerWord(conf, index));
    OrTopBit(b[0]);
    OrZero(b[0]);
    OrZero(b[1]);
    OrZero(b[2]);
    OrZero(b[3]);
    DecodeEncode4(index);
    DecodeEncode4(TrailerWord(conf, index));
    TrailerOctets(conf, index);
    SameNat(t[0], (if conf then 0x80 else 0) | b[0]);
    SameNat(t[1], b[1]);
    SameNat(t[2], b[2]);
    SameNat(t[3], b[3]);
  }

  lemma QuotientAndRest(q: nat, r: nat)
    requires r < 256
    ensures (q * 256 + r) / 256 == q && (q * 256 + r) % 256 == r
  {
  }

  lemma Encode4Parts(b0: nat, b1: nat, b2: nat, b3: nat)
    requires b0 < 256 && b1 < 256 && b2 < 256 && b3 < 256
    ensures var n := ((b0 * 256 + b1) * 256 + b2) * 256 + b3;
            && n < 0x1_0000_0000
            && NatOf(Encode4(n)[0]) == b0 && NatOf(Encode4(n)[1]) == b1
            && NatOf(Encode4(n)[2]) == b2 && NatOf(Encode4(n)[3]) == b3
  {
    hide NatOf, LowByte;
    var n2 := b0 * 256 + b1;
    var n1 := n2 * 256 + b2;
    var n := n1 * 256 + b3;
    QuotientAndRest((b0 * 256 + b1) * 256 + b2, b3);
    QuotientAndRest(b0 * 256 + b1, b2);
    QuotientAndRest(b0, b1);
  }

  /** The encryption bit only touches the first octet. */
  lemma TrailerOctets(conf: bool, index: nat)
    requires index <= E_BIT
    ensures var b, t := Encode4(index), Encode4(TrailerWord(conf, index));
            && NatOf(t[0]) == (if conf && NatOf(b[0]) < 128 then 128 + NatOf(b[0]) else NatOf(b[0]))
            && NatOf(b[0]) <= 128
            && NatOf(t[1]) == NatOf(b[1]) && NatOf(t[2]) == NatOf(b[2]) && NatOf(t[3]) == NatOf(b[3])
  {
    hide NatOf, LowByte;
    hide Encode4;
    var q1 := index / 256;
    var q2 := q1 / 256;
    var q3 := q2 / 256;
    assert index == ((q3 * 256 + q2 % 256) * 256 + q1 % 256) * 256 + index % 256;
    assert q3 <= 128 && (q3 == 128 <==> index == E_BIT);
    Encode4Parts(q3, q2 % 256, q1 % 256, index % 256);
    if conf && index < E_BIT {
      Encode4Parts(q3 + 128, q2 % 256, q1 % 256, index % 256);
    }
  }

  /** The first half of writing the trailer: the encryption bit alone. */
  method StartTrailer(buf: array<bv8>, at: nat, conf: bool)
    requires at + TRAILER <= buf.Length
    modifies buf
    ensures buf[..at] == old(buf[..at]) && buf[at + TRAILER..] == old(buf[at + TRAILER..])
    ensures buf[at..at + TRAILER] == [if conf then 0x80 else 0, 0, 0, 0]
  {
    ghost var before := buf[..];
    WriteOctets(buf, at, [if conf then 0x80 else 0, 0, 0, 0]);
    assert buf[..at] == before[..at];
  }

  /** The second half: the index or-ed in. */
  method FinishTrailer(buf: array<bv8>, at: nat, ghost conf: bool, index: nat)
    requires at + TRAILER <= buf.Length && index <= E_BIT
    requires buf[at..at + TRAILER] == [if conf then 0x80 else 0, 0, 0, 0]
    modifies buf
    ensures buf[..at] == old(buf[..at]) && buf[at + TRAILER..] == old(buf[at + TRAILER..])
    ensures buf[at..at + TRAILER] == Encode4(TrailerWord(conf, index))
  {
    hide Encode4, TrailerWord;
    var b := Encode4(index);
    OrTrailer(conf, index);
    ghost var before := buf[..];
    assert before[at..at + TRAILER] == buf[at..at + TRAILER];
    assert buf[at] == before[at..at + TRAILER][0] && buf[at + 1] == before[at..at + TRAILER][1];
    assert buf[at + 2] == before[at..at + TRAILER][2] && buf[at + 3] == before[at..at + TRAILER][3];
    WriteOctets(buf, at, [buf[at] | b[0], buf[at + 1] | b[1], buf[at + 2] | b[2], buf[at + 3] | b[3]]);
    assert buf[..at] == before[..at];
  }

  /** cipher_output with the prefix length 0 of HMAC-SHA1: no keystream is used, one octet is cleared. */
  method NoPrefix(cipher: Icm, ghost c: Crypto, ghost ssrc: Ssrc, ghost index: nat, buf: array<bv8>, at: nat)
    returns (status: Status)
    requires index < INDEX_MAX && WellKeyed(c) && cipher.Valid() && StartsAt(cipher, c, ssrc, index)
    requires at < buf.Length
    modifies cipher, buf
    ensures cipher.Valid() && StartsAt(cipher, c, ssrc, index) && status == Ok
    ensures buf[..at] == old(buf[..at]) && buf[at + 1..] == old(buf[at + 1..])
  {
    hide XorByte, NatOf, BlockIndex, IvFor, Fits, Ahead, CounterAt;
    FreshFits(c, ssrc, index, cipher.Contents(), 0);
    AfterFew(c.enc, cipher.Contents(), 0);
    status := cipher.Output(buf, at, 0);
  }

  method ComputeRtcpTag(auth: HmacContext, ghost c: Crypto, buf: array<bv8>, n: nat, tagLen: nat)
    returns (tag: seq<bv8>)
    requires AuthFor(auth, c) && n <= buf.Length && buf !in auth.Footprint()
    requires tagLen == c.tagLen && WellKeyed(c)
    modifies auth.Footprint()
    ensures AuthFor(auth, c) && buf[..] == old(buf[..])
    ensures tag == RtcpTag(c, buf[..n])
  {
    hide Tag, KeyXor, HmacContext.Keyed, HmacContext.Started;
    auth.Start();
    assert [] + buf[..n] == buf[..n];
    var status;
    status, tag := auth.Compute(buf[..n], tagLen);
  }

  /** The payload encrypted, the trailer already in place. */
  method SealRtcpBody(cipher: Icm, ghost c: Crypto, conf: bool, ghost ssrc: Ssrc, ghost index: nat, buf: array<bv8>, len: nat)
    returns (status: Status)
    requires index <= E_BIT && WellKeyed(c) && cipher.Valid() && StartsAt(cipher, c, ssrc, index)
    requires RTCP_HEADER <= len < LENGTH_MAX && len + TRAILER <= buf.Length && ssrc == RtcpSsrcOf(buf[..len])
    requires buf[len..len + TRAILER] == Encode4(TrailerWord(conf, index))
    modifies cipher, buf
    ensures cipher.Valid()
    ensures status == if conf && !RtcpFits(old(buf[..len])) then CipherFail else Ok
    ensures status == Ok ==> buf[..len + TRAILER] == RtcpCovered(c, conf, index, old(buf[..len]))
    ensures buf[len..] == old(buf[len..])
    ensures status != Ok ==> buf[..] == old(buf[..])
  {
    hide CryptPayload, CryptIn, Icm.Valid, StartsAt, Fresh, Encode4;
    ghost var before := buf[..];
    assert before[..len] == buf[..len];
    if conf {
      status := CryptInPlace(cipher, c, ssrc, index, buf, RTCP_HEADER, len);
      if status != Ok {
        return CipherFail;
      }
      CryptInIsPayload(c, ssrc, index, before, RTCP_HEADER, len);
    }
    assert buf[..len + TRAILER] == buf[..len] + buf[len..][..TRAILER];
    assert buf[len..][..TRAILER] == before[len..][..TRAILER] == before[len..len + TRAILER];
    return Ok;
  }

  /** Initial vector, prefix and payload: what happens before the tag. */
  method EncryptRtcp(cipher: Icm, ghost c: Crypto, conf: bool, ssrc: Ssrc, index: nat, buf: array<bv8>, len: nat)
    returns (status: Status)
    requires index <= E_BIT && WellKeyed(c) && cipher.Valid() && CipherFor(cipher, c)
    requires RTCP_HEADER <= len < LENGTH_MAX && len + TRAILER < buf.Length && ssrc == RtcpSsrcOf(buf[..len])
    requires buf[len..len + TRAILER] == Encode4(TrailerWord(conf, index))
    modifies cipher, buf
    ensures cipher.Valid()
    ensures status == if conf && !RtcpFits(old(buf[..len])) then CipherFail else Ok
    ensures status == Ok ==> buf[..len + TRAILER] == RtcpCovered(c, conf, index, old(buf[..len]))
    ensures status != Ok ==> buf[..len] == old(buf[..len])
    ensures buf[len + TRAILER + 1..] == old(buf[len + TRAILER + 1..])
  {
    hide RtcpCovered, RtcpFits, Icm.Valid, StartsAt, Fresh, Encode4;
    ghost var before := buf[..];
    var covered := len + TRAILER;
    SetPacketIv(cipher, c, ssrc, index);
    status := NoPrefix(cipher, c, ssrc, index, buf, covered);
    ghost var cleared := buf[..];
    assert buf[..len] == buf[..covered][..len] == before[..covered][..len] == before[..len];
    assert buf[len..covered] == buf[..covered][len..] == before[..covered][len..] == before[len..covered];
    status := SealRtcpBody(cipher, c, conf, ssrc, index, buf, len);
    assert buf[covered + 1..] == buf[len..][TRAILER + 1..] == cleared[len..][TRAILER + 1..] == cleared[covered + 1..];
    if status != Ok {
      assert buf[..len] == cleared[..len];
    }
  }

  /** From the initial vector to the tag: the last part of srtp_protect_rtcp. */
  method SealRtcpInPlace(cipher: Icm, auth: HmacContext, ghost c: Crypto, conf: bool, tagLen: nat,
                         ssrc: Ssrc, index: nat, buf: array<bv8>, len: nat)
    returns (status: Status, newLen: nat)
    requires index <= E_BIT && WellKeyed(c) && tagLen == c.tagLen
    requires cipher.Valid() && CipherFor(cipher, c) && AuthFor(auth, c) && buf !in auth.Footprint()
    requires len + TRAILER + (if tagLen == 0 then 1 else tagLen) <= buf.Length
    requires RTCP_HEADER <= len < LENGTH_MAX && ssrc == RtcpSsrcOf(buf[..len])
    requires buf[len..len + TRAILER] == Encode4(TrailerWord(conf, index))
    modifies cipher, auth.Footprint(), buf
    ensures cipher.Valid() && AuthFor(auth, c)
    ensures status == if conf && !RtcpFits(old(buf[..len])) then CipherFail else Ok
    ensures newLen == len + if status == Ok then TRAILER + tagLen else 0
    ensures buf[..newLen] == if status == Ok then SealRtcp(c, conf, index, old(buf[..len])) else old(buf[..len])
    ensures var past := len + TRAILER + (if tagLen == 0 then 1 else tagLen); buf[past..] == old(buf[past..])
  {
    hide Tag, RtcpTag, RtcpCovered, RtcpFits, HmacContext.Keyed, Icm.Valid, StartsAt, Fresh, Encode4;
    ghost var before := buf[..];
    var covered := len + TRAILER;
    ghost var past := covered + (if tagLen == 0 then 1 else tagLen);
    status := EncryptRtcp(cipher, c, conf, ssrc, index, buf, len);
    ghost var sealed := buf[..];
    SameTail(sealed, before, covered + 1, past);
    if status != Ok {
      return status, len;
    }
    newLen := AppendRtcpTag(auth, c, buf, covered, tagLen);
    SameTail(buf[..], sealed, newLen, past);
  }

  /** The index or-ed into the trailer, then everything up to the tag. */
  method FinishRtcp(cipher: Icm, auth: HmacContext, ghost c: Crypto, conf: bool, tagLen: nat,
                    ssrc: Ssrc, index: nat, buf: array<bv8>, len: nat)
    returns (status: Status, newLen: nat)
    requires index <= E_BIT && WellKeyed(c) && tagLen == c.tagLen
    requires cipher.Valid() && CipherFor(cipher, c) && AuthFor(auth, c) && buf !in auth.Footprint()
    requires len + TRAILER + (if tagLen == 0 then 1 else tagLen) <= buf.Length
    requires RTCP_HEADER <= len < LENGTH_MAX && ssrc == RtcpSsrcOf(buf[..len])
    requires buf[len..len + TRAILER] == [if conf then 0x80 else 0, 0, 0, 0]
    modifies cipher, auth.Footprint(), buf
    ensures cipher.Valid() && AuthFor(auth, c)
    ensures status == if conf && !RtcpFits(old(buf[..len])) then CipherFail else Ok
    ensures newLen == len + if status == Ok then TRAILER + tagLen else 0
    ensures buf[..newLen] == if status == Ok then SealRtcp(c, conf, index, old(buf[..len])) else old(buf[..len])
    ensures var past := len + TRAILER + (if tagLen == 0 then 1 else tagLen); buf[past..] == old(buf[past..])
  {
    hide SealRtcp, RtcpFits, HmacContext.Keyed, Icm.Valid, Encode4, TrailerWord, RtcpSsrcOf;
    ghost var before := buf[..];
    FinishTrailer(buf, len, conf, index);
    assert buf[..len] == before[..len];
    SameTail(buf[..], before, len + TRAILER, len + TRAILER + (if tagLen == 0 then 1 else tagLen));
    status, newLen := SealRtcpInPlace(cipher, auth, c, conf, tagLen, ssrc, index, buf, len);
  }

  lemma SameTail<T>(a: seq<T>, b: seq<T>, from: nat, to: nat)
    requires from <= to <= |a| == |b| && a[from..] == b[from..]
    ensures a[to..] == b[to..]
  {
    assert a[to..] == a[from..][to - from..] && b[to..] == b[from..][to - from..];
  }

  method AppendRtcpTag(auth: HmacContext, ghost c: Crypto, buf: array<bv8>, n: nat, tagLen: nat) returns (newLen: nat)
    requires WellKeyed(c) && tagLen == c.tagLen && AuthFor(auth, c) && buf !in auth.Footprint() && n + tagLen <= buf.Length
    modifies auth.Footprint(), buf
    ensures AuthFor(auth, c) && newLen == n + tagLen
    ensures buf[..newLen] == old(buf[..n]) + RtcpTag(c, old(buf[..n])) && buf[newLen..] == old(buf[newLen..])
  {
    hide Tag, RtcpTag, HmacContext.Keyed;
    ghost var before := buf[..];
    var tag := ComputeRtcpTag(auth, c, buf, n, tagLen);
    assert buf[..n] == before[..n];
    WriteOctets(buf, n, tag);
    newLen := n + tagLen;
    assert buf[..newLen] == before[..n] + tag;
  }

  method RtcpTagIsBad(auth: HmacContext, ghost c: Crypto, buf: array<bv8>, len: nat, tagLen: nat) returns (bad: bool)
    requires WellKeyed(c) && tagLen == c.tagLen && AuthFor(auth, c) && buf !in auth.Footprint()
    requires tagLen <= len <= buf.Length
    modifies auth.Footprint()
    ensures AuthFor(auth, c) && buf[..] == old(buf[..])
    ensures bad <==> buf[..len][len - tagLen..] != RtcpTag(c, buf[..len][..len - tagLen])
  {
    hide Tag, HmacContext.Keyed, RtcpTag;
    var n := len - tagLen;
    var tag := ComputeRtcpTag(auth, c, buf, n, tagLen);
    bad := Differs(tag, buf, n);
    assert buf[..len][n..] == buf[n..n + tagLen] && buf[..len][..n] == buf[..n];
  }

  /** Encryption bit and index as the receiver reads them from the buffer. */
  method ReadTrailer(buf: array<bv8>, ghost c: Crypto, len: nat, tagLen: nat) returns (encrypted: bool, index: nat)
    requires tagLen == c.tagLen && RTCP_HEADER + TRAILER + tagLen <= len <= buf.Length
    ensures encrypted == RtcpEncrypted(c, buf[..len]) && index == RtcpIndexOf(c, buf[..len])
  {
    hide NatOf, Decode4;
    var at := len - tagLen - TRAILER;
    var trailer := buf[at..at + TRAILER];
    assert trailer == buf[..len][at..at + TRAILER];
    encrypted := trailer[0] & 0x80 != 0;
    index := Decode4(trailer) % E_BIT;
  }

  /** The decryption of srtp_unprotect_rtcp, once the tag is known to be good. */
  method DecryptRtcpInPlace(cipher: Icm, ghost c: Crypto, encrypted: bool, ssrc: Ssrc, ghost index: nat,
                            buf: array<bv8>, len: nat, tagLen: nat)
    returns (status: Status)
    requires WellKeyed(c) && tagLen == c.tagLen && RTCP_HEADER + TRAILER + tagLen <= len <= buf.Length && len < LENGTH_MAX
    requires index == RtcpIndexOf(c, buf[..len]) && encrypted == RtcpEncrypted(c, buf[..len])
    requires ssrc == RtcpSsrcOf(buf[..len]) && cipher.Valid() && StartsAt(cipher, c, ssrc, index)
    requires buf[..len][len - tagLen..] == RtcpTag(c, buf[..len][..len - tagLen])
    modifies cipher, buf
    ensures cipher.Valid()
    ensures var result := OpenRtcp(c, old(buf[..len]));
            var n := len - tagLen - TRAILER;
            && status == (if result == BadPayload then CipherFail else Ok)
            && (status == Ok ==> result == Authentic(buf[..n]) && buf[n..] == old(buf[n..]))
            && (status != Ok ==> result == BadPayload && buf[..] == old(buf[..]))
  {
    hide CryptPayload, CryptIn, Icm.Valid, StartsAt, Fresh, RtcpTag, RtcpIndexOf, RtcpEncrypted;
    ghost var before := buf[..];
    var n := len - tagLen - TRAILER;
    assert before[..len] == buf[..len] && before[..len][..n] == before[..n];
    if encrypted {
      status := CryptInPlace(cipher, c, ssrc, index, buf, RTCP_HEADER, n);
      if status != Ok {
        return CipherFail;
      }
      CryptInIsPayload(c, ssrc, index, before, RTCP_HEADER, n);
    }
    return Ok;
  }
}
