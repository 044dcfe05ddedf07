/**
 Session keys from a master key: counter-mode keystream under one label per key, section 4.3.1
 of RFC 3711.
 */
module KeyDerivation {
  import opened Status
  import opened Bytes
  import opened CounterMode
  import opened Packets

  const RTP_ENCRYPTION: bv8 := 0
  const RTP_MSG_AUTH: bv8 := 1
  const RTP_SALT: bv8 := 2
  const RTCP_ENCRYPTION: bv8 := 3
  const RTCP_MSG_AUTH: bv8 := 4
  const RTCP_SALT: bv8 := 5
  const TMP_KEY: nat := 256   // MAX_SRTP_KEY_LEN

  /** All zero but for the label in the eighth octet. */
  function Nonce(l: bv8): Block {
    [0, 0, 0, 0, 0, 0, 0, l, 0, 0, 0, 0, 0, 0, 0, 0]
  }

  function StartOf(offset: Block, l: bv8): State {
    State(Xor(offset, Nonce(l)), ZERO_BLOCK, 0)
  }

  /** The key of length `n` under label `l`: the first octets of keystream. */
  function Derived(enc: Block -> Block, offset: Block, l: bv8, n: nat): (key: seq<bv8>)
    ensures |key| == n
  {
    Crypt(enc, StartOf(offset, l), seq(n, _ => 0))
  }

  lemma StartsAtZero(offset: Block, l: bv8)
    requires offset[14] == 0 && offset[15] == 0
    ensures BlockIndex(StartOf(offset, l).counter) == 0
  {
    hide NatOf, XorByte;
    XorZero(0);
    ZeroValue();
    var counter := StartOf(offset, l).counter;
    assert counter[14] == XorByte(0, 0) && counter[15] == XorByte(0, 0);
  }

  /** Different labels never feed the same block to the cipher, so no two keys share keystream. */
  lemma LabelsApart(offset: Block, l: bv8, n: nat, l': bv8, n': nat)
    requires l != l'
    ensures CounterAt(StartOf(offset, l).counter, n) != CounterAt(StartOf(offset, l').counter, n')
  {
    hide NatOf, XorByte, CounterAt, BlockIndex;
    var a, b := StartOf(offset, l).counter, StartOf(offset, l').counter;
    CounterParts(a, n);
    CounterParts(b, n');
    if CounterAt(a, n) == CounterAt(b, n') {
      assert a[7] == a[..14][7] == b[..14][7] == b[7];
      XorCancels(l, l', offset[7]);
    }
  }

  /** srtp_kdf_generate: `n` octets of `key` from `at` on. */
  method Generate(kdf: Icm, l: bv8, key: array<bv8>, at: nat, n: nat) returns (status: Status)
    requires kdf.Valid() && 0 < n <= SEGMENT_MAX && at + n <= key.Length
    modifies kdf, key
    ensures status == Ok && kdf.Valid()
    ensures key[..] == old(key[..at]) + Derived(kdf.enc, kdf.offset, l, n) + old(key[at + n..])
  {
    hide NatOf, XorByte, BlockIndex, Ahead, After, CounterAt, Nonce;
    ghost var before := key[..];
    kdf.SetIv(Nonce(l));
    Icm.Clear(key, at, n);
    ghost var s, cleared := kdf.Contents(), key[..];
    assert cleared[at..at + n] == seq(n, _ => 0);
    assert cleared[..at] == before[..at] && cleared[at + n..] == before[at + n..];
    StartsAtZero(kdf.offset, l);
    status := kdf.Encrypt(key, at, n);
    EmptyBuffer(kdf.enc, s, StartOf(kdf.offset, l), seq(n, _ => 0));
  }

  lemma EmptyBuffer(enc: Block -> Block, s: State, t: State, data: seq<bv8>)
    requires s.unused == 0 && t.unused == 0 && s.counter == t.counter
    ensures Crypt(enc, s, data) == Crypt(enc, t, data)
  {
    hide XorByte, CounterAt;
    assert forall k: nat :: Ahead(enc, s, k) == Ahead(enc, t, k);
  }

  // ---- all keys of a session ----

  /** Key, salt and authentication key of RTP or RTCP. */
  datatype KeySet = KeySet(key: seq<bv8>, salt: seq<bv8>, authKey: seq<bv8>)

  function DerivedSet(enc: Block -> Block, offset: Block, keyLabel: bv8, saltLabel: bv8, authLabel: bv8,
                      keyLen: nat, authLen: nat): (k: KeySet)
    ensures |k.key| == keyLen && |k.salt| == 14 && |k.authKey| == authLen
  {
    KeySet(Derived(enc, offset, keyLabel, keyLen), Derived(enc, offset, saltLabel, 14), Derived(enc, offset, authLabel, authLen))
  }

  /** The RTP keys. */
  function RtpKeySet(enc: Block -> Block, offset: Block, keyLen: nat, authLen: nat): (k: KeySet)
    ensures |k.key| == keyLen && |k.salt| == 14 && |k.authKey| == authLen
  {
    DerivedSet(enc, offset, RTP_ENCRYPTION, RTP_SALT, RTP_MSG_AUTH, keyLen, authLen)
  }

  /** The RTCP keys. */
  function RtcpKeySet(enc: Block -> Block, offset: Block, keyLen: nat, authLen: nat): (k: KeySet)
    ensures |k.key| == keyLen && |k.salt| == 14 && |k.authKey| == authLen
  {
    DerivedSet(enc, offset, RTCP_ENCRYPTION, RTCP_SALT, RTCP_MSG_AUTH, keyLen, authLen)
  }

  /** One half of srtp_stream_init_keys: key and salt side by side in the scratch buffer, then the authentication key. */
  method DeriveSet(kdf: Icm, tmp: array<bv8>, keyLabel: bv8, saltLabel: bv8, authLabel: bv8, keyLen: nat, authLen: nat)
    returns (k: KeySet)
    requires kdf.Valid() && tmp.Length == TMP_KEY && 0 < keyLen <= 32 && 0 < authLen <= 20
    modifies kdf, tmp
    ensures kdf.Valid()
    ensures k == DerivedSet(kdf.enc, kdf.offset, keyLabel, saltLabel, authLabel, keyLen, authLen)
  {
    hide Derived;
    var status := Generate(kdf, keyLabel, tmp, 0, keyLen);
    assert tmp[..keyLen] == Derived(kdf.enc, kdf.offset, keyLabel, keyLen);
    ghost var half := tmp[..];
    status := Generate(kdf, saltLabel, tmp, keyLen, 14);
    assert tmp[..keyLen] == half[..keyLen] == Derived(kdf.enc, kdf.offset, keyLabel, keyLen);
    assert tmp[keyLen..keyLen + 14] == Derived(kdf.enc, kdf.offset, saltLabel, 14);
    var key, salt := tmp[..keyLen], tmp[keyLen..keyLen + 14];
    status := Generate(kdf, authLabel, tmp, 0, authLen);
    assert tmp[..authLen] == Derived(kdf.enc, kdf.offset, authLabel, authLen);
    k := KeySet(key, salt, tmp[..authLen]);
  }

  /** srtp_stream_init_keys, for AES in counter mode with HMAC-SHA1. */
  method InitKeys(kdf: Icm, rtpKeyLen: nat, rtpAuthLen: nat, rtcpKeyLen: nat, rtcpAuthLen: nat)
    returns (rtp: KeySet, rtcp: KeySet)
    requires kdf.Valid()
    requires 0 < rtpKeyLen <= 32 && 0 < rtpAuthLen <= 20 && 0 < rtcpKeyLen <= 32 && 0 < rtcpAuthLen <= 20
    modifies kdf
    ensures rtp == RtpKeySet(kdf.enc, kdf.offset, rtpKeyLen, rtpAuthLen)
    ensures rtcp == RtcpKeySet(kdf.enc, kdf.offset, rtcpKeyLen, rtcpAuthLen)
  {
    hide DerivedSet;
    var tmp := new bv8[TMP_KEY];
    rtp := DeriveSet(kdf, tmp, RTP_ENCRYPTION, RTP_SALT, RTP_MSG_AUTH, rtpKeyLen, rtpAuthLen);
    rtcp := DeriveSet(kdf, tmp, RTCP_ENCRYPTION, RTCP_SALT, RTCP_MSG_AUTH, rtcpKeyLen, rtcpAuthLen);
  }

  // ---- the labels of section 4.3.2 of RFC 3711, octet by octet ----

  /** Block `i` behind a key: the master salt with the label in octet 7 and the block number at the end. */
  ghost predicate IsKeyInput(offset: Block, l: bv8, i: nat, b: Block) {
    && (forall k :: 0 <= k < 14 && k != 7 ==> b[k] == offset[k])
    && b[7] == XorByte(offset[7], l)
    && NatOf(b[14]) == i / 0x100 && NatOf(b[15]) == i % 0x100
  }

  /** The octets of `key` are those of the encrypted blocks under label `l`. */
  ghost predicate MadeUnder(enc: Block -> Block, offset: Block, l: bv8, key: seq<bv8>) {
    forall i: nat, j: nat, b: Block :: j < 16 && 16 * i + j < |key| && IsKeyInput(offset, l, i, b) ==> key[16 * i + j] == enc(b)[j]
  }

  lemma KeyInput(offset: Block, l: bv8, i: nat, b: Block)
    requires offset[14] == 0 && offset[15] == 0 && IsKeyInput(offset, l, i, b)
    ensures b == CounterAt(StartOf(offset, l).counter, i)
  {
    hide NatOf, XorByte, CounterAt, BlockIndex;
    var counter := StartOf(offset, l).counter;
    StartsAtZero(offset, l);
    NumberOf(b, i);
    CounterParts(counter, i);
    forall k | 0 <= k < 14
      ensures b[k] == counter[k]
    {
      XorZero(offset[k]);
    }
    assert b[..14] == counter[..14];
    CounterUnique(b, CounterAt(counter, i));
  }

  lemma NumberOf(b: Block, i: nat)
    requires NatOf(b[14]) == i / 0x100 && NatOf(b[15]) == i % 0x100
    ensures i < 0x1_0000 && BlockIndex(b) == i
  {
    hide NatOf;
  }

  /** Such a block exists for every block number a key can have. */
  lemma KeyInputExists(offset: Block, l: bv8, i: nat)
    requires offset[14] == 0 && offset[15] == 0 && i < 0x1_0000
    ensures IsKeyInput(offset, l, i, CounterAt(StartOf(offset, l).counter, i))
  {
    hide NatOf, XorByte, CounterAt;
    var counter := StartOf(offset, l).counter;
    StartsAtZero(offset, l);
    CounterOctets(counter, i);
    ZeroValue();
    XorZero(0);
    forall k | 0 <= k < 14
      ensures CounterAt(counter, i)[k] == XorByte(offset[k], Nonce(l)[k]) && XorByte(offset[k], 0) == offset[k]
    {
      XorZero(offset[k]);
      assert CounterAt(counter, i)[..14][k] == counter[..14][k];
    }
    assert counter[14] == XorByte(0, 0) && counter[15] == XorByte(0, 0);
  }

  lemma DerivedIs(enc: Block -> Block, offset: Block, l: bv8, n: nat)
    requires offset[14] == 0 && offset[15] == 0
    ensures MadeUnder(enc, offset, l, Derived(enc, offset, l, n))
  {
    hide NatOf, XorByte, CounterAt, IsKeyInput, Crypt;
    forall i: nat, j: nat, b: Block | j < 16 && 16 * i + j < n && IsKeyInput(offset, l, i, b)
      ensures Derived(enc, offset, l, n)[16 * i + j] == enc(b)[j]
    {
      KeyInput(offset, l, i, b);
      CryptOctet(enc, StartOf(offset, l), seq(n, _ => 0), i, j);
      XorZero(enc(b)[j]);
    }
  }

  /** Which label is behind which of the six keys. */
  lemma SixLabels(enc: Block -> Block, offset: Block, keyLen: nat, authLen: nat)
    requires offset[14] == 0 && offset[15] == 0
    ensures var rtp, rtcp := RtpKeySet(enc, offset, keyLen, authLen), RtcpKeySet(enc, offset, keyLen, authLen);
            && MadeUnder(enc, offset, 0x00, rtp.key) && MadeUnder(enc, offset, 0x01, rtp.authKey)
            && MadeUnder(enc, offset, 0x02, rtp.salt)
            && MadeUnder(enc, offset, 0x03, rtcp.key) && MadeUnder(enc, offset, 0x04, rtcp.authKey)
            && MadeUnder(enc, offset, 0x05, rtcp.salt)
  {
    hide Derived, MadeUnder;
    DerivedIs(enc, offset, 0x00, keyLen);
    DerivedIs(enc, offset, 0x01, authLen);
    DerivedIs(enc, offset, 0x02, 14);
    DerivedIs(enc, offset, 0x03, keyLen);
    DerivedIs(enc, offset, 0x04, authLen);
    DerivedIs(enc, offset, 0x05, 14);
  }

  /** What a key set makes of the block cipher: the keys of one direction, ready for the packet functions. */
  function CryptoOf(cipher: seq<bv8> -> Block -> Block, k: KeySet, tagLen: nat): (c: Crypto)
    requires |k.salt| == 14 && |k.authKey| <= 20 && tagLen <= TAG_LIMIT
    ensures WellKeyed(c)
  {
    Crypto(cipher(k.key), k.salt + [0, 0], k.authKey, tagLen)
  }

  /** The blocks of keystream behind a derived key. */
  function KeyBlocks(offset: Block, l: bv8, n: nat): seq<Block> {
    InputBlocks(StartOf(offset, l), n)
  }

  /** The six keys of a session are made from pairwise different cipher input blocks. */
  lemma SixKeysApart(offset: Block, l: bv8, n: nat, l': bv8, n': nat)
    requires l < 6 && l' < 6 && l != l'
    ensures forall b :: b in KeyBlocks(offset, l, n) ==> b !in KeyBlocks(offset, l', n')
  {
    hide CounterAt, StartOf;
    forall b | b in KeyBlocks(offset, l, n) && b in KeyBlocks(offset, l', n')
      ensures false
    {
      var s, s' := StartOf(offset, l), StartOf(offset, l');
      var i :| 0 <= i < |KeyBlocks(offset, l, n)| && KeyBlocks(offset, l, n)[i] == b;
      var j :| 0 <= j < |KeyBlocks(offset, l', n')| && KeyBlocks(offset, l', n')[j] == b;
      LabelsApart(offset, l, i, l', j);
    }
  }
}
