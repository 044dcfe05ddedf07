/**
 Cipher block chaining in place, and the padding variant with an 0xa0 mark.  The block
 cipher is a pair of functions, as in counter mode; Aes.AesInverts supplies such a pair.
 */
module BlockChaining {
  import opened Status
  import opened Bytes
  import Aes
  import AesSpec

  const MARK: bv8 := 0xa0

  ghost predicate Inverts(enc: Block -> Block, dec: Block -> Block) {
    forall b :: dec(enc(b)) == b
  }

  /** The block that is chained into the one behind `cipher`. */
  function Chain(iv: Block, cipher: seq<bv8>): Block {
    if |cipher| < 16 then iv else cipher[|cipher| - 16..]
  }

  /** CBC encryption of whole blocks. */
  function CbcEnc(enc: Block -> Block, iv: Block, data: seq<bv8>): (r: seq<bv8>)
    requires |data| % 16 == 0
    ensures |r| == |data|
  {
    if data == [] then []
    else
      var n := |data| - 16;
      var front := CbcEnc(enc, iv, data[..n]);
      front + enc(Xor(data[n..], Chain(iv, front)))
  }

  function CbcDec(dec: Block -> Block, iv: Block, data: seq<bv8>): (r: seq<bv8>)
    requires |data| % 16 == 0
    ensures |r| == |data|
  {
    if data == [] then []
    else
      var n := |data| - 16;
      CbcDec(dec, iv, data[..n]) + Xor(dec(data[n..]), Chain(iv, data[..n]))
  }

  lemma NoBlocks(f: Block -> Block, iv: Block)
    ensures CbcEnc(f, iv, []) == [] && CbcDec(f, iv, []) == [] && Chain(iv, []) == iv
  {
  }

  /** One more block, encrypted. */
  lemma EncStep(enc: Block -> Block, iv: Block, data: seq<bv8>, b: Block)
    requires |data| % 16 == 0
    ensures |data + b| % 16 == 0
    ensures var front := CbcEnc(enc, iv, data);
            var last := enc(Xor(b, Chain(iv, front)));
            CbcEnc(enc, iv, data + b) == front + last && Chain(iv, front + last) == last
  {
    hide Xor;
    assert (data + b)[..|data|] == data && (data + b)[|data|..] == b;
  }

  /** One more block, decrypted. */
  lemma DecStep(dec: Block -> Block, iv: Block, data: seq<bv8>, b: Block)
    requires |data| % 16 == 0
    ensures |data + b| % 16 == 0
    ensures CbcDec(dec, iv, data + b) == CbcDec(dec, iv, data) + Xor(dec(b), Chain(iv, data))
    ensures Chain(iv, data + b) == b
  {
    hide Xor;
    assert (data + b)[..|data|] == data && (data + b)[|data|..] == b;
  }

  /** Chaining round trip for every number of blocks. */
  lemma {:induction false} CbcRoundTrip(enc: Block -> Block, dec: Block -> Block, iv: Block, data: seq<bv8>)
    requires Inverts(enc, dec) && |data| % 16 == 0
    ensures CbcDec(dec, iv, CbcEnc(enc, iv, data)) == data
    decreases |data|
  {
    hide Xor, Chain, CbcEnc, CbcDec;
    NoBlocks(enc, iv);
    NoBlocks(dec, iv);
    if data != [] {
      var n := |data| - 16;
      var b := data[n..];
      var front := CbcEnc(enc, iv, data[..n]);
      CbcRoundTrip(enc, dec, iv, data[..n]);
      EncStep(enc, iv, data[..n], b);
      assert data == data[..n] + b;
      DecStep(dec, iv, front, enc(Xor(b, Chain(iv, front))));
      XorBlockCancels(b, Chain(iv, front));
    }
  }

  // ---- the chaining mode, block by block ----

  lemma {:induction false} EncPrefix(enc: Block -> Block, iv: Block, data: seq<bv8>, m: nat)
    requires |data| % 16 == 0 && m % 16 == 0 && m <= |data|
    ensures CbcEnc(enc, iv, data)[..m] == CbcEnc(enc, iv, data[..m])
    decreases |data|
  {
    hide Xor, Chain, CbcEnc;
    if m < |data| {
      var n := |data| - 16;
      EncPrefix(enc, iv, data[..n], m);
      assert data[..n][..m] == data[..m] && data == data[..n] + data[n..];
      EncStep(enc, iv, data[..n], data[n..]);
    } else {
      assert data[..m] == data;
    }
  }

  lemma {:induction false} DecPrefix(dec: Block -> Block, iv: Block, data: seq<bv8>, m: nat)
    requires |data| % 16 == 0 && m % 16 == 0 && m <= |data|
    ensures CbcDec(dec, iv, data)[..m] == CbcDec(dec, iv, data[..m])
    decreases |data|
  {
    hide Xor, Chain, CbcDec;
    if m < |data| {
      var n := |data| - 16;
      DecPrefix(dec, iv, data[..n], m);
      assert data[..n][..m] == data[..m] && data == data[..n] + data[n..];
      DecStep(dec, iv, data[..n], data[n..]);
    } else {
      assert data[..m] == data;
    }
  }

  /** The block before octet `at`: the vector at the start, the sixteen octets before later on. */
  lemma ChainIs(iv: Block, s: seq<bv8>, at: nat)
    requires at <= |s| && at % 16 == 0
    ensures at == 0 ==> Chain(iv, s[..at]) == iv
    ensures at > 0 ==> Chain(iv, s[..at]) == s[at - 16..at]
  {
  }

  /** A block of the output is the plain block, with the output block before it added, encrypted. */
  lemma EncBlock(enc: Block -> Block, iv: Block, data: seq<bv8>, at: nat)
    requires |data| % 16 == 0 && at % 16 == 0 && at + 16 <= |data|
    ensures var r := CbcEnc(enc, iv, data);
            && (at == 0 ==> r[at..at + 16] == enc(Xor(data[at..at + 16], iv)))
            && (at > 0 ==> r[at..at + 16] == enc(Xor(data[at..at + 16], r[at - 16..at])))
  {
    hide Xor, Chain, CbcEnc;
    var r, b := CbcEnc(enc, iv, data), data[at..at + 16];
    EncPrefix(enc, iv, data, at);
    EncPrefix(enc, iv, data, at + 16);
    assert data[..at + 16] == data[..at] + b;
    EncStep(enc, iv, data[..at], b);
    ChainIs(iv, r, at);
    assert r[at..at + 16] == r[..at + 16][at..];
  }

  /** And back: the block decrypted, with the encrypted block before it added. */
  lemma DecBlock(dec: Block -> Block, iv: Block, data: seq<bv8>, at: nat)
    requires |data| % 16 == 0 && at % 16 == 0 && at + 16 <= |data|
    ensures var r := CbcDec(dec, iv, data);
            && (at == 0 ==> r[at..at + 16] == Xor(dec(data[at..at + 16]), iv))
            && (at > 0 ==> r[at..at + 16] == Xor(dec(data[at..at + 16]), data[at - 16..at]))
  {
    hide Xor, Chain, CbcDec;
    var r, b := CbcDec(dec, iv, data), data[at..at + 16];
    DecPrefix(dec, iv, data, at);
    DecPrefix(dec, iv, data, at + 16);
    assert data[..at + 16] == data[..at] + b;
    DecStep(dec, iv, data[..at], b);
    ChainIs(iv, data, at);
    assert r[at..at + 16] == r[..at + 16][at..];
  }

  /** `now` is `before` with its first `done` octets replaced by `front`. */
  ghost predicate Progress(front: seq<bv8>, before: seq<bv8>, now: seq<bv8>, done: nat) {
    |front| == done <= |before| && now == front + before[done..]
  }

  lemma ProgressBlock(front: seq<bv8>, before: seq<bv8>, now: seq<bv8>, next: seq<bv8>, done: nat, b: Block)
    requires Progress(front, before, now, done) && done + 16 <= |before|
    requires next == now[..done] + b + now[done + 16..]
    ensures Progress(front + b, before, next, done + 16)
    ensures now[done..done + 16] == before[done..done + 16]
    ensures before[..done] + before[done..done + 16] == before[..done + 16]
  {
    assert now[..done] == front;
    assert now[done + 16..] == before[done + 16..];
  }

  // ---- padding ----

  function PadLength(n: nat): (k: nat)
    ensures 1 <= k <= 16 && (n + k) % 16 == 0
  {
    16 - n % 16
  }

  function Padded(m: seq<bv8>): (r: seq<bv8>)
    ensures |r| % 16 == 0 && |r| == |m| + PadLength(|m|)
  {
    m + [MARK] + seq(PadLength(|m|) - 1, _ => 0)
  }

  /** One octet 0xa0, then zeros to the end of the block. */
  lemma PaddedOctets(m: seq<bv8>, k: nat)
    requires k < |Padded(m)|
    ensures Padded(m)[k] == if k < |m| then m[k] else if k == |m| then 0xa0 else 0
    ensures |m| < |Padded(m)| <= |m| + 16
  {
  }

  /** The octets before the last mark. */
  function Unpadded(s: seq<bv8>): seq<bv8>
    requires MARK in s
  {
    if s[|s| - 1] == MARK then s[..|s| - 1] else Unpadded(s[..|s| - 1])
  }

  lemma {:induction false} UnpadZeros(m: seq<bv8>, zeros: nat)
    ensures MARK in m + [MARK] + seq(zeros, _ => 0)
    ensures Unpadded(m + [MARK] + seq(zeros, _ => 0)) == m
  {
    var s := m + [MARK] + seq(zeros, _ => 0);
    assert s[|m|] == MARK;
    if zeros > 0 {
      UnpadZeros(m, zeros - 1);
      assert s[..|s| - 1] == m + [MARK] + seq(zeros - 1, _ => 0);
    } else {
      assert s[..|s| - 1] == m;
    }
  }

  /** Encrypting a padded message and decrypting it restores the message, whatever its length. */
  lemma PaddedRoundTrip(enc: Block -> Block, dec: Block -> Block, iv: Block, m: seq<bv8>)
    requires Inverts(enc, dec)
    ensures var plain := CbcDec(dec, iv, CbcEnc(enc, iv, Padded(m)));
            MARK in plain && Unpadded(plain) == m
  {
    CbcRoundTrip(enc, dec, iv, Padded(m));
    UnpadZeros(m, PadLength(|m|) - 1);
  }

  /** In particular with AES, for every 128- or 256-bit key. */
  lemma AesPaddedRoundTrip(sb: AesSpec.SBox, key: seq<bv8>, iv: Block, m: seq<bv8>)
    requires AesSpec.Mutual(sb) && (|key| == 16 || |key| == 32)
    ensures var enc, dec := Aes.CipherOf(sb, key), Aes.InverseOf(sb, key);
            var plain := CbcDec(dec, iv, CbcEnc(enc, iv, Padded(m)));
            MARK in plain && Unpadded(plain) == m
  {
    hide CbcEnc, CbcDec, Padded, AesSpec.Mutual, Aes.CipherOf, Aes.InverseOf;
    forall x: Block
      ensures Aes.InverseOf(sb, key)(Aes.CipherOf(sb, key)(x)) == x
    {
      Aes.AesInverts(sb, key, x);
    }
    PaddedRoundTrip(Aes.CipherOf(sb, key), Aes.InverseOf(sb, key), iv, m);
  }

  class AesCbc {
    const enc: Block -> Block
    const dec: Block -> Block
    var state: Block
    var previous: Block

    constructor (enc: Block -> Block, dec: Block -> Block)
      ensures this.enc == enc && this.dec == dec
    {
      this.enc, this.dec := enc, dec;
      state, previous := ZERO_BLOCK, ZERO_BLOCK;
    }

    method SetIv(iv: Block)
      modifies this
      ensures state == iv && previous == iv
    {
      previous, state := iv, iv;
    }

    method StoreBlock(data: array<bv8>, at: nat, b: Block)
      requires at + 16 <= data.Length
      modifies data
      ensures data[..] == old(data[..at]) + b + old(data[at + 16..])
    {
      for i := 0 to 16
        invariant forall k :: 0 <= k < data.Length ==>
                    data[k] == if at <= k < at + i then b[k - at] else old(data[k])
      {
        data[at + i] := b[i];
      }
    }

    /** One block of the encryption loop. */
    method EncryptAt(data: array<bv8>, at: nat)
      requires at + 16 <= data.Length
      modifies this`state, data
      ensures state == enc(Xor(old(data[at..at + 16]), old(state)))
      ensures data[..] == old(data[..at]) + state + old(data[at + 16..])
    {
      hide Xor;
      state := Xor(data[at..at + 16], state);
      state := enc(state);
      StoreBlock(data, at, state);
    }

    /** aes_cbc_encrypt on the first `n` octets; chaining goes on from the state the object is in. */
    method Encrypt(data: array<bv8>, n: nat) returns (status: Status)
      requires n <= data.Length
      modifies this`state, data
      ensures status == if n % 16 == 0 then Ok else BadParam
      ensures status == Ok ==> data[..] == CbcEnc(enc, old(state), old(data[..n])) + old(data[n..])
      ensures status == Ok ==> state == Chain(old(state), data[..n])
      ensures status != Ok ==> data[..] == old(data[..]) && state == old(state)
    {
      hide Xor, CbcEnc, Chain, Progress;
      if n % 16 != 0 {
        return BadParam;
      }
      ghost var iv, before := state, data[..];
      var done := 0;
      NoBlocks(enc, iv);
      assert Progress([], before, before, 0) by { Started(before); }
      while done < n
        invariant 0 <= done <= n && done % 16 == 0
        invariant Progress(CbcEnc(enc, iv, before[..done]), before, data[..], done)
        invariant state == Chain(iv, CbcEnc(enc, iv, before[..done]))
      {
        ghost var now, front := data[..], CbcEnc(enc, iv, before[..done]);
        EncryptAt(data, done);
        ProgressBlock(front, before, now, data[..], done, state);
        assert now[done..done + 16] == before[done..done + 16];
        EncStep(enc, iv, before[..done], before[done..done + 16]);
        done := done + 16;
      }
      Finished(CbcEnc(enc, iv, before[..n]), before, data[..], n);
      status := Ok;
    }

    static lemma Started(before: seq<bv8>)
      ensures Progress([], before, before, 0)
    {
    }

    static lemma Finished(front: seq<bv8>, before: seq<bv8>, now: seq<bv8>, n: nat)
      requires Progress(front, before, now, n)
      ensures now == front + before[n..] && now[..n] == front
    {
    }

    /** aes_cbc_decrypt: starts from `previous`, which it does not change. */
    method Decrypt(data: array<bv8>, n: nat) returns (status: Status)
      requires n <= data.Length
      modifies data
      ensures status == if n % 16 == 0 then Ok else BadParam
      ensures status == Ok ==> data[..] == CbcDec(dec, previous, old(data[..n])) + old(data[n..])
      ensures status == Ok ==> data[..n] == CbcDec(dec, previous, old(data[..n]))
      ensures status != Ok ==> data[..] == old(data[..])
    {
      hide Xor, CbcDec, Chain, Progress;
      if n % 16 != 0 {
        return BadParam;
      }
      ghost var before := data[..];
      var prev := previous;
      var done := 0;
      NoBlocks(dec, prev);
      assert Progress([], before, before, 0) by { Started(before); }
      while done < n
        invariant 0 <= done <= n && done % 16 == 0
        invariant Progress(CbcDec(dec, previous, before[..done]), before, data[..], done)
        invariant prev == Chain(previous, before[..done])
      {
        ghost var now, front := data[..], CbcDec(dec, previous, before[..done]);
        var b := data[done..done + 16];
        var plain := Xor(dec(b), prev);
        StoreBlock(data, done, plain);
        prev := b;
        ProgressBlock(front, before, now, data[..], done, plain);
        assert b == before[done..done + 16];
        DecStep(dec, previous, before[..done], b);
        done := done + 16;
      }
      Finished(CbcDec(dec, previous, before[..n]), before, data[..], n);
      status := Ok;
    }

    /** aes_cbc_nist_encrypt: the padding loop writes one octet more than the padding has. */
    method NistEncrypt(data: array<bv8>, n: nat) returns (status: Status, n': nat)
      requires n + PadLength(n) < data.Length
      modifies this`state, data
      ensures status == Ok && n' == n + PadLength(n)
      ensures data[..n'] == CbcEnc(enc, old(state), Padded(old(data[..n])))
      ensures data[n'] == 0 && data[n' + 1..] == old(data[n' + 1..])
    {
      hide CbcEnc, Chain;
      var pad := PadLength(n);
      data[n] := MARK;
      for i := 0 to pad
        invariant data[..n] == old(data[..n]) && data[n] == MARK
        invariant forall k :: n < k <= n + i ==> data[k] == 0
        invariant data[n + pad + 1..] == old(data[n + pad + 1..]) && state == old(state)
      {
        data[n + 1 + i] := 0;
      }
      n' := n + pad;
      assert data[..n'] == Padded(old(data[..n]));
      ghost var padded := data[..];
      status := Encrypt(data, n');
      assert data[n'..] == padded[n'..];
      assert data[n'] == data[n'..][0] && data[n' + 1..] == data[n'..][1..];
      assert padded[n' + 1..] == padded[n'..][1..];
    }

    /** aes_cbc_nist_decrypt: searches backwards for the mark, which has to be there. */
    method NistDecrypt(data: array<bv8>, n: nat) returns (status: Status, n': nat)
      requires n <= data.Length
      requires n % 16 == 0 ==> MARK in CbcDec(dec, previous, data[..n])
      modifies data
      ensures status == if n % 16 == 0 then Ok else BadParam
      ensures status == Ok ==> n' <= n && data[..n'] == Unpadded(CbcDec(dec, previous, old(data[..n])))
      ensures status != Ok ==> n' == n && data[..] == old(data[..])
    {
      hide CbcDec, Unpadded;
      ghost var plain := if n % 16 == 0 then CbcDec(dec, previous, data[..n]) else [];
      status := Decrypt(data, n);
      if status != Ok {
        return status, n;
      }
      n' := FindMark(data, n);
    }

    /** The search for the last mark. */
    method FindMark(data: array<bv8>, n: nat) returns (n': nat)
      requires n <= data.Length && MARK in data[..n]
      ensures n' <= n && data[..n'] == Unpadded(data[..n])
    {
      ghost var plain := data[..n];
      var pads := 1;
      assert plain[..n] == plain;
      while data[n - pads] != MARK
        invariant 1 <= pads <= n
        invariant MARK in plain[..n - pads + 1]
        invariant Unpadded(plain[..n - pads + 1]) == Unpadded(plain)
        decreases n - pads
      {
        assert plain[n - pads] != MARK;
        assert plain[..n - pads + 1][..n - pads] == plain[..n - pads];
        pads := pads + 1;
      }
      n' := n - pads;
      assert plain[..n' + 1][..n'] == plain[..n'] == data[..n'];
    }

    /** Padding, encryption, decryption and the search for the mark, one after the other on one buffer. */
    method NistRoundTrip(data: array<bv8>, n: nat, iv: Block) returns (n': nat)
      requires Inverts(enc, dec) && n + PadLength(n) < data.Length
      modifies this, data
      ensures n' == n && data[..n] == old(data[..n])
    {
      hide CbcEnc, CbcDec, Inverts;
      SetIv(iv);
      var status;
      status, n' := NistEncrypt(data, n);
      PaddedRoundTrip(enc, dec, iv, old(data[..n]));
      status, n' := NistDecrypt(data, n');
      assert |data[..n']| == |old(data[..n])|;
    }
  }
}
