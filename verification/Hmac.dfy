/** HMAC-SHA1, section 2 of RFC 2104, over the SHA-1 context of the library. */
module HmacSha1 {
  import opened Status
  import opened Bytes
  import opened Sha1Spec
  import opened Sha1Context

  const BLOCK: nat := 64
  const KEY_MAX: nat := 20
  const TAG_MAX: nat := 20

  /** The key, filled up with zeros to a block, with `pad` added to every octet. */
  function KeyXor(key: seq<bv8>, pad: bv8): (r: seq<bv8>)
    requires |key| <= BLOCK
    ensures |r| == BLOCK
  {
    seq(BLOCK, i requires 0 <= i < BLOCK => XorByte(if i < |key| then key[i] else 0, pad))
  }

  /** RFC 2104 over the hash function `h`. */
  function Hmac(h: seq<bv8> -> seq<bv8>, key: seq<bv8>, msg: seq<bv8>): seq<bv8>
    requires |key| <= BLOCK
  {
    h(KeyXor(key, 0x5c) + h(KeyXor(key, 0x36) + msg))
  }

  /** The tag the library computes: HMAC over its own SHA-1. */
  function Tag(key: seq<bv8>, msg: seq<bv8>): (r: seq<bv8>)
    requires |key| <= BLOCK
    ensures |r| == TAG_MAX
  {
    ShortSha1(KeyXor(key, 0x5c) + ShortSha1(KeyXor(key, 0x36) + msg))
  }

  /** For every message whose padded inner input is below 2^29 octets the tag is the HMAC of RFC 2104. */
  lemma TagIsHmac(key: seq<bv8>, msg: seq<bv8>)
    requires |key| <= BLOCK && BLOCK + |msg| < 0x2000_0000
    ensures Tag(key, msg) == Hmac(Sha1, key, msg)
  {
    hide Sha1, ShortSha1, KeyXor;
    ShortSha1IsSha1(KeyXor(key, 0x36) + msg);
    ShortSha1IsSha1(KeyXor(key, 0x5c) + ShortSha1(KeyXor(key, 0x36) + msg));
  }

  /** The two pads are 0x36 and 0x5c under the key, and without it where the key has ended. */
  lemma HmacIs(h: seq<bv8> -> seq<bv8>, key: seq<bv8>, msg: seq<bv8>, inner: seq<bv8>, outer: seq<bv8>)
    requires |key| <= |inner| == |outer| == 64
    requires forall k :: 0 <= k < |key| ==> inner[k] == XorByte(key[k], 0x36) && outer[k] == XorByte(key[k], 0x5c)
    requires forall k :: |key| <= k < 64 ==> inner[k] == 0x36 && outer[k] == 0x5c
    ensures Hmac(h, key, msg) == h(outer + h(inner + msg))
  {
    hide XorByte;
    XorZero(0x36);
    XorZero(0x5c);
    assert inner == KeyXor(key, 0x36) && outer == KeyXor(key, 0x5c);
  }

  /** A key and the same key with zeros behind it are one key. */
  lemma ZerosBehindKey(h: seq<bv8> -> seq<bv8>, key: seq<bv8>, zeros: nat, msg: seq<bv8>)
    requires |key| + zeros <= 64
    ensures Hmac(h, key + seq(zeros, _ => 0), msg) == Hmac(h, key, msg)
  {
    hide XorByte;
    var longer := key + seq(zeros, _ => 0);
    assert KeyXor(longer, 0x36) == KeyXor(key, 0x36) && KeyXor(longer, 0x5c) == KeyXor(key, 0x5c);
  }

  class HmacContext {
    const opad: array<bv8>
    const ctx: Sha1Ctx
    const initCtx: Sha1Ctx
    ghost var key: seq<bv8>
    ghost var input: seq<bv8>   // the message octets since the last start

    /** The objects of the context; they never change. */
    ghost function Footprint(): set<object> {
      {this, opad, ctx, ctx.H, ctx.M, initCtx, initCtx.H, initCtx.M}
    }

    ghost predicate Apart() {
      && opad.Length == BLOCK
      && ctx.Sized() && initCtx.Sized()
      && ctx != initCtx && ctx.H != initCtx.H
      && opad != ctx.M && opad != initCtx.M && ctx.M != initCtx.M
    }

    /** Keyed: a start makes the context ready for a message. */
    ghost predicate Keyed()
      reads Footprint()
    {
      && Apart()
      && |key| <= KEY_MAX
      && opad[..] == KeyXor(key, 0x5c)
      && initCtx.Valid() && initCtx.msg == KeyXor(key, 0x36)
    }

    /** Started: the running hash stands for the inner key block and the input so far. */
    ghost predicate Started()
      reads Footprint()
    {
      Keyed() && ctx.Valid() && ctx.msg == KeyXor(key, 0x36) + input
    }

    constructor ()
      ensures Apart() && fresh(Footprint())
    {
      opad := new bv8[BLOCK];
      ctx := new Sha1Ctx();
      initCtx := new Sha1Ctx();
      key, input := [], [];
    }

    /** hmac_init */
    method Init(k: seq<bv8>) returns (status: Status)
      requires Apart()
      modifies Footprint()
      ensures status == if |k| > KEY_MAX then BadParam else Ok
      ensures status == Ok ==> Started() && key == k && input == []
    {
      hide XorByte, KeyXor, Sha1Ctx.Valid;
      if |k| > KEY_MAX {
        return BadParam;
      }
      var ipad := FillPads(k);
      initCtx.Init();
      initCtx.Update(ipad);
      assert [] + ipad == ipad;
      ctx.CopyFrom(initCtx);
      key, input := k, [];
      assert KeyXor(key, 0x36) + input == KeyXor(key, 0x36);
      status := Ok;
    }

    /** Writes the outer pad and returns the inner one. */
    method FillPads(k: seq<bv8>) returns (inner: seq<bv8>)
      requires opad.Length == BLOCK && |k| <= KEY_MAX
      modifies opad
      ensures inner == KeyXor(k, 0x36) && opad[..] == KeyXor(k, 0x5c)
    {
      hide XorByte;
      var ipad := new bv8[BLOCK];
      var i := 0;
      while i < |k|
        invariant 0 <= i <= |k|
        invariant forall j :: 0 <= j < i ==> ipad[j] == XorByte(k[j], 0x36)
        invariant forall j :: 0 <= j < i ==> opad[j] == XorByte(k[j], 0x5c)
      {
        ipad[i] := XorByte(k[i], 0x36);
        opad[i] := XorByte(k[i], 0x5c);
        i := i + 1;
      }
      XorZero(0x36);
      XorZero(0x5c);
      while i < BLOCK
        invariant |k| <= i <= BLOCK
        invariant forall j :: 0 <= j < i ==> ipad[j] == XorByte(if j < |k| then k[j] else 0, 0x36)
        invariant forall j :: 0 <= j < i ==> opad[j] == XorByte(if j < |k| then k[j] else 0, 0x5c)
      {
        ipad[i] := 0x36;
        opad[i] := 0x5c;
        i := i + 1;
      }
      inner := ipad[..];
    }

    /** hmac_start: works whatever state an earlier computation left behind. */
    method Start()
      requires Keyed()
      modifies this`input, ctx, ctx.H, ctx.M
      ensures Started() && input == [] && key == old(key)
    {
      hide KeyXor, Sha1Ctx.Valid;
      ctx.CopyFrom(initCtx);
      input := [];
      assert KeyXor(key, 0x36) + input == KeyXor(key, 0x36);
    }

    /** hmac_update */
    method Update(data: seq<bv8>)
      requires Started()
      modifies this`input, ctx, ctx.H, ctx.M
      ensures Started() && input == old(input) + data && key == old(key)
    {
      hide KeyXor, Sha1Ctx.Valid;
      ctx.Update(data);
      assert KeyXor(key, 0x36) + input + data == KeyXor(key, 0x36) + (input + data);
      input := input + data;
    }

    /** hmac_compute: the last piece of the message, and the first `tagLen` octets of the tag. */
    method Compute(data: seq<bv8>, tagLen: nat) returns (status: Status, tag: seq<bv8>)
      requires Started()
      modifies this`input, ctx, ctx.H, ctx.M
      ensures Keyed() && key == old(key)
      ensures status == if tagLen > TAG_MAX then BadParam else Ok
      ensures status == Ok ==> tag == Tag(key, old(input) + data)[..tagLen]
    {
      hide ShortSha1, KeyXor, Sha1Ctx.Valid;
      if tagLen > TAG_MAX {
        return BadParam, [];
      }
      Update(data);
      var inner := ctx.Final();
      ctx.Init();
      ctx.Update(opad[..]);
      assert [] + opad[..] == opad[..];
      ctx.Update(inner);
      var outer := ctx.Final();
      status, tag := Ok, outer[..tagLen];
    }
  }
}
