/** The SHA-1 context of the library: chaining words, a partly filled block, and a bit count. */
module Sha1Context {
  import opened Bytes
  import opened Sha1Spec


  /** The bit count of `n` octets, as far as 32 bits hold it. */
  function CountOf(n: nat): nat {
    8 * n % UINT32
  }

  // ---- how the finaliser builds the padded words ----

  /** The length of the part of a message that fills whole blocks. */
  function Whole(n: nat): (w: nat)
    ensures w <= n && w % 64 == 0 && n - w == n % 64
  {
    n - n % 64
  }

  /** Keep three, two or one octets of a word and put the one bit behind them. */
  function Mark3(w: bv32): bv32 { (w & 0xffff_ff00) | 0x80 }
  function Mark2(w: bv32): bv32 { (w & 0xffff_0000) | 0x8000 }
  function Mark1(w: bv32): bv32 { (w & 0xff00_0000) | 0x80_0000 }

  /** The word that holds the last octets of the message, the one bit, and zeros. */
  function MarkedWord(m: seq<bv8>, used: nat): bv32
    requires |m| == 64 && used < 64
  {
    var word := WordAt(m, used / 4);
    match used % 4
    case 3 => Mark3(word)
    case 2 => Mark2(word)
    case 1 => Mark1(word)
    case _ => 0x8000_0000
  }

  lemma MaskThree(b0: bv8, b1: bv8, b2: bv8, b3: bv8)
    ensures Mark3(BigEndian(b0, b1, b2, b3)) == BigEndian(b0, b1, b2, 0x80)
  {
  }

  lemma MaskTwo(b0: bv8, b1: bv8, b2: bv8, b3: bv8)
    ensures Mark2(BigEndian(b0, b1, b2, b3)) == BigEndian(b0, b1, 0x80, 0)
  {
  }

  lemma MaskOne(b0: bv8, b1: bv8, b2: bv8, b3: bv8)
    ensures Mark1(BigEndian(b0, b1, b2, b3)) == BigEndian(b0, 0x80, 0, 0)
  {
  }

  lemma ConstantWords()
    ensures BigEndian(0x80, 0, 0, 0) == 0x8000_0000
    ensures BigEndian(0, 0, 0, 0) == 0
  {
  }

  /** Word `j` of the first block the finaliser compresses, before the count is filled in. */
  function TailWord(m: seq<bv8>, used: nat, j: nat): bv32
    requires |m| == 64 && used < 64 && j < 16
  {
    if 4 * j + 4 <= used then WordAt(m, j)
    else if 4 * j <= used then MarkedWord(m, used)
    else 0
  }

  lemma PaddingLength(n: nat)
    ensures |ShortPadding(n)| == (if n % 64 < 56 then 64 else 128) - n % 64
  {
    hide CountOctets;
    assert |PadFront(n)| == 1 + (55 - n % 64) % 64;
  }

  /** The octets left over from the whole blocks, followed by the padding: one block or two. */
  function PaddedTail(tail: seq<bv8>, n: nat): (p: seq<bv8>)
    requires |tail| == n % 64
    ensures |p| == if |tail| < 56 then 64 else 128
  {
    PaddingLength(n);
    tail + ShortPadding(n)
  }

  lemma PaddedTailOctets(tail: seq<bv8>, n: nat, k: nat)
    requires |tail| == n % 64 && k < |PaddedTail(tail, n)|
    ensures var p := PaddedTail(tail, n);
            p[k] == if k < |tail| then tail[k] else if k == |tail| then 0x80
                    else if k < |p| - 4 then 0 else CountOctets(8 * n % UINT32)[k - (|p| - 4)]
  {
    hide CountOctets;
    var p := PaddedTail(tail, n);
    var i := k - |tail|;
    if i > 0 {
      assert |PadFront(n)| == |p| - 8 - |tail|;
    }
  }

  lemma MarkedWordOctets(m: seq<bv8>, used: nat)
    requires |m| == 64 && used < 64
    ensures var i := used / 4 * 4;
            MarkedWord(m, used) == BigEndian(
              if used > i then m[i] else 0x80,
              if used > i + 1 then m[i + 1] else if used == i + 1 then 0x80 else 0,
              if used > i + 2 then m[i + 2] else if used == i + 2 then 0x80 else 0,
              if used == i + 3 then 0x80 else 0)
  {
    hide BigEndian, Mark1, Mark2, Mark3;
    var i := used / 4 * 4;
    MaskThree(m[i], m[i + 1], m[i + 2], m[i + 3]);
    MaskTwo(m[i], m[i + 1], m[i + 2], m[i + 3]);
    MaskOne(m[i], m[i + 1], m[i + 2], m[i + 3]);
    ConstantWords();
  }

  lemma TailWordIsPadded(m: seq<bv8>, n: nat, j: nat)
    requires |m| == 64 && j < 16 && (n % 64 < 56 ==> j < 15)
    ensures TailWord(m, n % 64, j) == WordAt(PaddedTail(m[..n % 64], n), j)
  {
    hide CountOctets, BigEndian, PaddedTail, MarkedWord;
    var p := PaddedTail(m[..n % 64], n);
    PaddedTailOctets(m[..n % 64], n, 4 * j);
    PaddedTailOctets(m[..n % 64], n, 4 * j + 1);
    PaddedTailOctets(m[..n % 64], n, 4 * j + 2);
    PaddedTailOctets(m[..n % 64], n, 4 * j + 3);
    ConstantWords();
    if j == n % 64 / 4 {
      MarkedWordOctets(m, n % 64);
    }
  }

  lemma CountWordIsPadded(tail: seq<bv8>, n: nat)
    requires |tail| == n % 64
    ensures var p := PaddedTail(tail, n);
            WordAt(p, |p| / 4 - 1) == CountWord(CountOf(n))
  {
    hide CountOctets, BigEndian, PaddedTail;
    var p := PaddedTail(tail, n);
    PaddedTailOctets(tail, n, |p| - 4);
    PaddedTailOctets(tail, n, |p| - 3);
    PaddedTailOctets(tail, n, |p| - 2);
    PaddedTailOctets(tail, n, |p| - 1);
  }

  lemma SecondBlockIsZeros(tail: seq<bv8>, n: nat, j: nat)
    requires |tail| == n % 64 && n % 64 >= 56 && 16 <= j < 31
    ensures WordAt(PaddedTail(tail, n), j) == 0
  {
    hide CountOctets, BigEndian, PaddedTail;
    PaddedTailOctets(tail, n, 4 * j);
    PaddedTailOctets(tail, n, 4 * j + 1);
    PaddedTailOctets(tail, n, 4 * j + 2);
    PaddedTailOctets(tail, n, 4 * j + 3);
    ConstantWords();
  }

  /** The digest is what one or two more compressions of the padded tail yield. */
  lemma DigestFromTail(msg: seq<bv8>, h: Hash)
    requires h == Absorb(IV, msg[..Whole(|msg|)])
    ensures var p := PaddedTail(msg[Whole(|msg|)..], |msg|);
            var h1 := Compress(h, WordsOf(p[..64]));
            ShortSha1(msg) == DigestOf(if |p| == 64 then h1 else Compress(h1, WordsOf(p[64..])))
  {
    hide Compress, WordsOf, ShortPadding, DigestOf;
    var whole := msg[..Whole(|msg|)];
    var p := PaddedTail(msg[Whole(|msg|)..], |msg|);
    assert msg + ShortPadding(|msg|) == whole + p;
    AbsorbBlock(IV, whole, p[..64]);
    if |p| == 128 {
      AbsorbBlock(IV, whole + p[..64], p[64..]);
      assert whole + p == whole + p[..64] + p[64..];
    } else {
      assert p[..64] == p;
    }
  }

  // ---- the context ----

  class Sha1Ctx {
    const H: array<bv32>
    const M: array<bv8>
    var octetsInBuffer: nat
    var numBits: nat
    ghost var msg: seq<bv8>   // the message hashed so far

    /** The record; sha1_init makes it usable. */
    constructor ()
      ensures fresh(H) && fresh(M) && Sized()
    {
      H := new bv32[5];
      M := new bv8[64];
      octetsInBuffer := 0;
      numBits := 0;
      msg := [];
    }

    ghost predicate Sized() {
      H.Length == 5 && M.Length == 64
    }

    ghost function Chaining(): Hash
      requires Sized()
      reads H
    {
      Hash(H[0], H[1], H[2], H[3], H[4])
    }

    /** Chaining words and buffer stand for the message `m`. */
    ghost predicate Holds(m: seq<bv8>)
      reads this, H, M
    {
      && Sized()
      && octetsInBuffer == |m| % 64
      && Chaining() == Absorb(IV, m[..Whole(|m|)])
      && M[..octetsInBuffer] == m[Whole(|m|)..]
    }

    ghost predicate Valid()
      reads this, H, M
    {
      Holds(msg) && numBits == CountOf(|msg|)
    }

    method Init()
      requires Sized()
      modifies this, H
      ensures Valid() && msg == []
    {
      H[0], H[1], H[2], H[3], H[4] := 0x6745_2301, 0xefcd_ab89, 0x98ba_dcfe, 0x1032_5476, 0xc3d2_e1f0;
      octetsInBuffer := 0;
      numBits := 0;
      msg := [];
    }

    /** The copy of a context that memcpy makes. */
    method CopyFrom(other: Sha1Ctx)
      requires Sized() && other.Valid() && other.H != H && other.M != M
      modifies this, H, M
      ensures Valid() && msg == other.msg
    {
      hide Absorb;
      forall i | 0 <= i < 5 { H[i] := other.H[i]; }
      forall i | 0 <= i < 64 { M[i] := other.M[i]; }
      octetsInBuffer := other.octetsInBuffer;
      numBits := other.numBits;
      msg := other.msg;
      assert M[..] == other.M[..];
      assert M[..octetsInBuffer] == M[..][..octetsInBuffer];
    }

    /** Fills words 16 to 79 of the schedule. */
    static method Expand(w: array<bv32>)
      requires w.Length == 80
      modifies w
      ensures w[..] == Schedule(old(w[..16]), 80)
    {
      hide S1;
      ghost var words := w[..16];
      assert w[..16] == Schedule(words, 16);
      for t := 16 to 80
        invariant w[..t] == Schedule(words, t)
      {
        w[t] := S1(Xor4(w[t - 3], w[t - 8], w[t - 14], w[t - 16]));
        ghost var before := Schedule(words, t);
        assert w[..t] == before;
        assert w[t] == Expanded(before, t);
        assert w[..t + 1] == before + [w[t]];
      }
      assert w[..80] == w[..];
    }

    /** The four loops over the working variables. */
    static method RunRounds(w: array<bv32>, h: Hash) returns (r: Hash)
      requires w.Length == 80
      ensures r == Rounds(w[..], h, 80)
    {
      hide S5, S30, Choose, Parity, Majority, Sum5, Rounds, Round, F, K;
      var a, b, c, d, e := h.a, h.b, h.c, h.d, h.e;
      NoRounds(w[..], h);
      for t := 0 to 20
        invariant Hash(a, b, c, d, e) == Rounds(w[..], h, t)
      {
        NextRound(w[..], h, t, Hash(a, b, c, d, e));
        var temp := Sum5(S5(a), Choose(b, c, d), e, w[t], 0x5a82_7999);
        e, d, c, b, a := d, c, S30(b), a, temp;
      }
      for t := 20 to 40
        invariant Hash(a, b, c, d, e) == Rounds(w[..], h, t)
      {
        NextRound(w[..], h, t, Hash(a, b, c, d, e));
        var temp := Sum5(S5(a), Parity(b, c, d), e, w[t], 0x6ed9_eba1);
        e, d, c, b, a := d, c, S30(b), a, temp;
      }
      for t := 40 to 60
        invariant Hash(a, b, c, d, e) == Rounds(w[..], h, t)
      {
        NextRound(w[..], h, t, Hash(a, b, c, d, e));
        var temp := Sum5(S5(a), Majority(b, c, d), e, w[t], 0x8f1b_bcdc);
        e, d, c, b, a := d, c, S30(b), a, temp;
      }
      for t := 60 to 80
        invariant Hash(a, b, c, d, e) == Rounds(w[..], h, t)
      {
        NextRound(w[..], h, t, Hash(a, b, c, d, e));
        var temp := Sum5(S5(a), Parity(b, c, d), e, w[t], 0xca62_c1d6);
        e, d, c, b, a := d, c, S30(b), a, temp;
      }
      r := Hash(a, b, c, d, e);
    }

    static lemma NoRounds(ws: seq<bv32>, h: Hash)
      ensures Rounds(ws, h, 0) == h
    {
    }

    static lemma NextRound(ws: seq<bv32>, h: Hash, t: nat, r: Hash)
      requires t < |ws| && r == Rounds(ws, h, t)
      ensures Rounds(ws, h, t + 1) == Hash(Sum5(S5(r.a), F(t, r.b, r.c, r.d), r.e, ws[t], K(t)), r.a, S30(r.b), r.c, r.d)
      ensures F(t, r.b, r.c, r.d) == if t < 20 then Choose(r.b, r.c, r.d) else if t < 40 then Parity(r.b, r.c, r.d)
                                     else if t < 60 then Majority(r.b, r.c, r.d) else Parity(r.b, r.c, r.d)
      ensures K(t) == if t < 20 then 0x5a82_7999 else if t < 40 then 0x6ed9_eba1
                      else if t < 60 then 0x8f1b_bcdc else 0xca62_c1d6
    {
      hide S5, S30, Choose, Parity, Majority, Sum5;
    }

    /** Adds the working variables into the chaining words. */
    method AddInto(r: Hash)
      requires Sized()
      modifies H
      ensures Chaining() == AddWords(old(Chaining()), r)
    {
      hide Add;
      H[0], H[1], H[2], H[3], H[4] := Add(H[0], r.a), Add(H[1], r.b), Add(H[2], r.c), Add(H[3], r.d), Add(H[4], r.e);
    }

    /** Expansion and rounds: one compression of the words already in `w[..16]`. */
    method CompressWords(w: array<bv32>)
      requires Sized() && w.Length == 80 && w != H
      modifies H, w
      ensures Chaining() == Compress(old(Chaining()), old(w[..16]))
    {
      hide Rounds, Schedule, AddWords;
      Expand(w);
      var r := RunRounds(w, Hash(H[0], H[1], H[2], H[3], H[4]));
      AddInto(r);
    }

    /** sha1_core on the message buffer. */
    method Core()
      requires Sized()
      modifies H
      ensures Chaining() == Compress(old(Chaining()), WordsOf(M[..]))
    {
      hide BigEndian, Compress;
      var w := new bv32[80];
      for i := 0 to 16
        invariant forall j :: 0 <= j < i ==> w[j] == WordAt(M[..], j)
        invariant Chaining() == old(Chaining())
      {
        w[i] := BigEndian(M[4 * i], M[4 * i + 1], M[4 * i + 2], M[4 * i + 3]);
      }
      assert w[..16] == WordsOf(M[..]);
      CompressWords(w);
    }

    /** sha1_update */
    method Update(data: seq<bv8>)
      requires Valid()
      modifies this, H, M
      ensures Valid() && msg == old(msg) + data
    {
      hide Absorb, Compress, WordsOf, CountOf;
      AddCount(|data|);
      var done := 0;
      ghost var before := msg;
      assert before + data[..0] == before;
      while done < |data|
        invariant done <= |data|
        invariant Holds(before + data[..done])
        invariant msg == before && numBits == CountOf(|before| + |data|)
      {
        if |data| - done + octetsInBuffer >= 64 {
          var room := 64 - octetsInBuffer;
          TakeBlock(data, done, before + data[..done]);
          Extended(before, data, done, done + room);
          done := done + room;
        } else {
          TakeRest(data, done, before + data[..done]);
          Extended(before, data, done, |data|);
          assert data[done..] == data[done..|data|];
          done := |data|;
        }
      }
      assert data[..done] == data;
      msg := msg + data;
    }

    static lemma Extended(before: seq<bv8>, data: seq<bv8>, a: nat, b: nat)
      requires a <= b <= |data|
      ensures before + data[..a] + data[a..b] == before + data[..b]
    {
    }

    /** Fills the buffer and processes the whole block. */
    method TakeBlock(data: seq<bv8>, from: nat, ghost m: seq<bv8>)
      requires Holds(m) && |data| - from >= 64 - octetsInBuffer
      modifies this`octetsInBuffer, H, M
      ensures Holds(m + data[from..from + 64 - old(octetsInBuffer)])
    {
      hide Absorb, Compress, WordsOf;
      var room := 64 - octetsInBuffer;
      FillBuffer(data, from, room);
      assert M[..] == M[..64];
      octetsInBuffer := 0;
      BlockFilled(m, data[from..from + room], M[..]);
      Core();
    }

    /** Keeps octets that do not fill the buffer. */
    method TakeRest(data: seq<bv8>, from: nat, ghost m: seq<bv8>)
      requires Holds(m) && from <= |data| && |data| - from < 64 - octetsInBuffer
      modifies this`octetsInBuffer, M
      ensures Holds(m + data[from..])
    {
      hide Absorb, Compress, WordsOf;
      PartFilled(m, data[from..]);
      FillBuffer(data, from, |data| - from);
      octetsInBuffer := octetsInBuffer + (|data| - from);
      assert data[from..from + (|data| - from)] == data[from..];
    }

    /** Copies `n` octets of `data` from `from` on behind the octets in the buffer. */
    method FillBuffer(data: seq<bv8>, from: nat, n: nat)
      requires Sized() && octetsInBuffer + n <= 64 && from + n <= |data|
      modifies M
      ensures M[..octetsInBuffer + n] == old(M[..octetsInBuffer]) + data[from..from + n]
    {
      for i := octetsInBuffer to octetsInBuffer + n
        invariant forall k :: 0 <= k < octetsInBuffer ==> M[k] == old(M[k])
        invariant forall k :: octetsInBuffer <= k < i ==> M[k] == data[from + k - octetsInBuffer]
      {
        M[i] := data[from + i - octetsInBuffer];
      }
    }

    static lemma CountSum(a: nat, b: nat)
      ensures (CountOf(a) + 8 * b) % UINT32 == CountOf(a + b)
    {
      var q := 8 * a / UINT32;
      assert 8 * (a + b) == q * UINT32 + (8 * a % UINT32 + 8 * b);
    }

    /** Adds `n` octets to the bit count. */
    method AddCount(n: nat)
      requires Valid()
      modifies this`numBits
      ensures numBits == CountOf(|msg| + n)
    {
      hide Absorb, CountOf;
      CountSum(|msg|, n);
      numBits := (numBits + 8 * n) % UINT32;
    }

    /** A full buffer is the next block of the message. */
    static lemma BlockFilled(m: seq<bv8>, more: seq<bv8>, block: seq<bv8>)
      requires |m| % 64 + |more| == 64 && block == m[Whole(|m|)..] + more
      ensures |m + more| % 64 == 0
      ensures Absorb(IV, (m + more)[..Whole(|m + more|)]) == Compress(Absorb(IV, m[..Whole(|m|)]), WordsOf(block))
      ensures (m + more)[Whole(|m + more|)..] == []
    {
      hide Compress, WordsOf;
      assert m + more == m[..Whole(|m|)] + block;
      assert |m + more| == Whole(|m|) + 64;
      assert (m + more)[..Whole(|m + more|)] == m + more;
      AbsorbBlock(IV, m[..Whole(|m|)], block);
    }

    /** Octets that do not fill the buffer leave the whole blocks as they are. */
    static lemma PartFilled(m: seq<bv8>, more: seq<bv8>)
      requires |m| % 64 + |more| < 64
      ensures |m + more| % 64 == |m| % 64 + |more|
      ensures (m + more)[..Whole(|m + more|)] == m[..Whole(|m|)]
      ensures (m + more)[Whole(|m + more|)..] == m[Whole(|m|)..] + more
    {
      assert |m + more| == Whole(|m|) + (|m| % 64 + |more|);
    }

    /** sha1_final: afterwards the context needs Init before it can be used again. */
    method Final() returns (digest: seq<bv8>)
      requires Valid()
      modifies this, H
      ensures Sized() && digest == ShortSha1(old(msg))
    {
      hide Absorb, Compress, WordsOf, DigestOf, PaddedTail, OctetsOf, TailWord;
      ghost var n := |msg|;
      ghost var p := PaddedTail(msg[Whole(n)..], n);
      DigestFromTail(msg, Chaining());
      var w := new bv32[80];
      PadTail(w);
      CompressWords(w);
      if octetsInBuffer >= 56 {
        PadCount(w);
        CompressWords(w);
      }
      digest := OctetsOf(H[0]) + OctetsOf(H[1]) + OctetsOf(H[2]) + OctetsOf(H[3]) + OctetsOf(H[4]);
      DigestIs(Chaining(), digest);
      octetsInBuffer := 0;
    }

    static lemma DigestIs(h: Hash, digest: seq<bv8>)
      requires digest == OctetsOf(h.a) + OctetsOf(h.b) + OctetsOf(h.c) + OctetsOf(h.d) + OctetsOf(h.e)
      ensures digest == DigestOf(h)
    {
      hide OctetsOf;
    }

    /** The words of the unfinished block: message, one bit, zeros, and the count if there is room for it. */
    method PadTail(w: array<bv32>)
      requires Valid() && w.Length == 80 && w != H
      modifies w
      ensures w[..16] == WordsOf(PaddedTail(msg[Whole(|msg|)..], |msg|)[..64])
    {
      hide Absorb, CountOf, CountOctets, BigEndian, PaddedTail, TailWord, Mark1, Mark2, Mark3;
      ghost var n := |msg|;
      ghost var m := M[..];
      var used := octetsInBuffer;
      var i := 0;
      while i < (used + 3) / 4
        invariant 0 <= i <= (used + 3) / 4
        invariant forall j :: 0 <= j < i ==> w[j] == WordAt(m, j)
      {
        w[i] := BigEndian(M[4 * i], M[4 * i + 1], M[4 * i + 2], M[4 * i + 3]);
        i := i + 1;
      }
      i := MarkEnd(w, i);
      TailWordCases(m, used);
      while i < 15
        invariant used / 4 < i <= 17
        invariant forall j :: 0 <= j < 16 && j < i ==> w[j] == TailWord(m, used, j)
      {
        w[i] := 0;
        i := i + 1;
      }
      if used < 56 {
        w[15] := CountWord(numBits);
      } else if used < 60 {
        w[15] := 0;
      }
      PaddedWords(m, n, w[..16]);
    }

    /** Sets the high bit of the octet behind the message; returns the index of the next word. */
    method MarkEnd(w: array<bv32>, i: nat) returns (next: nat)
      requires Sized() && octetsInBuffer < 64 && w.Length == 80 && i == (octetsInBuffer + 3) / 4
      requires forall j :: 0 <= j < i ==> w[j] == WordAt(M[..], j)
      modifies w
      ensures octetsInBuffer / 4 < next <= 17
      ensures forall j :: 0 <= j < 16 && j < next ==> w[j] == TailWord(M[..], octetsInBuffer, j)
      ensures octetsInBuffer < 60 ==> next <= 16
    {
      hide BigEndian, TailWord, Mark1, Mark2, Mark3;
      TailWordCases(M[..], octetsInBuffer);
      if octetsInBuffer % 4 == 0 {
        w[i] := 0x8000_0000;
      } else {
        assert i - 1 == octetsInBuffer / 4;
        var word := BigEndian(M[4 * (i - 1)], M[4 * (i - 1) + 1], M[4 * (i - 1) + 2], M[4 * (i - 1) + 3]);
        match octetsInBuffer % 4 {
          case 3 => w[i - 1] := Mark3(word);
          case 2 => w[i - 1] := Mark2(word);
          case _ => w[i - 1] := Mark1(word);
        }
        w[i] := 0;
      }
      next := i + 1;
    }

    static lemma PaddedWords(m: seq<bv8>, n: nat, words: seq<bv32>)
      requires |m| == 64 && |words| == 16
      requires forall j :: 0 <= j < 16 && (j < 15 || n % 64 >= 56) ==> words[j] == TailWord(m, n % 64, j)
      requires n % 64 < 56 ==> words[15] == CountWord(CountOf(n))
      ensures words == WordsOf(PaddedTail(m[..n % 64], n)[..64])
    {
      hide CountOf, CountOctets, BigEndian, PaddedTail, TailWord;
      var p := PaddedTail(m[..n % 64], n);
      CountWordIsPadded(m[..n % 64], n);
      forall j | 0 <= j < 16
        ensures words[j] == WordAt(p[..64], j)
      {
        if j < 15 || n % 64 >= 56 {
          TailWordIsPadded(m, n, j);
        }
      }
    }

    static lemma TailWordCases(m: seq<bv8>, used: nat)
      requires |m| == 64 && used < 64
      ensures forall j :: 0 <= j < used / 4 ==> TailWord(m, used, j) == WordAt(m, j)
      ensures TailWord(m, used, used / 4) == MarkedWord(m, used)
      ensures forall j :: used / 4 < j < 16 ==> TailWord(m, used, j) == 0
    {
      hide BigEndian, MarkedWord;
    }

    /** A last block of zeros that ends with the count. */
    method PadCount(w: array<bv32>)
      requires w.Length == 80 && numBits == CountOf(|msg|) && |msg| % 64 >= 56
      modifies w
      ensures w[..16] == WordsOf(PaddedTail(msg[Whole(|msg|)..], |msg|)[64..])
    {
      hide CountOf, CountOctets, BigEndian, PaddedTail;
      ghost var tail := msg[Whole(|msg|)..];
      ghost var p := PaddedTail(tail, |msg|);
      for i := 0 to 15
        invariant forall j :: 0 <= j < i ==> w[j] == 0
      {
        w[i] := 0;
      }
      w[15] := CountWord(numBits);
      CountWordIsPadded(tail, |msg|);
      forall j | 0 <= j < 16
        ensures w[j] == WordAt(p[64..], j)
      {
        if j < 15 {
          SecondBlockIsZeros(tail, |msg|, 16 + j);
        }
      }
    }
  }
}
