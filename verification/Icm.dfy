/**
 AES integer counter mode.  The block cipher under the expanded key is a function `enc`
 on blocks; everything here holds for every such function.
 */
module CounterMode {
  import opened Status
  import opened Bytes

  const SEGMENT_MAX: nat := 0xffff

  // ---- the counter ----

  /** The 16-bit block index in the last two octets. */
  function BlockIndex(counter: Block): (n: nat)
    ensures n < 0x1_0000
  {
    NatOf(counter[14]) * 256 + NatOf(counter[15])
  }

  /** The counter with block index `i`. */
  function Indexed(counter: Block, i: nat): (c: Block)
    requires i < 0x1_0000
    ensures c[..14] == counter[..14]
    ensures BlockIndex(c) == i
  {
    var high, low := i / 256, i % 256;
    assert high < 256 && i == 256 * high + low;
    counter[..14] + [ByteOf(high), ByteOf(low)]
  }

  /** The counter with its block index moved on by `n`, modulo 2^16. */
  function CounterAt(counter: Block, n: nat): Block {
    Indexed(counter, (BlockIndex(counter) + n) % 0x1_0000)
  }

  lemma CounterParts(counter: Block, n: nat)
    ensures CounterAt(counter, n)[..14] == counter[..14]
    ensures BlockIndex(CounterAt(counter, n)) == (BlockIndex(counter) + n) % 0x1_0000
  {
  }

  lemma CounterUnique(a: Block, b: Block)
    requires a[..14] == b[..14] && BlockIndex(a) == BlockIndex(b)
    ensures a == b
  {
    hide NatOf, ByteOf, XorByte;
    SameNat(a[14], b[14]);
    SameNat(a[15], b[15]);
    assert a == a[..14] + [a[14], a[15]];
    assert b == b[..14] + [b[14], b[15]];
  }

  lemma CounterStart(counter: Block)
    ensures CounterAt(counter, 0) == counter
  {
    hide NatOf, ByteOf, XorByte;
    CounterParts(counter, 0);
    CounterUnique(CounterAt(counter, 0), counter);
  }

  lemma ModSum(x: nat, a: nat, b: nat)
    ensures ((x + a) % 0x1_0000 + b) % 0x1_0000 == (x + (a + b)) % 0x1_0000
  {
    var q := (x + a) / 0x1_0000;
    assert x + (a + b) == q * 0x1_0000 + ((x + a) % 0x1_0000 + b);
  }

  lemma CounterSum(counter: Block, a: nat, b: nat)
    ensures CounterAt(CounterAt(counter, a), b) == CounterAt(counter, a + b)
  {
    hide NatOf, ByteOf, XorByte;
    hide CounterAt, BlockIndex;
    ModSum(BlockIndex(counter), a, b);
    CounterParts(counter, a);
    CounterParts(CounterAt(counter, a), b);
    CounterParts(counter, a + b);
    CounterUnique(CounterAt(CounterAt(counter, a), b), CounterAt(counter, a + b));
  }

  /** Clocking the counter: increment the last octet and carry into the one before. */
  function Clocked(counter: Block): (c: Block) {
    var last := counter[15] + 1;
    if last == 0 then counter[15 := last][14 := counter[14] + 1] else counter[15 := last]
  }

  lemma ByteIncrement(b: bv8)
    ensures NatOf(b + 1) == (NatOf(b) + 1) % 256
    ensures b + 1 == 0 <==> NatOf(b) == 255
  {
  }

  lemma ClockedIndex(counter: Block)
    ensures BlockIndex(Clocked(counter)) == (BlockIndex(counter) + 1) % 0x1_0000
  {
    hide NatOf;
    ByteIncrement(counter[14]);
    ByteIncrement(counter[15]);
  }

  lemma ClockedIsNext(counter: Block)
    ensures Clocked(counter) == CounterAt(counter, 1)
  {
    hide NatOf, ByteOf, CounterAt, BlockIndex;
    ClockedIndex(counter);
    CounterParts(counter, 1);
    CounterUnique(Clocked(counter), CounterAt(counter, 1));
  }

  // ---- which octet counts what ----

  /** Octet 15 counts up, and octet 14 takes the carry; the others stay. */
  lemma ClockedOctets(counter: Block)
    ensures var c := Clocked(counter);
            && c[..14] == counter[..14]
            && NatOf(c[15]) == (NatOf(counter[15]) + 1) % 0x100
            && NatOf(c[14]) == if NatOf(counter[15]) == 0xff then (NatOf(counter[14]) + 1) % 0x100 else NatOf(counter[14])
  {
    hide NatOf;
    ByteIncrement(counter[14]);
    ByteIncrement(counter[15]);
  }

  /** After `n` blocks octets 14 and 15 hold the sum, the high octet first. */
  lemma CounterOctets(counter: Block, n: nat)
    ensures var c, sum := CounterAt(counter, n), (0x100 * NatOf(counter[14]) + NatOf(counter[15]) + n) % 0x1_0000;
            && c[..14] == counter[..14]
            && NatOf(c[14]) == sum / 0x100 && NatOf(c[15]) == sum % 0x100
  {
    hide NatOf, ByteOf;
  }

  // ---- the keystream ahead ----

  /** Counter, current keystream block, and how many of its octets are unused. */
  datatype State = State(counter: Block, keystream: Block, unused: nat)

  predicate WellFormed(s: State) {
    s.unused <= 16
  }

  /** The k-th octet of keystream that `s` will use next. */
  function Ahead(enc: Block -> Block, s: State, k: nat): bv8
    requires WellFormed(s)
  {
    if k < s.unused then s.keystream[16 - s.unused + k]
    else enc(CounterAt(s.counter, (k - s.unused) / 16))[(k - s.unused) % 16]
  }

  function BlocksFor(s: State, n: nat): nat
    requires WellFormed(s)
  {
    if n <= s.unused then 0 else (n - s.unused + 15) / 16
  }

  /** The state after `n` octets of keystream. */
  function After(enc: Block -> Block, s: State, n: nat): (s': State)
    requires WellFormed(s)
    ensures WellFormed(s')
  {
    if n <= s.unused then s.(unused := s.unused - n)
    else
      var blocks := BlocksFor(s, n);
      State(CounterAt(s.counter, blocks), enc(CounterAt(s.counter, blocks - 1)), s.unused + 16 * blocks - n)
  }

  /** `data` with the keystream ahead of `s` added. */
  function Crypt(enc: Block -> Block, s: State, data: seq<bv8>): (r: seq<bv8>)
    requires WellFormed(s)
    ensures |r| == |data|
  {
    seq(|data|, k requires 0 <= k < |data| => XorByte(data[k], Ahead(enc, s, k)))
  }

  /** The segment check of the code, in 32-bit unsigned arithmetic. */
  predicate Fits(s: State, n: nat) {
    (n + BlockIndex(s.counter)) % UINT32 <= SEGMENT_MAX
  }

  /** The cipher input blocks that `n` octets of keystream consume. */
  function InputBlocks(s: State, n: nat): seq<Block>
    requires WellFormed(s)
  {
    seq(BlocksFor(s, n), i requires 0 <= i < BlocksFor(s, n) => CounterAt(s.counter, i))
  }

  // Division by 16 is used in the next four lemmas only; what follows them counts whole
  // blocks and octets within a block.

  lemma AheadAt(enc: Block -> Block, s: State, i: nat, j: nat)
    requires WellFormed(s) && j < 16
    ensures Ahead(enc, s, s.unused + 16 * i + j) == enc(CounterAt(s.counter, i))[j]
  {
    hide CounterAt;
    assert (16 * i + j) / 16 == i && (16 * i + j) % 16 == j;
  }

  lemma AheadInBuffer(enc: Block -> Block, s: State, k: nat)
    requires WellFormed(s) && k < s.unused
    ensures Ahead(enc, s, k) == s.keystream[16 - s.unused + k]
  {
    hide CounterAt;
  }

  /** The state after at most the unused octets of the buffer. */
  lemma AfterFew(enc: Block -> Block, s: State, n: nat)
    requires WellFormed(s) && n <= s.unused
    ensures After(enc, s, n) == s.(unused := s.unused - n)
  {
    hide CounterAt;
  }

  lemma CeilDiv(i: nat, rest: nat)
    requires i > 0 && rest < 16
    ensures (16 * i - rest + 15) / 16 == i
  {
  }

  lemma BlocksForExact(s: State, i: nat, rest: nat)
    requires WellFormed(s) && i > 0 && rest < 16
    ensures BlocksFor(s, s.unused + 16 * i - rest) == i
  {
    CeilDiv(i, rest);
  }

  /** The state after `i` further blocks, of which the last `rest` octets are not used. */
  lemma AfterBlocks(enc: Block -> Block, s: State, i: nat, rest: nat)
    requires WellFormed(s) && i > 0 && rest < 16
    ensures After(enc, s, s.unused + 16 * i - rest) == State(CounterAt(s.counter, i), enc(CounterAt(s.counter, i - 1)), rest)
    ensures BlocksFor(s, s.unused + 16 * i - rest) == i
  {
    BlocksForExact(s, i, rest);
    hide CounterAt, BlocksFor;
  }

  /** `x` octets fill `i` blocks up to `rest` octets. */
  lemma Blocks(x: nat) returns (i: nat, rest: nat)
    requires x > 0
    ensures i > 0 && rest < 16 && x == 16 * i - rest
  {
    i := (x + 15) / 16;
    rest := 16 * i - x;
  }

  lemma AfterSum(enc: Block -> Block, s: State, a: nat, b: nat)
    requires WellFormed(s)
    ensures After(enc, After(enc, s, a), b) == After(enc, s, a + b)
  {
    hide CounterAt, After;
    if a + b <= s.unused {
      AfterFew(enc, s, a);
      AfterFew(enc, s, a + b);
      AfterFew(enc, After(enc, s, a), b);
    } else if a <= s.unused {
      AfterFew(enc, s, a);
      var i, rest := Blocks(a + b - s.unused);
      AfterBlocks(enc, s, i, rest);
      AfterBlocks(enc, After(enc, s, a), i, rest);
    } else {
      AfterSumPastBuffer(enc, s, a, b);
    }
  }

  lemma AfterSumPastBuffer(enc: Block -> Block, s: State, a: nat, b: nat)
    requires WellFormed(s) && a > s.unused
    ensures After(enc, After(enc, s, a), b) == After(enc, s, a + b)
  {
    hide CounterAt, After;
    var i, rest := Blocks(a - s.unused);
    AfterBlocks(enc, s, i, rest);
    var mid := After(enc, s, a);
    if b <= rest {
      AfterFew(enc, mid, b);
      AfterBlocks(enc, s, i, rest - b);
    } else {
      var j, last := Blocks(b - rest);
      AfterBlocks(enc, mid, j, last);
      AfterBlocks(enc, s, i + j, last);
      CounterSum(s.counter, i, j);
      CounterSum(s.counter, i, j - 1);
    }
  }

  /** Using keystream only moves the reading position. */
  lemma AheadAfter(enc: Block -> Block, s: State, n: nat, k: nat)
    requires WellFormed(s)
    ensures Ahead(enc, After(enc, s, n), k) == Ahead(enc, s, n + k)
  {
    hide CounterAt, After, Ahead;
    if n + k < s.unused {
      AfterFew(enc, s, n);
      AheadInBuffer(enc, s, n + k);
      AheadInBuffer(enc, After(enc, s, n), k);
    } else if n <= s.unused {
      AfterFew(enc, s, n);
      var i, j := Position(n + k - s.unused);
      AheadAt(enc, s, i, j);
      AheadAt(enc, After(enc, s, n), i, j);
    } else {
      AheadAfterPastBuffer(enc, s, n, k);
    }
  }

  lemma AheadAfterPastBuffer(enc: Block -> Block, s: State, n: nat, k: nat)
    requires WellFormed(s) && n > s.unused
    ensures Ahead(enc, After(enc, s, n), k) == Ahead(enc, s, n + k)
  {
    hide CounterAt, After, Ahead;
    var i, rest := Blocks(n - s.unused);
    AfterBlocks(enc, s, i, rest);
    var mid := After(enc, s, n);
    if k < rest {
      AheadInBuffer(enc, mid, k);
      AheadAt(enc, s, i - 1, 16 - rest + k);
    } else {
      var p, q := Position(k - rest);
      AheadAt(enc, mid, p, q);
      AheadAt(enc, s, i + p, q);
      CounterSum(s.counter, i, p);
    }
  }

  /** Octet `x` lies in block `i` at offset `j`. */
  lemma Position(x: nat) returns (i: nat, j: nat)
    ensures j < 16 && x == 16 * i + j
  {
    i, j := x / 16, x % 16;
  }

  lemma TwoPieces(enc: Block -> Block, s: State, a: seq<bv8>, b: seq<bv8>)
    requires WellFormed(s)
    ensures Crypt(enc, s, a + b) == Crypt(enc, s, a) + Crypt(enc, After(enc, s, |a|), b)
    ensures After(enc, After(enc, s, |a|), |b|) == After(enc, s, |a + b|)
  {
    hide NatOf, ByteOf, XorByte, After, Ahead;
    AfterSum(enc, s, |a|, |b|);
    forall k | 0 <= k < |b|
      ensures Crypt(enc, s, a + b)[|a| + k] == Crypt(enc, After(enc, s, |a|), b)[k]
    {
      AheadAfter(enc, s, |a|, k);
    }
  }

  // ---- any division into calls ----

  function Flat(pieces: seq<seq<bv8>>): seq<bv8> {
    if pieces == [] then [] else pieces[0] + Flat(pieces[1..])
  }

  /** What one call after another makes of the pieces, each call going on where the last one stopped. */
  function CryptPieces(enc: Block -> Block, s: State, pieces: seq<seq<bv8>>): seq<bv8>
    requires WellFormed(s)
    decreases |pieces|
  {
    if pieces == [] then []
    else Crypt(enc, s, pieces[0]) + CryptPieces(enc, After(enc, s, |pieces[0]|), pieces[1..])
  }

  /** The state those calls leave behind. */
  function AfterPieces(enc: Block -> Block, s: State, pieces: seq<seq<bv8>>): (s': State)
    requires WellFormed(s)
    ensures WellFormed(s')
    decreases |pieces|
  {
    if pieces == [] then s else AfterPieces(enc, After(enc, s, |pieces[0]|), pieces[1..])
  }

  /** Every one of those calls passes the segment check. */
  predicate AllFit(enc: Block -> Block, s: State, pieces: seq<seq<bv8>>)
    requires WellFormed(s)
    decreases |pieces|
  {
    pieces == [] || (Fits(s, |pieces[0]|) && AllFit(enc, After(enc, s, |pieces[0]|), pieces[1..]))
  }

  /**
   Counter-mode output does not depend on how the data is divided into calls: the octets, the
   final counter and the keystream left over are those of one call on all of it.
   */
  lemma {:induction false} ChunkIndependence(enc: Block -> Block, s: State, pieces: seq<seq<bv8>>)
    requires WellFormed(s)
    ensures CryptPieces(enc, s, pieces) == Crypt(enc, s, Flat(pieces))
    ensures AfterPieces(enc, s, pieces) == After(enc, s, |Flat(pieces)|)
    decreases |pieces|
  {
    hide After, Ahead;
    if pieces == [] {
      AfterFew(enc, s, 0);
    } else {
      TwoPieces(enc, s, pieces[0], Flat(pieces[1..]));
      ChunkIndependence(enc, After(enc, s, |pieces[0]|), pieces[1..]);
    }
  }

  /** One call uses up as much of the segment as its octets, or less. */
  lemma SplitFits(enc: Block -> Block, s: State, n: nat, a: nat)
    requires WellFormed(s) && n + BlockIndex(s.counter) <= SEGMENT_MAX && a <= n
    ensures Fits(s, a)
    ensures n - a + BlockIndex(After(enc, s, a).counter) <= SEGMENT_MAX
  {
    hide CounterAt, BlockIndex, After;
    if a <= s.unused {
      AfterFew(enc, s, a);
    } else {
      var i, rest := Blocks(a - s.unused);
      AfterBlocks(enc, s, i, rest);
      CounterParts(s.counter, i);
    }
  }

  /** What fits the segment at once fits it piece by piece. */
  lemma {:induction false} PiecesFit(enc: Block -> Block, s: State, pieces: seq<seq<bv8>>)
    requires WellFormed(s) && |Flat(pieces)| + BlockIndex(s.counter) <= SEGMENT_MAX
    ensures AllFit(enc, s, pieces)
    decreases |pieces|
  {
    hide BlockIndex, After, Fits;
    if pieces != [] {
      SplitFits(enc, s, |Flat(pieces)|, |pieces[0]|);
      PiecesFit(enc, After(enc, s, |pieces[0]|), pieces[1..]);
    }
  }

  /** However `n` octets are divided into calls, all of them pass the segment check. */
  ghost predicate EveryDivisionFits(enc: Block -> Block, s: State, n: nat)
    requires WellFormed(s)
  {
    forall pieces :: |Flat(pieces)| == n ==> AllFit(enc, s, pieces)
  }

  /**
   If one call passes the segment check, every division of it into any number of calls does
   too, exactly when the sum tested in the check did not wrap around 32 bits.
   */
  lemma EveryDivisionFitsIff(enc: Block -> Block, s: State, n: nat)
    requires WellFormed(s) && n < UINT32 && Fits(s, n)
    ensures EveryDivisionFits(enc, s, n) <==> n + BlockIndex(s.counter) < UINT32
  {
    hide BlockIndex, After, AllFit;
    if n + BlockIndex(s.counter) < UINT32 {
      forall pieces | |Flat(pieces)| == n
        ensures AllFit(enc, s, pieces)
      {
        PiecesFit(enc, s, pieces);
      }
    } else {
      SegmentCutOff(enc, s, n);
    }
  }

  /** The division that a wrapped check lets through as a whole and not in pieces. */
  lemma SegmentCutOff(enc: Block -> Block, s: State, n: nat)
    requires WellFormed(s) && 0x1_0000 <= n < UINT32
    ensures !EveryDivisionFits(enc, s, n)
  {
    hide BlockIndex, After;
    var pieces: seq<seq<bv8>> := [seq(0x1_0000, _ => 0), seq(n - 0x1_0000, _ => 0)];
    assert Flat(pieces) == pieces[0] + (pieces[1] + Flat(pieces[2..]));
    assert |Flat(pieces)| == n;
    assert !Fits(s, 0x1_0000);
    assert !AllFit(enc, s, pieces);
  }

  /** Running the same stretch of keystream over the output restores the data. */
  lemma CryptTwice(enc: Block -> Block, s: State, data: seq<bv8>)
    requires WellFormed(s)
    ensures Crypt(enc, s, Crypt(enc, s, data)) == data
  {
    hide NatOf, ByteOf, XorByte;
    forall k | 0 <= k < |data|
      ensures Crypt(enc, s, Crypt(enc, s, data))[k] == data[k]
    {
      XorTwice(data[k], Ahead(enc, s, k));
    }
  }

  /** What becomes of the octet at offset `j` of block `i`, when no keystream is left over. */
  lemma CryptOctet(enc: Block -> Block, s: State, data: seq<bv8>, i: nat, j: nat)
    requires WellFormed(s) && s.unused == 0 && j < 16 && 16 * i + j < |data|
    ensures Crypt(enc, s, data)[16 * i + j] == XorByte(data[16 * i + j], enc(CounterAt(s.counter, i))[j])
  {
    hide CounterAt, Ahead;
    AheadAt(enc, s, i, j);
  }

  /** The segment check in numbers. */
  lemma FitsIs(s: State, n: nat)
    ensures Fits(s, n) <==> (n + 0x100 * NatOf(s.counter[14]) + NatOf(s.counter[15])) % 0x1_0000_0000 <= 0xffff
  {
    hide NatOf;
  }

  /** Within one segment the block counter cannot wrap: all cipher inputs differ. */
  lemma InputBlocksDiffer(s: State, n: nat, i: nat, j: nat)
    requires WellFormed(s) && n + BlockIndex(s.counter) <= SEGMENT_MAX
    requires i < j < BlocksFor(s, n)
    ensures InputBlocks(s, n)[i] != InputBlocks(s, n)[j]
    ensures BlockIndex(InputBlocks(s, n)[i]) == BlockIndex(s.counter) + i
  {
    hide NatOf, ByteOf, XorByte, BlockIndex, CounterAt;
    assert BlocksFor(s, n) <= n;
    CounterParts(s.counter, i);
    CounterParts(s.counter, j);
    assert BlockIndex(CounterAt(s.counter, i)) == BlockIndex(s.counter) + i;
    assert BlockIndex(CounterAt(s.counter, j)) == BlockIndex(s.counter) + j;
  }

  /** `buf` with the keystream ahead of `s` added to the `n` octets from `start` on. */
  function CryptIn(enc: Block -> Block, s: State, buf: seq<bv8>, start: nat, n: nat): (r: seq<bv8>)
    requires WellFormed(s) && start + n <= |buf|
    ensures |r| == |buf|
  {
    buf[..start] + Crypt(enc, s, buf[start..start + n]) + buf[start + n..]
  }

  /** The same, octet by octet. */
  ghost predicate CryptedTo(enc: Block -> Block, s: State, before: seq<bv8>, after: seq<bv8>, start: nat, n: nat)
    requires WellFormed(s)
  {
    && |after| == |before|
    && forall k :: 0 <= k < |before| ==>
         after[k] == if start <= k < start + n then XorByte(before[k], Ahead(enc, s, k - start)) else before[k]
  }

  lemma CryptedToIsCryptIn(enc: Block -> Block, s: State, before: seq<bv8>, after: seq<bv8>, start: nat, n: nat)
    requires WellFormed(s) && start + n <= |before|
    requires CryptedTo(enc, s, before, after, start, n)
    ensures after == CryptIn(enc, s, before, start, n)
  {
    hide NatOf, ByteOf, XorByte, Ahead;
  }

  lemma FromBuffer(enc: Block -> Block, s: State, before: seq<bv8>, after: seq<bv8>, start: nat, n: nat)
    requires WellFormed(s) && n <= s.unused && |after| == |before|
    requires forall k :: 0 <= k < |before| ==>
               after[k] == if start <= k < start + n then XorByte(before[k], s.keystream[16 - s.unused + k - start])
                           else before[k]
    ensures CryptedTo(enc, s, before, after, start, n)
  {
    hide XorByte, CounterAt, Ahead;
    forall k | 0 <= k < n
      ensures Ahead(enc, s, k) == s.keystream[16 - s.unused + k]
    {
      AheadInBuffer(enc, s, k);
    }
  }

  // ---- successive calls on one buffer ----

  function Total(lengths: seq<nat>): nat {
    if lengths == [] then 0 else lengths[0] + Total(lengths[1..])
  }

  lemma CryptInNothing(enc: Block -> Block, s: State, buf: seq<bv8>, start: nat)
    requires WellFormed(s) && start <= |buf|
    ensures CryptIn(enc, s, buf, start, 0) == buf && After(enc, s, 0) == s
  {
    hide Ahead, After;
    AfterFew(enc, s, 0);
  }

  /** A call on the next `n` octets continues a call on the first `done`. */
  lemma CryptInOn(enc: Block -> Block, s: State, buf: seq<bv8>, start: nat, done: nat, n: nat)
    requires WellFormed(s) && start + done + n <= |buf|
    ensures CryptIn(enc, After(enc, s, done), CryptIn(enc, s, buf, start, done), start + done, n)
            == CryptIn(enc, s, buf, start, done + n)
  {
    hide Crypt, After;
    var a, b := buf[start..start + done], buf[start + done..start + done + n];
    TwoPieces(enc, s, a, b);
    assert a + b == buf[start..start + (done + n)];
    var first := CryptIn(enc, s, buf, start, done);
    assert first[..start + done] == buf[..start] + Crypt(enc, s, a);
    assert first[start + done..start + done + n] == b;
    assert first[start + done + n..] == buf[start + (done + n)..];
  }

  // ---- the cipher context ----

  class Icm {
    const enc: Block -> Block   // the block cipher under the expanded key
    const offset: Block
    var counter: Block
    var keystreamBuffer: Block
    var bytesInBuffer: nat

    ghost predicate Valid()
      reads this
    {
      bytesInBuffer <= 16 && offset[14] == 0 && offset[15] == 0
    }

    ghost function Contents(): (s: State)
      reads this
      ensures Valid() ==> WellFormed(s)
    {
      State(counter, keystreamBuffer, bytesInBuffer)
    }

    /** aes_icm_context_init: the salt is the start of the counter, its last two octets forced to zero. */
    constructor (enc: Block -> Block, salt: seq<bv8>)
      requires |salt| == 14
      ensures Valid() && this.enc == enc && offset == salt + [0, 0]
      ensures Contents() == State(offset, keystreamBuffer, 0)
    {
      this.enc := enc;
      offset := salt + [0, 0];
      counter := salt + [0, 0];
      keystreamBuffer := ZERO_BLOCK;
      bytesInBuffer := 0;
    }

    method SetIv(iv: Block)
      requires Valid()
      modifies this
      ensures Valid()
      ensures Contents() == State(Xor(offset, iv), old(keystreamBuffer), 0)
    {
      hide XorByte;
      counter := Xor(offset, iv);
      bytesInBuffer := 0;
    }

    /** Refills the keystream buffer and clocks the counter forward. */
    method Advance()
      modifies this
      ensures counter == CounterAt(old(counter), 1)
      ensures keystreamBuffer == enc(old(counter)) && bytesInBuffer == 16
    {
      hide NatOf, ByteOf;
      keystreamBuffer := enc(counter);
      bytesInBuffer := 16;
      ClockedIsNext(counter);
      counter := Clocked(counter);
    }

    /** Adds `n` octets of the keystream buffer, from octet `from` on, into `buf` at `at`. */
    method AddKeystream(buf: array<bv8>, at: nat, from: nat, n: nat)
      requires from + n <= 16 && at + n <= buf.Length
      modifies buf
      ensures forall k :: 0 <= k < buf.Length ==>
                buf[k] == if at <= k < at + n then XorByte(old(buf[k]), keystreamBuffer[from + k - at]) else old(buf[k])
    {
      hide XorByte;
      for i := 0 to n
        invariant forall k :: 0 <= k < buf.Length ==>
                    buf[k] == if at <= k < at + i then XorByte(old(buf[k]), keystreamBuffer[from + k - at]) else old(buf[k])
      {
        buf[at + i] := XorByte(buf[at + i], keystreamBuffer[from + i]);
      }
    }

    /** Is there enough of the segment left for `n` octets? */
    method SegmentLeft(n: nat) returns (enough: bool)
      ensures enough == Fits(Contents(), n)
    {
      hide NatOf, BlockIndex;
      enough := !((n + BlockIndex(counter)) % UINT32 > SEGMENT_MAX);
    }

    /** aes_icm_encrypt on the `n` octets of `buf` from `start` on. */
    method Encrypt(buf: array<bv8>, start: nat, n: nat) returns (status: Status)
      requires Valid() && n < UINT32
      requires Fits(Contents(), n) ==> start + n <= buf.Length
      modifies this, buf
      ensures Valid()
      ensures status == if old(Fits(Contents(), n)) then Ok else Terminus
      ensures status == Ok ==> Contents() == After(enc, old(Contents()), n)
      ensures status == Ok ==> buf[..] == CryptIn(enc, old(Contents()), old(buf[..]), start, n)
      ensures status != Ok ==> Contents() == old(Contents()) && buf[..] == old(buf[..])
    {
      hide NatOf, ByteOf, XorByte, BlockIndex, CounterAt, After, Ahead, Fits;
      ghost var s := Contents();
      ghost var before := buf[..];
      var enough := SegmentLeft(n);
      if !enough {
        return Terminus;
      }
      if n <= bytesInBuffer {
        Drain(buf, start, n);
        CryptedToIsCryptIn(enc, s, before, buf[..], start, n);
        return Ok;
      }
      var done := bytesInBuffer;
      Drain(buf, start, done);
      AddBlocks(buf, start, done, n, s, before);
      CryptedToIsCryptIn(enc, s, before, buf[..], start, n);
      status := Ok;
    }

    /** The main loop and the tail of aes_icm_encrypt: octets `done` to `n`, the buffer being used up. */
    method AddBlocks(buf: array<bv8>, start: nat, done: nat, n: nat, ghost s: State, ghost before: seq<bv8>)
      requires WellFormed(s) && done == s.unused < n && start + n <= buf.Length
      requires counter == s.counter && bytesInBuffer == 0 && Valid()
      requires CryptedTo(enc, s, before, buf[..], start, done)
      modifies this, buf
      ensures Valid() && Contents() == After(enc, s, n)
      ensures CryptedTo(enc, s, before, buf[..], start, n)
    {
      hide NatOf, ByteOf, XorByte, BlockIndex, CounterAt, After, Ahead, CryptedTo;
      var left := n - done;
      var blocks, tail := left / 16, left % 16;
      assert left == 16 * blocks + tail;
      var at, i := done, 0;
      CounterStart(counter);
      while i < blocks
        invariant 0 <= i <= blocks && at == s.unused + 16 * i
        invariant counter == CounterAt(s.counter, i)
        invariant bytesInBuffer == 0 || bytesInBuffer == 16
        invariant i > 0 ==> keystreamBuffer == enc(CounterAt(s.counter, i - 1))
        invariant CryptedTo(enc, s, before, buf[..], start, at)
      {
        AddBlock(buf, start, at, 16, s, before, i);
        at := at + 16;
        i := i + 1;
      }
      if tail != 0 {
        AddBlock(buf, start, at, tail, s, before, i);
        bytesInBuffer := 16 - tail;
        AfterBlocks(enc, s, i + 1, bytesInBuffer);
      } else {
        bytesInBuffer := 0;
        AfterBlocks(enc, s, i, 0);
      }
    }

    /**
     Successive calls on neighbouring stretches of one buffer, up to the first that is refused:
     they have the effect of a single call on the whole, and what fits the segment is not refused.
     */
    method EncryptPieces(buf: array<bv8>, start: nat, lengths: seq<nat>) returns (status: Status)
      requires Valid() && Total(lengths) < UINT32 && start + Total(lengths) <= buf.Length
      modifies this, buf
      ensures Valid()
      ensures old(Total(lengths) + BlockIndex(counter) <= SEGMENT_MAX) ==> status == Ok
      ensures status == Ok ==> Contents() == After(enc, old(Contents()), Total(lengths))
      ensures status == Ok ==> buf[..] == CryptIn(enc, old(Contents()), old(buf[..]), start, Total(lengths))
    {
      hide NatOf, ByteOf, XorByte, BlockIndex, CounterAt, After, Ahead, Fits, CryptIn;
      ghost var s, before := Contents(), buf[..];
      var i, done := 0, 0;
      CryptInNothing(enc, s, before, start);
      while i < |lengths|
        invariant 0 <= i <= |lengths| && 0 <= done && done + Total(lengths[i..]) == Total(lengths)
        invariant Valid() && Contents() == After(enc, s, done)
        invariant buf[..] == CryptIn(enc, s, before, start, done)
        invariant Total(lengths) + BlockIndex(s.counter) <= SEGMENT_MAX ==>
                    Total(lengths[i..]) + BlockIndex(counter) <= SEGMENT_MAX
      {
        assert lengths[i..][1..] == lengths[i + 1..];
        assert Total(lengths[i..]) == lengths[i] + Total(lengths[i + 1..]);
        ghost var here := Contents();
        if Total(lengths) + BlockIndex(s.counter) <= SEGMENT_MAX {
          SplitFits(enc, here, Total(lengths[i..]), lengths[i]);
        }
        status := Encrypt(buf, start + done, lengths[i]);
        if status != Ok {
          return;
        }
        CryptInOn(enc, s, before, start, done, lengths[i]);
        AfterSum(enc, s, done, lengths[i]);
        done := done + lengths[i];
        i := i + 1;
      }
      status := Ok;
    }

    /** Uses `n` octets that are still in the buffer. */
    method Drain(buf: array<bv8>, start: nat, n: nat)
      requires Valid() && n <= bytesInBuffer && start + n <= buf.Length
      modifies this`bytesInBuffer, buf
      ensures Valid() && Contents() == After(enc, old(Contents()), n)
      ensures Contents() == old(Contents()).(unused := old(bytesInBuffer) - n)
      ensures CryptedTo(enc, old(Contents()), old(buf[..]), buf[..], start, n)
    {
      hide XorByte, After, Ahead, CounterAt;
      AfterFew(enc, Contents(), n);
      AddKeystream(buf, start, 16 - bytesInBuffer, n);
      FromBuffer(enc, Contents(), old(buf[..]), buf[..], start, n);
      bytesInBuffer := bytesInBuffer - n;
    }

    /** One block of the main loop, or the tail: fill the buffer, then add its first `m` octets. */
    method AddBlock(buf: array<bv8>, start: nat, done: nat, m: nat, ghost s: State, ghost before: seq<bv8>, ghost i: nat)
      requires m <= 16 && start + done + m <= buf.Length
      requires WellFormed(s) && done == s.unused + 16 * i
      requires counter == CounterAt(s.counter, i)
      requires CryptedTo(enc, s, before, buf[..], start, done)
      modifies this, buf
      ensures counter == CounterAt(s.counter, i + 1)
      ensures keystreamBuffer == enc(CounterAt(s.counter, i)) && bytesInBuffer == 16
      ensures CryptedTo(enc, s, before, buf[..], start, done + m)
    {
      hide NatOf, ByteOf, XorByte, BlockIndex, CounterAt, Ahead;
      CounterSum(s.counter, i, 1);
      ghost var middle := buf[..];
      Advance();
      AddKeystream(buf, start + done, 0, m);
      forall q | done <= q < done + m
        ensures Ahead(enc, s, q) == keystreamBuffer[q - done]
      {
        AheadAt(enc, s, i, q - done);
      }
      forall k | 0 <= k < |before|
        ensures buf[k] == if start <= k < start + done + m then XorByte(before[k], Ahead(enc, s, k - start)) else before[k]
      {
        assert middle[k] == if start <= k < start + done then XorByte(before[k], Ahead(enc, s, k - start)) else before[k];
      }
    }

    /**
     octet_string_set_to_zero.  The loop tests its bound at the end, so one octet is cleared
     even when none is asked for.
     */
    static method Clear(buf: array<bv8>, start: nat, n: nat)
      requires start + (if n == 0 then 1 else n) <= buf.Length
      modifies buf
      ensures forall k :: 0 <= k < buf.Length ==>
                buf[k] == if start <= k < start + n || k == start then 0 else old(buf[k])
    {
      buf[start] := 0;
      var i := 1;
      while i < n
        invariant 1 <= i && (i <= n || i == 1)
        invariant forall k :: 0 <= k < buf.Length ==> buf[k] == if start <= k < start + i then 0 else old(buf[k])
      {
        buf[start + i] := 0;
        i := i + 1;
      }
    }

    /** aes_icm_output: raw keystream, or zeros when the segment is used up. */
    method Output(buf: array<bv8>, start: nat, n: nat) returns (status: Status)
      requires Valid() && n < UINT32 && start + (if n == 0 then 1 else n) <= buf.Length
      modifies this, buf
      ensures Valid()
      ensures status == if old(Fits(Contents(), n)) then Ok else Terminus
      ensures Contents() == if status == Ok then After(enc, old(Contents()), n) else old(Contents())
      ensures forall k :: 0 <= k < buf.Length ==>
                buf[k] == if start <= k < start + n then if status == Ok then Ahead(enc, old(Contents()), k - start) else 0
                          else if n == 0 && k == start then 0
                          else old(buf[k])
    {
      hide NatOf, ByteOf, XorByte, Ahead, After, BlockIndex, Fits;
      Clear(buf, start, n);
      ghost var s, zeros := Contents(), buf[..];
      status := Encrypt(buf, start, n);
      forall k | 0 <= k < buf.Length
        ensures buf[k] == if start <= k < start + n then if status == Ok then Ahead(enc, s, k - start) else 0 else zeros[k]
      {
        assert buf[k] == buf[..][k];
        if status == Ok && start <= k < start + n {
          assert zeros[start..start + n][k - start] == zeros[k];
          XorZero(Ahead(enc, s, k - start));
        }
      }
    }
  }
}
