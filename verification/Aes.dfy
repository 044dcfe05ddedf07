/**
 The AES implementation of the library: key expansion into fifteen round keys, and the
 table-driven cipher that overwrites a 16-octet state round by round.
 */
module Aes {
  import opened Status
  import opened Bytes
  import opened AesSpec

  const KEYS: nat := 15

  // ---- the key schedule of section 5.2 ----

  function SubCol(sb: SBox, c: Col): Col {
    Col(sb.fwd(c.b0), sb.fwd(c.b1), sb.fwd(c.b2), sb.fwd(c.b3))
  }

  function RotCol(c: Col): Col {
    Col(c.b1, c.b2, c.b3, c.b0)
  }

  /** x^(k-1) in the field. */
  function Rcon(k: nat): bv8
    requires k > 0
  {
    if k == 1 then 1 else M2(Rcon(k - 1))
  }

  /** Word `i` of the schedule for a key of `nk` words. */
  function KeyWord(sb: SBox, key: seq<bv8>, nk: nat, i: nat): Col
    requires nk > 0 && |key| == 4 * nk
    decreases i
  {
    if i < nk then Col(key[4 * i], key[4 * i + 1], key[4 * i + 2], key[4 * i + 3])
    else
      var last := KeyWord(sb, key, nk, i - 1);
      var temp :=
        if i % nk == 0 then XorCol(SubCol(sb, RotCol(last)), Col(Rcon(i / nk), 0, 0, 0))
        else if nk > 6 && i % nk == 4 then SubCol(sb, last)
        else last;
      XorCol(temp, KeyWord(sb, key, nk, i - nk))
  }

  /** Round key `i`: four consecutive words. */
  function RoundKey(sb: SBox, key: seq<bv8>, nk: nat, i: nat): Block
    requires nk > 0 && |key| == 4 * nk
  {
    BlockOf(KeyWord(sb, key, nk, 4 * i), KeyWord(sb, key, nk, 4 * i + 1),
            KeyWord(sb, key, nk, 4 * i + 2), KeyWord(sb, key, nk, 4 * i + 3))
  }

  /** The number of rounds for a key length in octets, 0 for the lengths the library refuses. */
  function RoundsFor(keyLen: nat): nat {
    if keyLen == 16 then 10 else if keyLen == 32 then 14 else 0
  }

  /** A round key made from the first word `temp` starts with and the round key four words or eight words before. */
  function ChainedKey(temp: Col, before: Block): Block {
    var c0 := XorCol(temp, ColOf(before, 0));
    var c1 := XorCol(c0, ColOf(before, 1));
    var c2 := XorCol(c1, ColOf(before, 2));
    var c3 := XorCol(c2, ColOf(before, 3));
    BlockOf(c0, c1, c2, c3)
  }

  lemma PlainWord(sb: SBox, key: seq<bv8>, nk: nat, i: nat)
    requires (nk == 4 || nk == 8) && |key| == 4 * nk && i >= nk && i % 4 != 0
    ensures KeyWord(sb, key, nk, i) == XorCol(KeyWord(sb, key, nk, i - 1), KeyWord(sb, key, nk, i - nk))
  {
    hide XorCol, SubCol, RotCol, Rcon;
    if nk == 4 {
      assert i % 4 != 0;
    } else {
      assert i % 8 != 0 && i % 8 != 4;
    }
  }

  lemma NextRoundKey(sb: SBox, key: seq<bv8>, nk: nat, i: nat, temp: Col)
    requires (nk == 4 || nk == 8) && |key| == 4 * nk && 4 * i >= nk
    requires KeyWord(sb, key, nk, 4 * i) == XorCol(temp, KeyWord(sb, key, nk, 4 * i - nk))
    ensures RoundKey(sb, key, nk, i) == ChainedKey(temp, RoundKey(sb, key, nk, i - nk / 4))
  {
    hide XorCol, KeyWord, BlockOf, ColOf;
    PlainWord(sb, key, nk, 4 * i + 1);
    PlainWord(sb, key, nk, 4 * i + 2);
    PlainWord(sb, key, nk, 4 * i + 3);
    var j := i - nk / 4;
    assert 4 * j == 4 * i - nk;
    ColumnsOfBlock(KeyWord(sb, key, nk, 4 * j), KeyWord(sb, key, nk, 4 * j + 1),
                   KeyWord(sb, key, nk, 4 * j + 2), KeyWord(sb, key, nk, 4 * j + 3));
  }

  lemma LastWord(sb: SBox, key: seq<bv8>, nk: nat, i: nat)
    requires nk > 0 && |key| == 4 * nk
    ensures ColOf(RoundKey(sb, key, nk, i), 3) == KeyWord(sb, key, nk, 4 * i + 3)
  {
    hide KeyWord;
  }

  /** The first word of an AES-128 round key, and of the even round keys of AES-256. */
  lemma RotatedWord(sb: SBox, key: seq<bv8>, nk: nat, i: nat)
    requires nk == 4 || nk == 8
    requires |key| == 4 * nk && i > 0
    ensures var j := if nk == 4 then 4 * i else 8 * i;
            KeyWord(sb, key, nk, j)
            == XorCol(XorCol(SubCol(sb, RotCol(KeyWord(sb, key, nk, j - 1))), Col(Rcon(i), 0, 0, 0)),
                      KeyWord(sb, key, nk, j - nk))
  {
    hide XorCol, SubCol, RotCol, Rcon;
    if nk == 4 {
      assert (4 * i) % 4 == 0 && (4 * i) / 4 == i;
    } else {
      assert (8 * i) % 8 == 0 && (8 * i) / 8 == i;
    }
  }

  /** The first word of the odd round keys of AES-256. */
  lemma SubstitutedWord(sb: SBox, key: seq<bv8>, i: nat)
    requires |key| == 32 && i >= 1
    ensures KeyWord(sb, key, 8, 8 * i + 4)
            == XorCol(SubCol(sb, KeyWord(sb, key, 8, 8 * i + 3)), KeyWord(sb, key, 8, 8 * i - 4))
  {
    hide XorCol, SubCol, RotCol, Rcon;
    assert (8 * i + 4) % 8 == 4;
  }

  lemma FirstRoundKey(sb: SBox, key: seq<bv8>, nk: nat, i: nat)
    requires nk > 0 && |key| == 4 * nk && 4 * i + 4 <= nk
    ensures key[16 * i..16 * i + 16] == RoundKey(sb, key, nk, i)
  {
    hide XorCol, SubCol, RotCol;
  }

  /** The substituted, rotated last word of a round key, with the round constant added. */
  function MungedWord(sb: SBox, before: Block, rc: bv8): Col {
    Col(XorByte(sb.fwd(before[13]), rc), sb.fwd(before[14]), sb.fwd(before[15]), sb.fwd(before[12]))
  }

  lemma MungedWordIs(sb: SBox, before: Block, rc: bv8)
    ensures MungedWord(sb, before, rc) == XorCol(SubCol(sb, RotCol(ColOf(before, 3))), Col(rc, 0, 0, 0))
  {
    hide XorByte;
    XorZero(sb.fwd(before[14]));
    XorZero(sb.fwd(before[15]));
    XorZero(sb.fwd(before[12]));
  }

  // ---- the schedule, octet by octet ----

  /** `r` is made from `before`: octets j come from octets j - 4 and `before`, the first four from `first`. */
  ghost predicate Chained(before: Block, first: Col, r: Block) {
    && r[0] == XorByte(first.b0, before[0]) && r[1] == XorByte(first.b1, before[1])
    && r[2] == XorByte(first.b2, before[2]) && r[3] == XorByte(first.b3, before[3])
    && r[4] == XorByte(r[0], before[4]) && r[5] == XorByte(r[1], before[5]) && r[6] == XorByte(r[2], before[6])
    && r[7] == XorByte(r[3], before[7]) && r[8] == XorByte(r[4], before[8]) && r[9] == XorByte(r[5], before[9])
    && r[10] == XorByte(r[6], before[10]) && r[11] == XorByte(r[7], before[11]) && r[12] == XorByte(r[8], before[12])
    && r[13] == XorByte(r[9], before[13]) && r[14] == XorByte(r[10], before[14]) && r[15] == XorByte(r[11], before[15])
  }

  lemma ChainedKeyIs(temp: Col, before: Block)
    ensures Chained(before, temp, ChainedKey(temp, before))
  {
    hide XorByte, BlockOf;
    var c0 := XorCol(temp, ColOf(before, 0));
    var c1 := XorCol(c0, ColOf(before, 1));
    var c2 := XorCol(c1, ColOf(before, 2));
    var c3 := XorCol(c2, ColOf(before, 3));
    ColumnsOfBlock(c0, c1, c2, c3);
  }

  /** The round keys of a 128-bit key: the last word rotated and substituted, and the round constant. */
  lemma NextKey128(sb: SBox, key: seq<bv8>, i: nat)
    requires |key| == 16 && i > 0
    ensures RoundKey(sb, key, 4, 0) == key
    ensures var b, r := RoundKey(sb, key, 4, i - 1), RoundKey(sb, key, 4, i);
            Chained(b, Col(XorByte(sb.fwd(b[13]), Rcon(i)), sb.fwd(b[14]), sb.fwd(b[15]), sb.fwd(b[12])), r)
  {
    hide XorCol, SubCol, RotCol, Rcon, ChainedKey, RoundKey, KeyWord, ColOf, MungedWord, Chained;
    FirstRoundKey(sb, key, 4, 0);
    assert key[0..16] == key;
    var b := RoundKey(sb, key, 4, i - 1);
    var temp := MungedWord(sb, b, Rcon(i));
    MungedWordIs(sb, b, Rcon(i));
    MungedOctets(sb, b, Rcon(i));
    LastWord(sb, key, 4, i - 1);
    RotatedWord(sb, key, 4, i);
    NextRoundKey(sb, key, 4, i, temp);
    ChainedKeyIs(temp, b);
  }

  lemma MungedOctets(sb: SBox, b: Block, rc: bv8)
    ensures MungedWord(sb, b, rc) == Col(XorByte(sb.fwd(b[13]), rc), sb.fwd(b[14]), sb.fwd(b[15]), sb.fwd(b[12]))
  {
  }

  /** The round keys of a 256-bit key, in two alternating steps from the keys one and two before. */
  lemma NextKey256(sb: SBox, key: seq<bv8>, i: nat)
    requires |key| == 32 && i > 1
    ensures RoundKey(sb, key, 8, 0) == key[..16] && RoundKey(sb, key, 8, 1) == key[16..]
    ensures var b, last, r := RoundKey(sb, key, 8, i - 2), RoundKey(sb, key, 8, i - 1), RoundKey(sb, key, 8, i);
            && (i % 2 == 0 ==>
                  Chained(b, Col(XorByte(sb.fwd(last[13]), Rcon(i / 2)), sb.fwd(last[14]), sb.fwd(last[15]), sb.fwd(last[12])), r))
            && (i % 2 == 1 ==>
                  Chained(b, Col(sb.fwd(last[12]), sb.fwd(last[13]), sb.fwd(last[14]), sb.fwd(last[15])), r))
  {
    hide XorCol, RotCol, Rcon, ChainedKey, RoundKey, KeyWord, MungedWord, Chained;
    FirstRoundKey(sb, key, 8, 0);
    FirstRoundKey(sb, key, 8, 1);
    assert key[0..16] == key[..16] && key[16..32] == key[16..];
    var last, half := RoundKey(sb, key, 8, i - 1), i / 2;
    LastWord(sb, key, 8, i - 1);
    var temp;
    if i % 2 == 0 {
      temp := MungedWord(sb, last, Rcon(half));
      MungedWordIs(sb, last, Rcon(half));
      MungedOctets(sb, last, Rcon(half));
      RotatedWord(sb, key, 8, half);
      assert i == 2 * half;
    } else {
      temp := SubCol(sb, ColOf(last, 3));
      SubstitutedWord(sb, key, half);
      assert i == 2 * half + 1;
    }
    NextRoundKey(sb, key, 8, i, temp);
    ChainedKeyIs(temp, RoundKey(sb, key, 8, i - 2));
  }

  lemma RoundConstants()
    ensures Rcon(1) == 0x01 && Rcon(2) == 0x02 && Rcon(3) == 0x04 && Rcon(4) == 0x08 && Rcon(5) == 0x10
    ensures Rcon(6) == 0x20 && Rcon(7) == 0x40 && Rcon(8) == 0x80 && Rcon(9) == 0x1b && Rcon(10) == 0x36
  {
    assert Rcon(1) == 0x01;
    assert Rcon(2) == 0x02;
    assert Rcon(3) == 0x04;
    assert Rcon(4) == 0x08;
    assert Rcon(5) == 0x10;
    assert Rcon(6) == 0x20;
    assert Rcon(7) == 0x40;
    assert Rcon(8) == 0x80;
    assert Rcon(9) == 0x1b;
  }

  /** The encryption schedule of a key. */
  function Schedule(sb: SBox, key: seq<bv8>): (ks: seq<Block>)
    requires |key| == 16 || |key| == 32
    ensures |ks| == RoundsFor(|key|) + 1
  {
    seq(RoundsFor(|key|) + 1, i requires 0 <= i < RoundsFor(|key|) + 1 => RoundKey(sb, key, |key| / 4, i))
  }

  // ---- the tables: substitution and mixing in one step ----

  function T0(sb: SBox, x: bv8): Col { E0(sb.fwd(x)) }
  function T1(sb: SBox, x: bv8): Col { E1(sb.fwd(x)) }
  function T2(sb: SBox, x: bv8): Col { E2(sb.fwd(x)) }
  function T3(sb: SBox, x: bv8): Col { E3(sb.fwd(x)) }
  function U0(sb: SBox, x: bv8): Col { D0(sb.inv(x)) }
  function U1(sb: SBox, x: bv8): Col { D1(sb.inv(x)) }
  function U2(sb: SBox, x: bv8): Col { D2(sb.inv(x)) }
  function U3(sb: SBox, x: bv8): Col { D3(sb.inv(x)) }

  /** A column inverse-mixed through the U tables; the S-box in front cancels the inverse inside them. */
  function UColumn(sb: SBox, c: Col): Col {
    Sum4(U0(sb, sb.fwd(c.b0)), U1(sb, sb.fwd(c.b1)), U2(sb, sb.fwd(c.b2)), U3(sb, sb.fwd(c.b3)))
  }

  lemma UColumnIsInvMix(sb: SBox, c: Col)
    requires Mutual(sb)
    ensures UColumn(sb, c) == InvMixCol(c)
  {
    hide D0, D1, D2, D3, XorCol;
  }

  // ---- expanded keys ----

  class ExpandedKey {
    const sb: SBox
    const round: array<Block>
    var numRounds: nat

    constructor (sb: SBox)
      ensures this.sb == sb && fresh(round) && round.Length == KEYS && numRounds == 0
    {
      this.sb := sb;
      round := new Block[KEYS](_ => ZERO_BLOCK);
      numRounds := 0;
    }

    /** Does the object hold the encryption schedule of `key`? */
    ghost predicate HoldsKeys(key: seq<bv8>)
      reads this, round
    {
      && round.Length == KEYS
      && (|key| == 16 || |key| == 32)
      && numRounds == RoundsFor(|key|)
      && forall i :: 0 <= i <= numRounds ==> round[i] == RoundKey(sb, key, |key| / 4, i)
    }

    method Expand128(key: seq<bv8>)
      requires |key| == 16 && round.Length == KEYS
      modifies this, round
      ensures HoldsKeys(key)
    {
      hide M2, KeyWord, XorCol, SubCol, BlockOf, ColOf, RoundKey;
      var rc: bv8 := 1;
      numRounds := 10;
      round[0] := key;
      FirstRoundKey(sb, key, 4, 0);
      for i := 1 to 11
        invariant rc == Rcon(i) && numRounds == 10
        invariant forall k :: 0 <= k < i ==> round[k] == RoundKey(sb, key, 4, k)
      {
        var temp := MungedWord(sb, round[i - 1], rc);
        MungedWordIs(sb, round[i - 1], rc);
        LastWord(sb, key, 4, i - 1);
        RotatedWord(sb, key, 4, i);
        NextRoundKey(sb, key, 4, i, temp);
        round[i] := ChainedKey(temp, round[i - 1]);
        rc := M2(rc);
      }
    }

    method Expand256(key: seq<bv8>)
      requires |key| == 32 && round.Length == KEYS
      modifies this, round
      ensures HoldsKeys(key)
    {
      hide M2, KeyWord, XorCol, SubCol, BlockOf, ColOf, RoundKey, MungedWord, ChainedKey;
      var rc: bv8 := 1;
      numRounds := 14;
      round[0], round[1] := key[..16], key[16..];
      FirstRoundKey(sb, key, 8, 0);
      FirstRoundKey(sb, key, 8, 1);
      for i := 2 to 15
        invariant rc == Rcon((i + 1) / 2) && numRounds == 14
        invariant forall k :: 0 <= k < i ==> round[k] == RoundKey(sb, key, 8, k)
      {
        var temp;
        var half := i / 2;
        LastWord(sb, key, 8, i - 1);
        if i % 2 == 0 {
          temp := MungedWord(sb, round[i - 1], rc);
          MungedWordIs(sb, round[i - 1], rc);
          RotatedWord(sb, key, 8, half);
          assert i == 2 * half && (i + 1) / 2 == half && (i + 2) / 2 == half + 1;
          rc := M2(rc);
        } else {
          temp := SubCol(sb, ColOf(round[i - 1], 3));
          SubstitutedWord(sb, key, half);
          assert i == 2 * half + 1 && (i + 1) / 2 == (i + 2) / 2;
        }
        NextRoundKey(sb, key, 8, i, temp);
        round[i] := ChainedKey(temp, round[i - 2]);
      }
    }

    /** aes_expand_encryption_key: 192-bit and odd key lengths are refused. */
    method ExpandEncryption(key: seq<bv8>) returns (status: Status)
      requires round.Length == KEYS
      modifies this, round
      ensures status == if RoundsFor(|key|) > 0 then Ok else BadParam
      ensures status == Ok ==> HoldsKeys(key)
      ensures status != Ok ==> numRounds == old(numRounds) && round[..] == old(round[..])
    {
      if |key| == 16 {
        Expand128(key);
        return Ok;
      } else if |key| == 32 {
        Expand256(key);
        return Ok;
      }
      status := BadParam;
    }

    /**
     aes_expand_decryption_key.  The round count that drives the reversal is the one the
     object held before the call: only if it is that of the key already is the result the
     schedule for decryption, and a new object keeps the schedule for encryption.
     */
    method ExpandDecryption(key: seq<bv8>) returns (status: Status)
      requires round.Length == KEYS && Mutual(sb)
      requires RoundsFor(|key|) > 0 ==> numRounds % 2 == 0 && numRounds <= RoundsFor(|key|)
      modifies this, round
      ensures status == if RoundsFor(|key|) > 0 then Ok else BadParam
      ensures status == Ok ==> numRounds == RoundsFor(|key|)
      ensures status == Ok ==> round[..numRounds + 1] == InverseKeys(Schedule(sb, key), old(numRounds))
      ensures status == Ok && old(numRounds) == 0 ==> round[..numRounds + 1] == Schedule(sb, key)
    {
      hide InvMixColumns, RoundKey, Mutual;
      var n := numRounds;
      status := ExpandEncryption(key);
      if status == Ok {
        ghost var ks := round[..numRounds + 1];
        assert ks == Schedule(sb, key);
        Reverse(n);
        ghost var back := round[..numRounds + 1];
        assert forall i :: 0 <= i <= numRounds ==> back[i] == if i <= n then ks[n - i] else ks[i];
        InverseMixInner(n);
        assert round[..numRounds + 1] == InverseKeys(ks, n);
      }
    }

    /** Reverses the order of round keys 0 to n, for the even n of both key lengths. */
    method Reverse(n: nat)
      requires n < round.Length && n % 2 == 0
      modifies round
      ensures forall i :: 0 <= i < round.Length ==> round[i] == if i <= n then old(round[n - i]) else old(round[i])
    {
      for i := 0 to n / 2
        invariant forall k :: 0 <= k < round.Length ==>
                    round[k] == if k < i || n - i < k <= n then old(round[n - k]) else old(round[k])
      {
        var tmp := round[n - i];
        round[n - i] := round[i];
        round[i] := tmp;
      }
    }

    /** Applies the inverse mix to round keys 1 to n - 1, through the U tables and the S-box. */
    method InverseMixInner(n: nat)
      requires n < round.Length && Mutual(sb)
      modifies round
      ensures forall i :: 0 <= i < round.Length ==>
                round[i] == if 0 < i < n then InvMixColumns(old(round[i])) else old(round[i])
    {
      hide UColumn, InvMixCol, BlockOf, ColOf, Mutual;
      var i := 1;
      while i < n
        invariant 1 <= i && (i <= n || i == 1)
        invariant forall k :: 0 <= k < round.Length ==>
                    round[k] == if 0 < k < i then InvMixColumns(old(round[k])) else old(round[k])
      {
        var b := round[i];
        UColumnIsInvMix(sb, ColOf(b, 0));
        UColumnIsInvMix(sb, ColOf(b, 1));
        UColumnIsInvMix(sb, ColOf(b, 2));
        UColumnIsInvMix(sb, ColOf(b, 3));
        round[i] := BlockOf(UColumn(sb, ColOf(b, 0)), UColumn(sb, ColOf(b, 1)), UColumn(sb, ColOf(b, 2)), UColumn(sb, ColOf(b, 3)));
        i := i + 1;
      }
    }
  }

  // ---- the rounds, in place ----

  /** Stores one column of the state, its word of the round key added. */
  method StoreColumn(state: array<bv8>, c: nat, col: Col, rk: Block)
    requires state.Length == 16 && c < 4
    modifies state
    ensures ColOf(state[..], c) == XorCol(col, ColOf(rk, c))
    ensures forall k :: 0 <= k < 4 && k != c ==> ColOf(state[..], k) == ColOf(old(state[..]), k)
  {
    hide XorByte;
    state[4 * c] := XorByte(col.b0, rk[4 * c]);
    state[4 * c + 1] := XorByte(col.b1, rk[4 * c + 1]);
    state[4 * c + 2] := XorByte(col.b2, rk[4 * c + 2]);
    state[4 * c + 3] := XorByte(col.b3, rk[4 * c + 3]);
  }

  /** Overwrites the state with four columns, the round key added. */
  method StoreColumns(state: array<bv8>, c0: Col, c1: Col, c2: Col, c3: Col, rk: Block)
    requires state.Length == 16
    modifies state
    ensures state[..] == Xor(BlockOf(c0, c1, c2, c3), rk)
  {
    hide XorCol, ColOf, Xor, BlockOf;
    StoreColumn(state, 0, c0, rk);
    StoreColumn(state, 1, c1, rk);
    StoreColumn(state, 2, c2, rk);
    StoreColumn(state, 3, c3, rk);
    ColumnsOfBlock(c0, c1, c2, c3);
    XorBlockColumns(BlockOf(c0, c1, c2, c3), rk);
    SameColumns(state[..], Xor(BlockOf(c0, c1, c2, c3), rk));
  }

  /** v128_xor_eq */
  method AddKey(state: array<bv8>, rk: Block)
    requires state.Length == 16
    modifies state
    ensures state[..] == Xor(old(state[..]), rk)
  {
    hide XorByte;
    for i := 0 to 16
      invariant forall k :: 0 <= k < 16 ==> state[k] == if k < i then XorByte(old(state[k]), rk[k]) else old(state[k])
    {
      state[i] := XorByte(state[i], rk[i]);
    }
  }

  lemma TablesMix(sb: SBox, b: Block, c0: Col, c1: Col, c2: Col, c3: Col)
    requires c0 == Sum4(T0(sb, b[0]), T1(sb, b[5]), T2(sb, b[10]), T3(sb, b[15]))
    requires c1 == Sum4(T0(sb, b[4]), T1(sb, b[9]), T2(sb, b[14]), T3(sb, b[3]))
    requires c2 == Sum4(T0(sb, b[8]), T1(sb, b[13]), T2(sb, b[2]), T3(sb, b[7]))
    requires c3 == Sum4(T0(sb, b[12]), T1(sb, b[1]), T2(sb, b[6]), T3(sb, b[11]))
    ensures BlockOf(c0, c1, c2, c3) == MixColumns(SubShift(sb, b))
  {
    hide E0, E1, E2, E3, Sum4;
  }

  lemma InvTablesMix(sb: SBox, b: Block, c0: Col, c1: Col, c2: Col, c3: Col)
    requires c0 == Sum4(U0(sb, b[0]), U1(sb, b[13]), U2(sb, b[10]), U3(sb, b[7]))
    requires c1 == Sum4(U0(sb, b[4]), U1(sb, b[1]), U2(sb, b[14]), U3(sb, b[11]))
    requires c2 == Sum4(U0(sb, b[8]), U1(sb, b[5]), U2(sb, b[2]), U3(sb, b[15]))
    requires c3 == Sum4(U0(sb, b[12]), U1(sb, b[9]), U2(sb, b[6]), U3(sb, b[3]))
    ensures BlockOf(c0, c1, c2, c3) == InvMixColumns(InvSubShift(sb, b))
  {
    hide D0, D1, D2, D3, Sum4;
  }

  method Round(sb: SBox, state: array<bv8>, rk: Block)
    requires state.Length == 16
    modifies state
    ensures state[..] == Xor(MixColumns(SubShift(sb, old(state[..]))), rk)
  {
    hide T0, T1, T2, T3, Sum4, MixColumns, SubShift, BlockOf, Xor;
    var c0 := Sum4(T0(sb, state[0]), T1(sb, state[5]), T2(sb, state[10]), T3(sb, state[15]));
    var c1 := Sum4(T0(sb, state[4]), T1(sb, state[9]), T2(sb, state[14]), T3(sb, state[3]));
    var c2 := Sum4(T0(sb, state[8]), T1(sb, state[13]), T2(sb, state[2]), T3(sb, state[7]));
    var c3 := Sum4(T0(sb, state[12]), T1(sb, state[1]), T2(sb, state[6]), T3(sb, state[11]));
    TablesMix(sb, state[..], c0, c1, c2, c3);
    StoreColumns(state, c0, c1, c2, c3, rk);
  }

  method InvRound(sb: SBox, state: array<bv8>, rk: Block)
    requires state.Length == 16
    modifies state
    ensures state[..] == Xor(InvMixColumns(InvSubShift(sb, old(state[..]))), rk)
  {
    hide U0, U1, U2, U3, Sum4, InvMixColumns, InvSubShift, BlockOf, Xor;
    var c0 := Sum4(U0(sb, state[0]), U1(sb, state[13]), U2(sb, state[10]), U3(sb, state[7]));
    var c1 := Sum4(U0(sb, state[4]), U1(sb, state[1]), U2(sb, state[14]), U3(sb, state[11]));
    var c2 := Sum4(U0(sb, state[8]), U1(sb, state[5]), U2(sb, state[2]), U3(sb, state[15]));
    var c3 := Sum4(U0(sb, state[12]), U1(sb, state[9]), U2(sb, state[6]), U3(sb, state[3]));
    InvTablesMix(sb, state[..], c0, c1, c2, c3);
    StoreColumns(state, c0, c1, c2, c3, rk);
  }

  /** Row `r` of the state: octets r, r + 4, r + 8, r + 12. */
  ghost predicate RowIs(state: seq<bv8>, before: seq<bv8>, r: nat, f: bv8 -> bv8, shift: nat)
    requires |state| == 16 && |before| == 16 && r < 4 && shift < 4
  {
    && state[r] == f(before[r + 4 * (shift % 4)])
    && state[r + 4] == f(before[r + 4 * ((1 + shift) % 4)])
    && state[r + 8] == f(before[r + 4 * ((2 + shift) % 4)])
    && state[r + 12] == f(before[r + 4 * ((3 + shift) % 4)])
  }

  ghost predicate RowKept(state: seq<bv8>, before: seq<bv8>, r: nat)
    requires |state| == 16 && |before| == 16 && r < 4
  {
    && state[r] == before[r] && state[r + 4] == before[r + 4]
    && state[r + 8] == before[r + 8] && state[r + 12] == before[r + 12]
  }

  ghost predicate OtherRowsKept(state: seq<bv8>, before: seq<bv8>, r: nat)
    requires |state| == 16 && |before| == 16 && r < 4
  {
    forall q :: 0 <= q < 4 && q != r ==> RowKept(state, before, q)
  }

  // Byte substitution and row shifts, one row at a time, by moving octets.

  method FirstRow(f: bv8 -> bv8, state: array<bv8>)
    requires state.Length == 16
    modifies state
    ensures RowIs(state[..], old(state[..]), 0, f, 0) && OtherRowsKept(state[..], old(state[..]), 0)
  {
    state[0] := f(state[0]);
    state[4] := f(state[4]);
    state[8] := f(state[8]);
    state[12] := f(state[12]);
  }

  method SecondRowLeft(f: bv8 -> bv8, state: array<bv8>)
    requires state.Length == 16
    modifies state
    ensures RowIs(state[..], old(state[..]), 1, f, 1) && OtherRowsKept(state[..], old(state[..]), 1)
  {
    var tmp := f(state[1]);
    state[1] := f(state[5]);
    state[5] := f(state[9]);
    state[9] := f(state[13]);
    state[13] := tmp;
  }

  method SecondRowRight(f: bv8 -> bv8, state: array<bv8>)
    requires state.Length == 16
    modifies state
    ensures RowIs(state[..], old(state[..]), 1, f, 3) && OtherRowsKept(state[..], old(state[..]), 1)
  {
    var tmp := f(state[13]);
    state[13] := f(state[9]);
    state[9] := f(state[5]);
    state[5] := f(state[1]);
    state[1] := tmp;
  }

  method ThirdRow(f: bv8 -> bv8, state: array<bv8>)
    requires state.Length == 16
    modifies state
    ensures RowIs(state[..], old(state[..]), 2, f, 2) && OtherRowsKept(state[..], old(state[..]), 2)
  {
    var tmp := f(state[10]);
    state[10] := f(state[2]);
    state[2] := tmp;
    tmp := f(state[14]);
    state[14] := f(state[6]);
    state[6] := tmp;
  }

  method FourthRowLeft(f: bv8 -> bv8, state: array<bv8>)
    requires state.Length == 16
    modifies state
    ensures RowIs(state[..], old(state[..]), 3, f, 3) && OtherRowsKept(state[..], old(state[..]), 3)
  {
    var tmp := f(state[15]);
    state[15] := f(state[11]);
    state[11] := f(state[7]);
    state[7] := f(state[3]);
    state[3] := tmp;
  }

  method FourthRowRight(f: bv8 -> bv8, state: array<bv8>)
    requires state.Length == 16
    modifies state
    ensures RowIs(state[..], old(state[..]), 3, f, 1) && OtherRowsKept(state[..], old(state[..]), 3)
  {
    var tmp := f(state[3]);
    state[3] := f(state[7]);
    state[7] := f(state[11]);
    state[11] := f(state[15]);
    state[15] := tmp;
  }

  /** A later change to row `q` keeps what is known about row `r`. */
  lemma RowAfter(f: bv8 -> bv8, after: seq<bv8>, s: seq<bv8>, b: seq<bv8>, r: nat, shift: nat, q: nat)
    requires |after| == 16 && |s| == 16 && |b| == 16 && r < 4 && q < 4 && q != r && shift < 4
    requires RowIs(s, b, r, f, shift) && OtherRowsKept(after, s, q)
    ensures RowIs(after, b, r, f, shift)
  {
    assert RowKept(after, s, r);
  }

  /** So does an earlier one. */
  lemma RowBefore(f: bv8 -> bv8, after: seq<bv8>, s: seq<bv8>, b: seq<bv8>, r: nat, shift: nat, q: nat)
    requires |after| == 16 && |s| == 16 && |b| == 16 && r < 4 && q < 4 && q != r && shift < 4
    requires RowIs(after, s, r, f, shift) && OtherRowsKept(s, b, q)
    ensures RowIs(after, b, r, f, shift)
  {
    assert RowKept(s, b, r);
    KeptAt(s, b, r, shift % 4);
    KeptAt(s, b, r, (1 + shift) % 4);
    KeptAt(s, b, r, (2 + shift) % 4);
    KeptAt(s, b, r, (3 + shift) % 4);
  }

  lemma KeptAt(s: seq<bv8>, b: seq<bv8>, r: nat, column: nat)
    requires |s| == 16 && |b| == 16 && r < 4 && column < 4 && RowKept(s, b, r)
    ensures s[r + 4 * column] == b[r + 4 * column]
  {
    if column < 2 {
      assert column == 0 || column == 1;
    } else {
      assert column == 2 || column == 3;
    }
  }

  lemma MapAt(f: bv8 -> bv8, b: Block, i: nat)
    requires i < 16
    ensures MapBytes(f, b)[i] == f(b[i])
  {
  }

  /** A row in terms of the substituted block. */
  lemma RowMapped(f: bv8 -> bv8, b: Block, s: seq<bv8>, r: nat, shift: nat, p0: nat, p1: nat, p2: nat, p3: nat)
    requires |s| == 16 && r < 4 && shift < 4 && RowIs(s, b, r, f, shift)
    requires p0 == r + 4 * (shift % 4) && p1 == r + 4 * ((1 + shift) % 4)
    requires p2 == r + 4 * ((2 + shift) % 4) && p3 == r + 4 * ((3 + shift) % 4)
    ensures var m := MapBytes(f, b);
            s[r] == m[p0] && s[r + 4] == m[p1] && s[r + 8] == m[p2] && s[r + 12] == m[p3]
  {
    hide MapBytes;
    MapAt(f, b, p0);
    MapAt(f, b, p1);
    MapAt(f, b, p2);
    MapAt(f, b, p3);
  }

  lemma RowsShiftedLeft(f: bv8 -> bv8, b: seq<bv8>, s: seq<bv8>)
    requires |b| == 16 && |s| == 16
    requires RowIs(s, b, 0, f, 0) && RowIs(s, b, 1, f, 1) && RowIs(s, b, 2, f, 2) && RowIs(s, b, 3, f, 3)
    ensures s == ShiftRows(MapBytes(f, b))
  {
    hide ShiftRows, MapBytes, RowIs;
    RowMapped(f, b, s, 0, 0, 0, 4, 8, 12);
    RowMapped(f, b, s, 1, 1, 5, 9, 13, 1);
    RowMapped(f, b, s, 2, 2, 10, 14, 2, 6);
    RowMapped(f, b, s, 3, 3, 15, 3, 7, 11);
    ShiftRowsIs(MapBytes(f, b), s);
  }

  lemma RowsShiftedRight(f: bv8 -> bv8, b: seq<bv8>, s: seq<bv8>)
    requires |b| == 16 && |s| == 16
    requires RowIs(s, b, 0, f, 0) && RowIs(s, b, 1, f, 3) && RowIs(s, b, 2, f, 2) && RowIs(s, b, 3, f, 1)
    ensures s == InvShiftRows(MapBytes(f, b))
  {
    hide InvShiftRows, MapBytes, RowIs;
    RowMapped(f, b, s, 0, 0, 0, 4, 8, 12);
    RowMapped(f, b, s, 1, 3, 13, 1, 5, 9);
    RowMapped(f, b, s, 2, 2, 10, 14, 2, 6);
    RowMapped(f, b, s, 3, 1, 7, 11, 15, 3);
    InvShiftRowsIs(MapBytes(f, b), s);
  }

  lemma ShiftRowsIs(m: Block, s: seq<bv8>)
    requires |s| == 16
    requires s[0] == m[0] && s[4] == m[4] && s[8] == m[8] && s[12] == m[12]
    requires s[1] == m[5] && s[5] == m[9] && s[9] == m[13] && s[13] == m[1]
    requires s[2] == m[10] && s[6] == m[14] && s[10] == m[2] && s[14] == m[6]
    requires s[3] == m[15] && s[7] == m[3] && s[11] == m[7] && s[15] == m[11]
    ensures s == ShiftRows(m)
  {
  }

  lemma InvShiftRowsIs(m: Block, s: seq<bv8>)
    requires |s| == 16
    requires s[0] == m[0] && s[4] == m[4] && s[8] == m[8] && s[12] == m[12]
    requires s[1] == m[13] && s[5] == m[1] && s[9] == m[5] && s[13] == m[9]
    requires s[2] == m[10] && s[6] == m[14] && s[10] == m[2] && s[14] == m[6]
    requires s[3] == m[7] && s[7] == m[11] && s[11] == m[15] && s[15] == m[3]
    ensures s == InvShiftRows(m)
  {
  }

  lemma RowsAreShift(f: bv8 -> bv8, b: seq<bv8>, s1: seq<bv8>, s2: seq<bv8>, s3: seq<bv8>, s4: seq<bv8>, left: nat)
    requires |b| == 16 && |s1| == 16 && |s2| == 16 && |s3| == 16 && |s4| == 16 && (left == 1 || left == 3)
    requires RowIs(s1, b, 0, f, 0) && OtherRowsKept(s1, b, 0)
    requires RowIs(s2, s1, 1, f, left) && OtherRowsKept(s2, s1, 1)
    requires RowIs(s3, s2, 2, f, 2) && OtherRowsKept(s3, s2, 2)
    requires RowIs(s4, s3, 3, f, 4 - left) && OtherRowsKept(s4, s3, 3)
    ensures s4 == if left == 1 then ShiftRows(MapBytes(f, b)) else InvShiftRows(MapBytes(f, b))
  {
    hide RowIs, OtherRowsKept, ShiftRows, InvShiftRows, MapBytes;
    RowAfter(f, s2, s1, b, 0, 0, 1);
    RowAfter(f, s3, s2, b, 0, 0, 2);
    RowAfter(f, s4, s3, b, 0, 0, 3);
    RowBefore(f, s2, s1, b, 1, left, 0);
    RowAfter(f, s3, s2, b, 1, left, 2);
    RowAfter(f, s4, s3, b, 1, left, 3);
    RowBefore(f, s3, s2, s1, 2, 2, 1);
    RowBefore(f, s3, s1, b, 2, 2, 0);
    RowAfter(f, s4, s3, b, 2, 2, 3);
    RowBefore(f, s4, s3, s2, 3, 4 - left, 2);
    RowBefore(f, s4, s2, s1, 3, 4 - left, 1);
    RowBefore(f, s4, s1, b, 3, 4 - left, 0);
    if left == 1 {
      RowsShiftedLeft(f, b, s4);
    } else {
      RowsShiftedRight(f, b, s4);
    }
  }

  /** The last round: no column mixing. */
  method FinalRound(sb: SBox, state: array<bv8>, rk: Block)
    requires state.Length == 16
    modifies state
    ensures state[..] == Xor(SubShift(sb, old(state[..])), rk)
  {
    hide Xor, RowIs, OtherRowsKept, ShiftRows, MapBytes;
    ghost var b := state[..];
    FirstRow(sb.fwd, state);
    ghost var s1 := state[..];
    SecondRowLeft(sb.fwd, state);
    ghost var s2 := state[..];
    ThirdRow(sb.fwd, state);
    ghost var s3 := state[..];
    FourthRowLeft(sb.fwd, state);
    RowsAreShift(sb.fwd, b, s1, s2, s3, state[..], 1);
    AddKey(state, rk);
  }

  method InvFinalRound(sb: SBox, state: array<bv8>, rk: Block)
    requires state.Length == 16
    modifies state
    ensures state[..] == Xor(InvSubShift(sb, old(state[..])), rk)
  {
    hide Xor, RowIs, OtherRowsKept, InvShiftRows, MapBytes;
    ghost var b := state[..];
    FirstRow(sb.inv, state);
    ghost var s1 := state[..];
    SecondRowRight(sb.inv, state);
    ghost var s2 := state[..];
    ThirdRow(sb.inv, state);
    ghost var s3 := state[..];
    FourthRowRight(sb.inv, state);
    RowsAreShift(sb.inv, b, s1, s2, s3, state[..], 3);
    AddKey(state, rk);
  }

  // ---- the cipher ----

  /** aes_encrypt with the round keys of a 10-, 12- or 14-round schedule. */
  method EncryptBlock(key: ExpandedKey, state: array<bv8>)
    requires state.Length == 16 && key.round.Length == KEYS
    requires key.numRounds == 10 || key.numRounds == 12 || key.numRounds == 14
    modifies state
    ensures state[..] == Encrypt(key.sb, key.round[..], key.numRounds, old(state[..]))
  {
    hide SubShift, MixColumns, Xor, Forward, Encrypt;
    ghost var x, ks := state[..], key.round[..];
    AddKey(state, key.round[0]);
    ForwardStart(key.sb, ks, x);
    MiddleRound(key, state, x, 1);
    MiddleRound(key, state, x, 2);
    MiddleRound(key, state, x, 3);
    MiddleRound(key, state, x, 4);
    MiddleRound(key, state, x, 5);
    MiddleRound(key, state, x, 6);
    MiddleRound(key, state, x, 7);
    MiddleRound(key, state, x, 8);
    MiddleRound(key, state, x, 9);
    if key.numRounds == 10 {
      FinalRound(key.sb, state, key.round[10]);
    } else if key.numRounds == 12 {
      MiddleRound(key, state, x, 10);
      MiddleRound(key, state, x, 11);
      FinalRound(key.sb, state, key.round[12]);
    } else {
      MiddleRound(key, state, x, 10);
      MiddleRound(key, state, x, 11);
      MiddleRound(key, state, x, 12);
      MiddleRound(key, state, x, 13);
      FinalRound(key.sb, state, key.round[14]);
    }
    EncryptEnd(key.sb, ks, key.numRounds, x);
  }

  /** aes_decrypt */
  method DecryptBlock(key: ExpandedKey, state: array<bv8>)
    requires state.Length == 16 && key.round.Length == KEYS
    requires key.numRounds == 10 || key.numRounds == 12 || key.numRounds == 14
    modifies state
    ensures state[..] == Decrypt(key.sb, key.round[..], key.numRounds, old(state[..]))
  {
    hide InvSubShift, InvMixColumns, Xor, Backward, Decrypt;
    ghost var x, ks := state[..], key.round[..];
    AddKey(state, key.round[0]);
    BackwardStart(key.sb, ks, x);
    MiddleInvRound(key, state, x, 1);
    MiddleInvRound(key, state, x, 2);
    MiddleInvRound(key, state, x, 3);
    MiddleInvRound(key, state, x, 4);
    MiddleInvRound(key, state, x, 5);
    MiddleInvRound(key, state, x, 6);
    MiddleInvRound(key, state, x, 7);
    MiddleInvRound(key, state, x, 8);
    MiddleInvRound(key, state, x, 9);
    if key.numRounds == 10 {
      InvFinalRound(key.sb, state, key.round[10]);
    } else if key.numRounds == 12 {
      MiddleInvRound(key, state, x, 10);
      MiddleInvRound(key, state, x, 11);
      InvFinalRound(key.sb, state, key.round[12]);
    } else {
      MiddleInvRound(key, state, x, 10);
      MiddleInvRound(key, state, x, 11);
      MiddleInvRound(key, state, x, 12);
      MiddleInvRound(key, state, x, 13);
      InvFinalRound(key.sb, state, key.round[14]);
    }
    DecryptEnd(key.sb, ks, key.numRounds, x);
  }

  /** One full round, told in terms of the block `x` that went in. */
  method MiddleRound(key: ExpandedKey, state: array<bv8>, ghost x: Block, i: nat)
    requires state.Length == 16 && key.round.Length == KEYS && 0 < i < KEYS
    requires state[..] == Forward(key.sb, key.round[..], x, i - 1)
    modifies state
    ensures state[..] == Forward(key.sb, key.round[..], x, i)
  {
    hide SubShift, MixColumns, Xor;
    Round(key.sb, state, key.round[i]);
  }

  method MiddleInvRound(key: ExpandedKey, state: array<bv8>, ghost x: Block, i: nat)
    requires state.Length == 16 && key.round.Length == KEYS && 0 < i < KEYS
    requires state[..] == Backward(key.sb, key.round[..], x, i - 1)
    modifies state
    ensures state[..] == Backward(key.sb, key.round[..], x, i)
  {
    hide InvSubShift, InvMixColumns, Xor;
    InvRound(key.sb, state, key.round[i]);
  }

  lemma ForwardStart(sb: SBox, ks: seq<Block>, x: Block)
    requires |ks| > 0
    ensures Forward(sb, ks, x, 0) == Xor(x, ks[0])
  {
  }

  lemma EncryptEnd(sb: SBox, ks: seq<Block>, n: nat, x: Block)
    requires 0 < n < |ks|
    ensures Encrypt(sb, ks, n, x) == Xor(SubShift(sb, Forward(sb, ks, x, n - 1)), ks[n])
  {
  }

  lemma BackwardStart(sb: SBox, ks: seq<Block>, x: Block)
    requires |ks| > 0
    ensures Backward(sb, ks, x, 0) == Xor(x, ks[0])
  {
  }

  lemma DecryptEnd(sb: SBox, ks: seq<Block>, n: nat, x: Block)
    requires 0 < n < |ks|
    ensures Decrypt(sb, ks, n, x) == Xor(InvSubShift(sb, Backward(sb, ks, x, n - 1)), ks[n])
  {
  }

  // ---- what encryption and decryption of one key do together ----

  /** The block cipher under a key, and its inverse under the schedule ExpandDecryption builds. */
  function CipherOf(sb: SBox, key: seq<bv8>): Block -> Block
    requires |key| == 16 || |key| == 32
  {
    var ks := Schedule(sb, key);
    (x: Block) => Encrypt(sb, ks, RoundsFor(|key|), x)
  }

  function InverseOf(sb: SBox, key: seq<bv8>): Block -> Block
    requires |key| == 16 || |key| == 32
  {
    var ks := InverseKeys(Schedule(sb, key), RoundsFor(|key|));
    (x: Block) => Decrypt(sb, ks, RoundsFor(|key|), x)
  }

  /** Decryption inverts encryption for every 128- or 256-bit key and every block. */
  lemma AesInverts(sb: SBox, key: seq<bv8>, x: Block)
    requires Mutual(sb) && (|key| == 16 || |key| == 32)
    ensures InverseOf(sb, key)(CipherOf(sb, key)(x)) == x
  {
    hide Encrypt, Decrypt, InverseKeys, Schedule, Mutual;
    DecryptUndoesEncrypt(sb, Schedule(sb, key), RoundsFor(|key|), x);
  }

  /** Round keys past the last one do not matter. */
  lemma {:induction false} ForwardPrefix(sb: SBox, ks: seq<Block>, more: seq<Block>, x: Block, i: nat)
    requires i < |ks| <= |more| && more[..|ks|] == ks
    ensures Forward(sb, ks, x, i) == Forward(sb, more, x, i)
    decreases i
  {
    hide SubShift, MixColumns, Xor;
    if i > 0 {
      ForwardPrefix(sb, ks, more, x, i - 1);
    }
  }

  lemma {:induction false} BackwardPrefix(sb: SBox, ks: seq<Block>, more: seq<Block>, x: Block, i: nat)
    requires i < |ks| <= |more| && more[..|ks|] == ks
    ensures Backward(sb, ks, x, i) == Backward(sb, more, x, i)
    decreases i
  {
    hide InvSubShift, InvMixColumns, Xor;
    if i > 0 {
      BackwardPrefix(sb, ks, more, x, i - 1);
    }
  }

  /** A whole pass through the library: expand, encrypt in place, expand for decryption, decrypt in place. */
  method EncryptThenDecrypt(key: ExpandedKey, k: seq<bv8>, state: array<bv8>)
    requires Mutual(key.sb) && key.round.Length == KEYS
    requires |k| == 16 || |k| == 32
    requires state.Length == 16
    modifies key, key.round, state
    ensures state[..] == old(state[..])
  {
    hide Encrypt, Decrypt, InverseKeys, Schedule, Mutual, RoundKey;
    ghost var x := state[..];
    ghost var ks := Schedule(key.sb, k);
    var status := key.ExpandEncryption(k);
    ScheduleHeld(key, k);
    EncryptBlock(key, state);
    EncryptPrefix(key.sb, ks, key.round[..], key.numRounds, x);
    status := key.ExpandDecryption(k);
    ghost var y := state[..];
    DecryptBlock(key, state);
    DecryptPrefix(key.sb, InverseKeys(ks, key.numRounds), key.round[..], key.numRounds, y);
    DecryptUndoesEncrypt(key.sb, ks, key.numRounds, x);
  }

  /** Encryption in place under an expanded key is the block cipher under that key. */
  method EncryptUnder(key: ExpandedKey, ghost k: seq<bv8>, state: array<bv8>)
    requires key.HoldsKeys(k) && state.Length == 16
    modifies state
    ensures state[..] == CipherOf(key.sb, k)(old(state[..]))
  {
    hide Encrypt, Schedule, RoundKey;
    ghost var x := state[..];
    ScheduleHeld(key, k);
    EncryptBlock(key, state);
    EncryptPrefix(key.sb, Schedule(key.sb, k), key.round[..], key.numRounds, x);
  }

  lemma ScheduleHeld(key: ExpandedKey, k: seq<bv8>)
    requires key.HoldsKeys(k)
    ensures key.round[..key.numRounds + 1] == Schedule(key.sb, k)
  {
    hide RoundKey;
  }

  lemma EncryptPrefix(sb: SBox, ks: seq<Block>, more: seq<Block>, n: nat, x: Block)
    requires 0 < n && |ks| == n + 1 <= |more| && more[..n + 1] == ks
    ensures Encrypt(sb, ks, n, x) == Encrypt(sb, more, n, x)
  {
    hide SubShift, Xor, Encrypt, Forward;
    ForwardPrefix(sb, ks, more, x, n - 1);
    EncryptEnd(sb, ks, n, x);
    EncryptEnd(sb, more, n, x);
  }

  lemma DecryptPrefix(sb: SBox, ks: seq<Block>, more: seq<Block>, n: nat, x: Block)
    requires 0 < n && |ks| == n + 1 <= |more| && more[..n + 1] == ks
    ensures Decrypt(sb, ks, n, x) == Decrypt(sb, more, n, x)
  {
    hide InvSubShift, Xor, Decrypt, Backward;
    BackwardPrefix(sb, ks, more, x, n - 1);
    DecryptEnd(sb, ks, n, x);
    DecryptEnd(sb, more, n, x);
  }
}
