/**
 The bit vector of the replay databases: an array of 32-bit words read as one string of
 bits, bit 0 first.  The 128-bit register of the SRTCP database is the four-word case.
 */
module BitVectors {
  import opened Bits

  /** The bits of a word array: bit `j` is bit `j % 32` of word `j / 32`. */
  function BitsOf(words: seq<bv32>): (bits: seq<bool>)
    ensures |bits| == 32 * |words|
  {
    seq(32 * |words|, j requires 0 <= j < 32 * |words| => Bit(words[j / 32], j % 32))
  }

  /** Moving the window forward by `n`: every bit comes from `n` places further on, false past the end. */
  function Shifted(bits: seq<bool>, n: nat): (r: seq<bool>)
    ensures |r| == |bits|
  {
    seq(|bits|, j requires 0 <= j < |bits| => j + n < |bits| && bits[j + n])
  }

  lemma ShiftedTwice(bits: seq<bool>, a: nat, b: nat)
    ensures Shifted(Shifted(bits, a), b) == Shifted(bits, a + b)
  {
  }

  /** Word `i` of the vector after a left shift by `shift`, as the loops of the code assemble it. */
  function ShiftedWord(words: seq<bv32>, shift: nat, i: nat): bv32
    requires i < |words|
  {
    var base, bit := shift / 32, shift % 32;
    if i + base >= |words| then 0
    else if bit == 0 then words[i + base]
    else if i + base + 1 == |words| then ShiftRight(words[i + base], bit)
    else Xor(ShiftRight(words[i + base], bit), ShiftLeft(words[i + base + 1], 32 - bit))
  }

  lemma ShiftedWordBit(words: seq<bv32>, shift: nat, i: nat, k: nat)
    requires i < |words| && k < 32
    ensures Bit(ShiftedWord(words, shift, i), k)
            == (32 * i + k + shift < 32 * |words| && BitsOf(words)[32 * i + k + shift])
  {
    hide Bit, ShiftRight, ShiftLeft, Xor;
    var base, bit := shift / 32, shift % 32;
    var p := 32 * i + k + shift;
    assert p == 32 * (i + base) + (k + bit);
    ZeroBit(k);
    if i + base < |words| {
      if k + bit < 32 {
        assert p / 32 == i + base && p % 32 == k + bit;
      } else {
        assert p / 32 == i + base + 1 && p % 32 == k + bit - 32;
      }
      if bit > 0 && i + base + 1 == |words| {
        ShiftRightIsShr(words[i + base], bit);
        ShrBit(words[i + base], bit, k);
        if k + bit >= 32 {
          NoHighBit(words[i + base], k + bit);
        }
      } else if bit > 0 {
        FunnelBit(words[i + base], words[i + base + 1], bit, k);
      }
    }
  }

  lemma ShiftedWords(words: seq<bv32>, shift: nat, after: seq<bv32>)
    requires |after| == |words|
    requires forall i :: 0 <= i < |words| ==> after[i] == ShiftedWord(words, shift, i)
    ensures BitsOf(after) == Shifted(BitsOf(words), shift)
  {
    hide Bit, ShiftedWord;
    forall j | 0 <= j < 32 * |words|
      ensures BitsOf(after)[j] == Shifted(BitsOf(words), shift)[j]
    {
      ShiftedWordBit(words, shift, j / 32, j % 32);
    }
  }

  lemma SetOneBit(words: seq<bv32>, b: nat)
    requires b < 32 * |words|
    ensures BitsOf(words[b / 32 := Or(words[b / 32], ShiftLeft(1, b % 32))]) == BitsOf(words)[b := true]
  {
    hide Bit, Or, ShiftLeft;
    var after := words[b / 32 := Or(words[b / 32], ShiftLeft(1, b % 32))];
    forall j | 0 <= j < 32 * |words|
      ensures BitsOf(after)[j] == BitsOf(words)[b := true][j]
    {
      if j / 32 == b / 32 {
        SetBitIsOr(words[b / 32], b % 32, j % 32);
      }
    }
  }

  lemma AllZero(words: seq<bv32>)
    requires forall i :: 0 <= i < |words| ==> words[i] == 0
    ensures BitsOf(words) == seq(32 * |words|, _ => false)
  {
    hide Bit;
    forall j | 0 <= j < 32 * |words|
      ensures !BitsOf(words)[j]
    {
      ZeroBit(j % 32);
    }
  }

  class BitVector {
    const word: array<bv32>

    /** The number of bits; the code keeps it in a field set once by bitvector_alloc. */
    ghost function Len(): nat {
      32 * word.Length
    }

    ghost function Contents(): (bits: seq<bool>)
      reads word
      ensures |bits| == Len()
    {
      BitsOf(word[..])
    }

    /** Room for `length` bits, rounded up to whole words, all clear. */
    constructor Alloc(length: nat)
      ensures Len() == (length + 31) / 32 * 32
      ensures Contents() == seq(Len(), _ => false)
      ensures fresh(word)
    {
      word := new bv32[(length + 31) / 32];
      new;
      SetToZero();
    }

    method SetToZero()
      modifies word
      ensures Contents() == seq(Len(), _ => false)
    {
      for i := 0 to word.Length
        invariant forall k :: 0 <= k < i ==> word[k] == 0
      {
        word[i] := 0;
      }
      AllZero(word[..]);
    }

    method GetBit(b: nat) returns (isSet: bool)
      requires b < Len()
      ensures isSet == Contents()[b]
    {
      BitIsMasked(word[b / 32], b % 32);
      isSet := Low(ShiftRight(word[b / 32], b % 32));
    }

    method SetBit(b: nat)
      requires b < Len()
      modifies word
      ensures Contents() == old(Contents())[b := true]
    {
      SetOneBit(word[..], b);
      ghost var before := word[..];
      word[b / 32] := Or(word[b / 32], ShiftLeft(1, b % 32));
      assert word[..] == before[b / 32 := Or(before[b / 32], ShiftLeft(1, b % 32))];
    }

    /** In-place shift towards bit 0. */
    method LeftShift(shift: nat)
      modifies word
      ensures Contents() == Shifted(old(Contents()), shift)
    {
      hide Bit, Xor, ShiftRight, ShiftLeft;
      ghost var before := word[..];
      var wordLength := word.Length;
      if shift >= 32 * wordLength {
        SetToZero();
        return;
      }
      var base, bit := shift / 32, shift % 32;
      var i := 0;
      if bit == 0 {
        while i < wordLength - base
          invariant 0 <= i <= wordLength - base
          invariant forall k :: 0 <= k < i ==> word[k] == ShiftedWord(before, shift, k)
          invariant forall k :: i <= k < wordLength ==> word[k] == before[k]
        {
          word[i] := word[i + base];
          i := i + 1;
        }
      } else {
        while i < wordLength - base - 1
          invariant 0 <= i <= wordLength - base - 1
          invariant forall k :: 0 <= k < i ==> word[k] == ShiftedWord(before, shift, k)
          invariant forall k :: i <= k < wordLength ==> word[k] == before[k]
        {
          word[i] := Xor(ShiftRight(word[i + base], bit), ShiftLeft(word[i + base + 1], 32 - bit));
          i := i + 1;
        }
        word[wordLength - base - 1] := ShiftRight(word[wordLength - 1], bit);
      }
      i := wordLength - base;
      while i < wordLength
        invariant wordLength - base <= i <= wordLength
        invariant forall k :: 0 <= k < i ==> word[k] == ShiftedWord(before, shift, k)
      {
        word[i] := 0;
        i := i + 1;
      }
      ShiftedWords(before, shift, word[..]);
    }
  }
}
