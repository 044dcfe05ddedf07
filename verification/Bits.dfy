/**
 32-bit words bit by bit.  The C operators are named functions (ShiftRight, ShiftLeft,
 Xor, Or); `Bit`, `Shr` and `Shl` walk one position at a time, and the lemmas say what
 each operator does to a single bit.
 */
module Bits {

  // ---- the operators of the code ----

  function ShiftRight(w: bv32, k: nat): bv32
    requires k <= 32
  {
    w >> k
  }

  function ShiftLeft(w: bv32, k: nat): bv32
    requires k <= 32
  {
    w << k
  }

  function Xor(a: bv32, b: bv32): bv32 {
    a ^ b
  }

  function Or(a: bv32, b: bv32): bv32 {
    a | b
  }

  predicate Low(w: bv32) {
    w & 1 == 1
  }

  // ---- one position at a time ----

  function Half(w: bv32): bv32 {
    w >> 1
  }

  function Twice(w: bv32): bv32 {
    w << 1
  }

  /** Bit `i` of word `w`, counted from the low-order end. */
  predicate Bit(w: bv32, i: nat)
    decreases i
  {
    if i == 0 then Low(w) else Bit(Half(w), i - 1)
  }

  function Shr(w: bv32, k: nat): bv32
    decreases k
  {
    if k == 0 then w else Shr(Half(w), k - 1)
  }

  function Shl(w: bv32, k: nat): bv32
    decreases k
  {
    if k == 0 then w else Shl(Twice(w), k - 1)
  }

  function RightBv(w: bv32, k: bv6): bv32
    requires k <= 32
  {
    w >> k
  }

  function LeftBv(w: bv32, k: bv6): bv32
    requires k <= 32
  {
    w << k
  }

  function Amount(b: bv6): nat { b as nat }

  lemma AmountOf(k: nat)
    requires k < 64
    ensures Amount(k as bv6) == k
  {
  }

  lemma AmountNext(b: bv6)
    requires b < 32
    ensures Amount(b + 1) == Amount(b) + 1
  {
  }

  lemma SameAmount(a: bv6, b: bv6)
    requires Amount(a) == Amount(b)
    ensures a == b
  {
  }

  lemma SmallAmount(b: bv6)
    ensures b < 32 <==> Amount(b) < 32
  {
  }

  /** Shift amounts below 32 survive the conversion to a 6-bit value, and so does adding one. */
  lemma AmountStep(k: nat)
    requires k < 32
    ensures k as bv6 < 32
    ensures (k + 1) as bv6 == (k as bv6) + 1
  {
    hide Amount;
    AmountOf(k);
    AmountOf(k + 1);
    SmallAmount(k as bv6);
    AmountNext(k as bv6);
    SameAmount((k + 1) as bv6, k as bv6 + 1);
  }

  lemma BvAmount(w: bv32, k: nat)
    requires k <= 32 && k as bv6 <= 32
    ensures ShiftRight(w, k) == RightBv(w, k as bv6)
    ensures ShiftLeft(w, k) == LeftBv(w, k as bv6)
  {
  }

  lemma RightStepBv(w: bv32, k: bv6)
    requires k < 32
    ensures RightBv(Half(w), k) == RightBv(w, k + 1)
  {
    assert (w >> 1) >> k == w >> (k + 1);
  }

  lemma LeftStepBv(w: bv32, k: bv6)
    requires k < 32
    ensures LeftBv(Twice(w), k) == LeftBv(w, k + 1)
  {
    assert (w << 1) << k == w << (k + 1);
  }

  lemma RightStep(w: bv32, k: nat)
    requires k < 32
    ensures ShiftRight(Half(w), k) == ShiftRight(w, k + 1)
  {
    AmountStep(k);
    var a, b := k as bv6, (k + 1) as bv6;
    hide *;
    RightStepBv(w, a);
    BvAmount(Half(w), k);
    BvAmount(w, k + 1);
  }

  lemma LeftStep(w: bv32, k: nat)
    requires k < 32
    ensures ShiftLeft(Twice(w), k) == ShiftLeft(w, k + 1)
  {
    AmountStep(k);
    var a, b := k as bv6, (k + 1) as bv6;
    hide *;
    LeftStepBv(w, a);
    BvAmount(Twice(w), k);
    BvAmount(w, k + 1);
  }

  lemma NoShift(w: bv32)
    ensures ShiftRight(w, 0) == w && ShiftLeft(w, 0) == w
  {
  }

  lemma {:induction false} ShiftRightIsShr(w: bv32, k: nat)
    requires k <= 32
    ensures ShiftRight(w, k) == Shr(w, k)
    decreases k
  {
    if k == 0 {
      NoShift(w);
    } else {
      RightStep(w, k - 1);
      hide ShiftRight, Half;
      ShiftRightIsShr(Half(w), k - 1);
    }
  }

  lemma {:induction false} ShiftLeftIsShl(w: bv32, k: nat)
    requires k <= 32
    ensures ShiftLeft(w, k) == Shl(w, k)
    decreases k
  {
    if k == 0 {
      NoShift(w);
    } else {
      LeftStep(w, k - 1);
      hide ShiftLeft, Twice;
      ShiftLeftIsShl(Twice(w), k - 1);
    }
  }

  // ---- what each operator does to one bit ----

  lemma {:induction false} BitIsShr(w: bv32, i: nat)
    ensures Bit(w, i) == Low(Shr(w, i))
    decreases i
  {
    if i > 0 {
      BitIsShr(Half(w), i - 1);
    }
  }

  /** `(w >> i) & 1` reads bit `i`. */
  lemma BitIsMasked(w: bv32, i: nat)
    requires i < 32
    ensures Bit(w, i) == Low(ShiftRight(w, i))
  {
    BitIsShr(w, i);
    ShiftRightIsShr(w, i);
  }

  lemma ZeroAndOne()
    ensures Half(0) == 0 && Half(1) == 0 && !Low(0) && Low(1)
  {
  }

  lemma {:induction false} ZeroBit(i: nat)
    ensures !Bit(0, i)
    decreases i
  {
    ZeroAndOne();
    if i > 0 {
      ZeroBit(i - 1);
    }
  }

  lemma XorStep(a: bv32, b: bv32)
    ensures Half(Xor(a, b)) == Xor(Half(a), Half(b))
    ensures Low(Xor(a, b)) == (Low(a) != Low(b))
  {
  }

  lemma {:induction false} XorBit(a: bv32, b: bv32, i: nat)
    ensures Bit(Xor(a, b), i) == (Bit(a, i) != Bit(b, i))
    decreases i
  {
    hide Xor, Half, Low;
    XorStep(a, b);
    if i > 0 {
      XorBit(Half(a), Half(b), i - 1);
    }
  }

  lemma OrStep(a: bv32, b: bv32)
    ensures Half(Or(a, b)) == Or(Half(a), Half(b))
    ensures Low(Or(a, b)) == (Low(a) || Low(b))
  {
  }

  lemma {:induction false} OrBit(a: bv32, b: bv32, i: nat)
    ensures Bit(Or(a, b), i) == (Bit(a, i) || Bit(b, i))
    decreases i
  {
    hide Or, Half, Low;
    OrStep(a, b);
    if i > 0 {
      OrBit(Half(a), Half(b), i - 1);
    }
  }

  lemma {:induction false} ShrBit(w: bv32, k: nat, i: nat)
    ensures Bit(Shr(w, k), i) == Bit(w, i + k)
    decreases k
  {
    if k > 0 {
      ShrBit(Half(w), k - 1, i);
    }
  }

  lemma ShiftedOut(w: bv32)
    ensures ShiftRight(w, 32) == 0
  {
  }

  /** A word has no bit past position 31. */
  lemma NoHighBit(w: bv32, i: nat)
    requires i >= 32
    ensures !Bit(w, i)
  {
    ShrBit(w, 32, i - 32);
    ShiftRightIsShr(w, 32);
    ShiftedOut(w);
    ZeroBit(i - 32);
  }

  lemma TwiceLowBv(w: bv32, i: bv6)
    requires i < 31
    ensures Low(RightBv(Twice(w), i + 1)) == Low(RightBv(w, i))
  {
    assert ((w << 1) >> (i + 1)) & 1 == (w >> i) & 1;
  }

  lemma TwiceLow(w: bv32, i: nat)
    requires i < 31
    ensures Low(ShiftRight(Twice(w), i + 1)) == Low(ShiftRight(w, i))
  {
    assert (i as bv6) as nat == i;
    AmountStep(i);
    hide RightBv, LeftBv, Twice, ShiftRight, ShiftLeft, Low;
    TwiceLowBv(w, i as bv6);
    BvAmount(Twice(w), i + 1);
    BvAmount(w, i);
  }

  lemma TwiceBit(w: bv32, i: nat)
    requires i < 32
    ensures Bit(Twice(w), i) == (i > 0 && Bit(w, i - 1))
  {
    if i > 0 {
      BitIsMasked(Twice(w), i);
      BitIsMasked(w, i - 1);
      TwiceLow(w, i - 1);
    }
  }

  lemma {:induction false} ShlBit(w: bv32, k: nat, i: nat)
    requires i < 32
    ensures Bit(Shl(w, k), i) == (i >= k && Bit(w, i - k))
    decreases k
  {
    if k > 0 {
      ShlBit(Twice(w), k - 1, i);
      if i >= k - 1 {
        TwiceBit(w, i - (k - 1));
      }
    }
  }

  /** The word the shift loops assemble from the high part of one word and the low part of the next. */
  lemma FunnelBit(a: bv32, b: bv32, k: nat, i: nat)
    requires 0 < k < 32 && i < 32
    ensures Bit(Xor(ShiftRight(a, k), ShiftLeft(b, 32 - k)), i)
            == if i + k < 32 then Bit(a, i + k) else Bit(b, i + k - 32)
  {
    hide Xor, ShiftRight, ShiftLeft;
    ShiftRightIsShr(a, k);
    ShiftLeftIsShl(b, 32 - k);
    ShrBit(a, k, i);
    ShlBit(b, 32 - k, i);
    XorBit(Shr(a, k), Shl(b, 32 - k), i);
    if i + k >= 32 {
      NoHighBit(a, i + k);
    }
  }

  /** `w |= 1 << k` sets bit `k` and no other. */
  lemma SetBitIsOr(w: bv32, k: nat, i: nat)
    requires k < 32 && i < 32
    ensures Bit(Or(w, ShiftLeft(1, k)), i) == (i == k || Bit(w, i))
  {
    hide Or, ShiftLeft, Low, Half;
    ShiftLeftIsShl(1, k);
    OrBit(w, Shl(1, k), i);
    ShlBit(1, k, i);
    ZeroAndOne();
    if i > k {
      ZeroBit(i - k - 1);
    }
  }
}
