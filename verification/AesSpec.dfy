/**
 The AES transformations of FIPS 197 on 16-octet blocks, for any mutually inverse pair of
 substitution tables, and the equivalent inverse cipher of section 5.3.5.
 */
module AesSpec {
  import opened Bytes

  // ---- the field GF(2^8), modulo x^8 + x^4 + x^3 + x + 1 ----

  function M2(x: bv8): bv8 { if x & 128 != 0 then (x << 1) ^ 0x1b else x << 1 }
  function M3(x: bv8): bv8 { XorByte(M2(x), x) }
  function M8(x: bv8): bv8 { M2(M2(M2(x))) }
  function M9(x: bv8): bv8 { XorByte(M8(x), x) }
  function M11(x: bv8): bv8 { XorByte(XorByte(M8(x), M2(x)), x) }
  function M13(x: bv8): bv8 { XorByte(XorByte(M8(x), M2(M2(x))), x) }
  function M14(x: bv8): bv8 { XorByte(XorByte(M8(x), M2(M2(x))), M2(x)) }

  // ---- columns ----

  datatype Col = Col(b0: bv8, b1: bv8, b2: bv8, b3: bv8)

  function XorCol(a: Col, b: Col): Col {
    Col(XorByte(a.b0, b.b0), XorByte(a.b1, b.b1), XorByte(a.b2, b.b2), XorByte(a.b3, b.b3))
  }

  function Sum4(a: Col, b: Col, c: Col, d: Col): Col {
    XorCol(XorCol(XorCol(a, b), c), d)
  }

  // What each octet of a column contributes to the mixed column.
  function E0(x: bv8): Col { Col(M2(x), x, x, M3(x)) }
  function E1(x: bv8): Col { Col(M3(x), M2(x), x, x) }
  function E2(x: bv8): Col { Col(x, M3(x), M2(x), x) }
  function E3(x: bv8): Col { Col(x, x, M3(x), M2(x)) }

  function D0(x: bv8): Col { Col(M14(x), M9(x), M13(x), M11(x)) }
  function D1(x: bv8): Col { Col(M11(x), M14(x), M9(x), M13(x)) }
  function D2(x: bv8): Col { Col(M13(x), M11(x), M14(x), M9(x)) }
  function D3(x: bv8): Col { Col(M9(x), M13(x), M11(x), M14(x)) }

  function MixCol(c: Col): Col {
    Sum4(E0(c.b0), E1(c.b1), E2(c.b2), E3(c.b3))
  }

  function InvMixCol(c: Col): Col {
    Sum4(D0(c.b0), D1(c.b1), D2(c.b2), D3(c.b3))
  }

  // ---- blocks ----

  function ColOf(b: Block, c: nat): Col
    requires c < 4
  {
    Col(b[4 * c], b[4 * c + 1], b[4 * c + 2], b[4 * c + 3])
  }

  function BlockOf(c0: Col, c1: Col, c2: Col, c3: Col): Block {
    [c0.b0, c0.b1, c0.b2, c0.b3, c1.b0, c1.b1, c1.b2, c1.b3,
     c2.b0, c2.b1, c2.b2, c2.b3, c3.b0, c3.b1, c3.b2, c3.b3]
  }

  function MapBytes(f: bv8 -> bv8, b: Block): Block {
    seq(16, i requires 0 <= i < 16 => f(b[i]))
  }

  /** Row r of the state (octets r, r + 4, r + 8, r + 12) moves r places to the left. */
  function ShiftRows(b: Block): Block {
    [b[0], b[5], b[10], b[15], b[4], b[9], b[14], b[3], b[8], b[13], b[2], b[7], b[12], b[1], b[6], b[11]]
  }

  function InvShiftRows(b: Block): Block {
    [b[0], b[13], b[10], b[7], b[4], b[1], b[14], b[11], b[8], b[5], b[2], b[15], b[12], b[9], b[6], b[3]]
  }

  function MixColumns(b: Block): Block {
    BlockOf(MixCol(ColOf(b, 0)), MixCol(ColOf(b, 1)), MixCol(ColOf(b, 2)), MixCol(ColOf(b, 3)))
  }

  function InvMixColumns(b: Block): Block {
    BlockOf(InvMixCol(ColOf(b, 0)), InvMixCol(ColOf(b, 1)), InvMixCol(ColOf(b, 2)), InvMixCol(ColOf(b, 3)))
  }

  // ---- the cipher ----

  datatype SBox = SBox(fwd: bv8 -> bv8, inv: bv8 -> bv8)

  ghost predicate Mutual(sb: SBox) {
    && (forall x :: sb.inv(sb.fwd(x)) == x)
    && (forall x :: sb.fwd(sb.inv(x)) == x)
  }

  function SubShift(sb: SBox, b: Block): Block {
    ShiftRows(MapBytes(sb.fwd, b))
  }

  function InvSubShift(sb: SBox, b: Block): Block {
    InvShiftRows(MapBytes(sb.inv, b))
  }

  /** The state after the initial key addition and `i` full rounds. */
  function Forward(sb: SBox, ks: seq<Block>, x: Block, i: nat): Block
    requires i < |ks|
  {
    if i == 0 then Xor(x, ks[0])
    else Xor(MixColumns(SubShift(sb, Forward(sb, ks, x, i - 1))), ks[i])
  }

  /** The cipher of section 5.1 with `n` rounds, the last without MixColumns. */
  function Encrypt(sb: SBox, ks: seq<Block>, n: nat, x: Block): Block
    requires 0 < n < |ks|
  {
    Xor(SubShift(sb, Forward(sb, ks, x, n - 1)), ks[n])
  }

  function Backward(sb: SBox, ks: seq<Block>, x: Block, i: nat): Block
    requires i < |ks|
  {
    if i == 0 then Xor(x, ks[0])
    else Xor(InvMixColumns(InvSubShift(sb, Backward(sb, ks, x, i - 1))), ks[i])
  }

  /** The equivalent inverse cipher of section 5.3.5, under its own key schedule. */
  function Decrypt(sb: SBox, ks: seq<Block>, n: nat, x: Block): Block
    requires 0 < n < |ks|
  {
    Xor(InvSubShift(sb, Backward(sb, ks, x, n - 1)), ks[n])
  }

  /** The key schedule of the equivalent inverse cipher: reversed, the inner keys inverse-mixed. */
  function InverseKeys(ks: seq<Block>, n: nat): (r: seq<Block>)
    requires n < |ks|
    ensures |r| == |ks|
  {
    seq(|ks|, i requires 0 <= i < |ks| =>
      if i > n then ks[i] else if 0 < i < n then InvMixColumns(ks[n - i]) else ks[n - i])
  }

  // ---- the matrices and moves of the standard, spelled out ----

  /** Doubling is multiplication by x modulo x^8 + x^4 + x^3 + x + 1. */
  lemma DoubleIs(x: bv8)
    ensures M2(x) as bv16 == (x as bv16 << 1) ^ if x as bv16 & 0x80 != 0 then 0x11b else 0
    ensures M2(0x57) == 0xae && M2(0xae) == 0x47 && M2(0x47) == 0x8e && M2(0x8e) == 0x07
  {
  }

  /** The matrix of MixColumns, section 5.1.3 of FIPS 197. */
  lemma MixColIs(c: Col)
    ensures var m := MixCol(c);
            && m.b0 == Xor4(M2(c.b0), XorByte(M2(c.b1), c.b1), c.b2, c.b3)
            && m.b1 == Xor4(c.b0, M2(c.b1), XorByte(M2(c.b2), c.b2), c.b3)
            && m.b2 == Xor4(c.b0, c.b1, M2(c.b2), XorByte(M2(c.b3), c.b3))
            && m.b3 == Xor4(XorByte(M2(c.b0), c.b0), c.b1, c.b2, M2(c.b3))
  {
    hide M2, XorByte;
  }

  function Xor4(a: bv8, b: bv8, c: bv8, d: bv8): bv8 {
    XorByte(XorByte(XorByte(a, b), c), d)
  }

  /** Row r of the state moves r columns to the left. */
  lemma ShiftRowsIsRotation(b: Block, r: nat, c: nat)
    requires r < 4 && c < 4
    ensures ShiftRows(b)[4 * c + r] == b[4 * ((c + r) % 4) + r]
  {
    assert c == 0 || c == 1 || c == 2 || c == 3;
    assert r == 0 || r == 1 || r == 2 || r == 3;
  }

  /** Columns are mixed one by one. */
  lemma MixColumnsIs(b: Block, c: nat)
    requires c < 4
    ensures ColOf(MixColumns(b), c) == MixCol(Col(b[4 * c], b[4 * c + 1], b[4 * c + 2], b[4 * c + 3]))
  {
    hide MixCol;
    assert c == 0 || c == 1 || c == 2 || c == 3;
  }

  /** The column of a state that SubBytes and ShiftRows bring together, row by row. */
  function Gathered(sb: SBox, s: Block, c: nat): Col
    requires c < 4
  {
    Col(sb.fwd(s[4 * c]), sb.fwd(s[4 * ((c + 1) % 4) + 1]), sb.fwd(s[4 * ((c + 2) % 4) + 2]), sb.fwd(s[4 * ((c + 3) % 4) + 3]))
  }

  lemma GatheredIs(sb: SBox, s: Block, c: nat)
    requires c < 4
    ensures ColOf(SubShift(sb, s), c) == Gathered(sb, s, c)
  {
    assert c == 0 || c == 1 || c == 2 || c == 3;
  }

  /** What goes into the first round: the block and the first round key. */
  lemma BeforeFirstRound(sb: SBox, ks: seq<Block>, x: Block, k: nat)
    requires ks != [] && k < 16
    ensures Forward(sb, ks, x, 0)[k] == XorByte(x[k], ks[0][k])
  {
  }

  /** A full round, column by column. */
  lemma RoundColumn(sb: SBox, ks: seq<Block>, x: Block, i: nat, c: nat)
    requires 0 < i < |ks| && c < 4
    ensures ColOf(Forward(sb, ks, x, i), c)
            == XorCol(MixCol(Gathered(sb, Forward(sb, ks, x, i - 1), c)), ColOf(ks[i], c))
  {
    hide XorByte, Xor, SubShift, MixColumns, MixCol, Gathered, XorCol;
    var s := Forward(sb, ks, x, i - 1);
    GatheredIs(sb, s, c);
    MixColumnsIs(SubShift(sb, s), c);
    XorBlockColumns(MixColumns(SubShift(sb, s)), ks[i]);
  }

  /** The last round does not mix. */
  lemma LastRoundColumn(sb: SBox, ks: seq<Block>, n: nat, x: Block, c: nat)
    requires 0 < n < |ks| && c < 4
    ensures ColOf(Encrypt(sb, ks, n, x), c) == XorCol(Gathered(sb, Forward(sb, ks, x, n - 1), c), ColOf(ks[n], c))
  {
    hide XorByte, Xor, SubShift, Gathered, Forward, ColOf, XorCol;
    GatheredIs(sb, Forward(sb, ks, x, n - 1), c);
    XorBlockColumns(SubShift(sb, Forward(sb, ks, x, n - 1)), ks[n]);
  }

  // ---- field and column facts ----

  function Twice(x: bv8): bv8 { x << 1 }
  function Carry(x: bv8): bv8 { if x & 128 != 0 then 0x1b else 0 }

  lemma M2Parts(x: bv8)
    ensures M2(x) == XorByte(Twice(x), Carry(x))
  {
  }

  lemma TwiceLinear(x: bv8, y: bv8)
    ensures Twice(XorByte(x, y)) == XorByte(Twice(x), Twice(y))
  {
    assert (x ^ y) << 1 == (x << 1) ^ (y << 1);
  }

  lemma CarryLinear(x: bv8, y: bv8)
    ensures Carry(XorByte(x, y)) == XorByte(Carry(x), Carry(y))
  {
    assert ((x ^ y) & 128 != 0) == ((x & 128 != 0) != (y & 128 != 0));
  }

  lemma M2Linear(x: bv8, y: bv8)
    ensures M2(XorByte(x, y)) == XorByte(M2(x), M2(y))
  {
    hide M2, XorByte, Twice, Carry;
    M2Parts(x);
    M2Parts(y);
    M2Parts(XorByte(x, y));
    TwiceLinear(x, y);
    CarryLinear(x, y);
    XorByteAc(Twice(x), Twice(y), Carry(x), Carry(y));
  }

  lemma XorByteAc(a: bv8, b: bv8, c: bv8, d: bv8)
    ensures XorByte(XorByte(a, b), XorByte(c, d)) == XorByte(XorByte(a, c), XorByte(b, d))
  {
    hide XorByte;
    XorAssoc(a, b, XorByte(c, d));
    XorAssoc(b, c, d);
    XorComm(b, c);
    XorAssoc(c, b, d);
    XorAssoc(a, c, XorByte(b, d));
  }

  lemma MulLinear(x: bv8, y: bv8)
    ensures M9(XorByte(x, y)) == XorByte(M9(x), M9(y))
    ensures M11(XorByte(x, y)) == XorByte(M11(x), M11(y))
    ensures M13(XorByte(x, y)) == XorByte(M13(x), M13(y))
    ensures M14(XorByte(x, y)) == XorByte(M14(x), M14(y))
  {
    hide M2, XorByte;
    var x2, y2, x4, y4, x8, y8 := M2(x), M2(y), M2(M2(x)), M2(M2(y)), M8(x), M8(y);
    M2Linear(x, y);
    M2Linear(x2, y2);
    M2Linear(x4, y4);
    XorByteAc(x8, y8, x, y);
    XorByteAc(x8, y8, x2, y2);
    XorByteAc(x8, y8, x4, y4);
    XorByteAc(XorByte(x8, x2), XorByte(y8, y2), x, y);
    XorByteAc(XorByte(x8, x4), XorByte(y8, y4), x, y);
    XorByteAc(XorByte(x8, x4), XorByte(y8, y4), x2, y2);
  }

  lemma XorColAc(a: Col, b: Col, c: Col, d: Col)
    ensures XorCol(XorCol(a, b), XorCol(c, d)) == XorCol(XorCol(a, c), XorCol(b, d))
  {
    hide XorByte;
    XorByteAc(a.b0, b.b0, c.b0, d.b0);
    XorByteAc(a.b1, b.b1, c.b1, d.b1);
    XorByteAc(a.b2, b.b2, c.b2, d.b2);
    XorByteAc(a.b3, b.b3, c.b3, d.b3);
  }

  lemma DLinear(x: bv8, y: bv8)
    ensures D0(XorByte(x, y)) == XorCol(D0(x), D0(y))
    ensures D1(XorByte(x, y)) == XorCol(D1(x), D1(y))
    ensures D2(XorByte(x, y)) == XorCol(D2(x), D2(y))
    ensures D3(XorByte(x, y)) == XorCol(D3(x), D3(y))
  {
    hide XorByte, M9, M11, M13, M14;
    MulLinear(x, y);
  }

  lemma InvMixColLinear(a: Col, b: Col)
    ensures InvMixCol(XorCol(a, b)) == XorCol(InvMixCol(a), InvMixCol(b))
  {
    hide XorByte, D0, D1, D2, D3;
    DLinear(a.b0, b.b0);
    DLinear(a.b1, b.b1);
    DLinear(a.b2, b.b2);
    DLinear(a.b3, b.b3);
    Sum4Ac(D0(a.b0), D1(a.b1), D2(a.b2), D3(a.b3), D0(b.b0), D1(b.b1), D2(b.b2), D3(b.b3));
  }

  lemma Sum4Ac(a: Col, b: Col, c: Col, d: Col, a': Col, b': Col, c': Col, d': Col)
    ensures Sum4(XorCol(a, a'), XorCol(b, b'), XorCol(c, c'), XorCol(d, d')) == XorCol(Sum4(a, b, c, d), Sum4(a', b', c', d'))
  {
    hide XorCol;
    XorColAc(a, a', b, b');
    XorColAc(XorCol(a, b), XorCol(a', b'), c, c');
    XorColAc(XorCol(XorCol(a, b), c), XorCol(XorCol(a', b'), c'), d, d');
  }

  lemma E0Linear(x: bv8, y: bv8)
    ensures E0(XorByte(x, y)) == XorCol(E0(x), E0(y))
  {
    hide M2, XorByte;
    M2Linear(x, y);
    XorByteAc(M2(x), M2(y), x, y);
  }

  // One octet mixed and inverse-mixed, by its halves.

  lemma InvMixOfLow(x: bv8)
    requires x & 0xf0 == 0
    ensures InvMixCol(E0(x)) == Col(x, 0, 0, 0)
  {
  }

  lemma InvMixOfHigh(x: bv8)
    requires x & 0x0f == 0
    ensures InvMixCol(E0(x)) == Col(x, 0, 0, 0)
  {
  }

  lemma Halves(x: bv8)
    ensures (x & 0x0f) & 0xf0 == 0 && (x & 0xf0) & 0x0f == 0
    ensures XorByte(x & 0x0f, x & 0xf0) == x
  {
  }

  lemma InvMixOfE0(x: bv8)
    ensures InvMixCol(E0(x)) == Col(x, 0, 0, 0)
  {
    hide InvMixCol, E0, XorByte;
    var low, high := x & 0x0f, x & 0xf0;
    Halves(x);
    InvMixOfLow(low);
    InvMixOfHigh(high);
    E0Linear(low, high);
    InvMixColLinear(E0(low), E0(high));
    XorZero(0);
  }

  function Turned(c: Col): Col {
    Col(c.b3, c.b0, c.b1, c.b2)
  }

  lemma XorTurned(a: bv8, b: bv8, c: bv8, d: bv8)
    ensures XorByte(XorByte(XorByte(d, a), b), c) == XorByte(XorByte(XorByte(a, b), c), d)
  {
  }

  /** The matrix is circulant: a turned column goes to the turned column. */
  lemma InvMixTurned(c: Col)
    ensures InvMixCol(Turned(c)) == Turned(InvMixCol(c))
  {
    hide XorByte, M9, M11, M13, M14;
    XorTurned(M14(c.b0), M11(c.b1), M13(c.b2), M9(c.b3));
    XorTurned(M9(c.b0), M14(c.b1), M11(c.b2), M13(c.b3));
    XorTurned(M13(c.b0), M9(c.b1), M14(c.b2), M11(c.b3));
    XorTurned(M11(c.b0), M13(c.b1), M9(c.b2), M14(c.b3));
  }

  /** One octet mixed and inverse-mixed comes back alone. */
  lemma InvMixOfE(x: bv8)
    ensures InvMixCol(E0(x)) == Col(x, 0, 0, 0)
    ensures InvMixCol(E1(x)) == Col(0, x, 0, 0)
    ensures InvMixCol(E2(x)) == Col(0, 0, x, 0)
    ensures InvMixCol(E3(x)) == Col(0, 0, 0, x)
  {
    hide InvMixCol, M2, M3;
    InvMixOfE0(x);
    InvMixTurned(E0(x));
    InvMixTurned(E1(x));
    InvMixTurned(E2(x));
  }

  lemma InvMixColUndoes(c: Col)
    ensures InvMixCol(MixCol(c)) == c
  {
    hide E0, E1, E2, E3, D0, D1, D2, D3, InvMixCol, XorByte;
    var e0, e1, e2, e3 := E0(c.b0), E1(c.b1), E2(c.b2), E3(c.b3);
    InvMixColLinear(e0, e1);
    InvMixColLinear(XorCol(e0, e1), e2);
    InvMixColLinear(XorCol(XorCol(e0, e1), e2), e3);
    InvMixOfE(c.b0);
    InvMixOfE(c.b1);
    InvMixOfE(c.b2);
    InvMixOfE(c.b3);
    XorZero(c.b0);
    XorZero(c.b1);
    XorZero(c.b2);
    XorZero(c.b3);
    XorZero(0);
  }

  // ---- block facts ----

  lemma ColumnsOfBlock(c0: Col, c1: Col, c2: Col, c3: Col)
    ensures var b := BlockOf(c0, c1, c2, c3);
            ColOf(b, 0) == c0 && ColOf(b, 1) == c1 && ColOf(b, 2) == c2 && ColOf(b, 3) == c3
  {
  }

  lemma BlockOfColumns(b: Block)
    ensures BlockOf(ColOf(b, 0), ColOf(b, 1), ColOf(b, 2), ColOf(b, 3)) == b
  {
  }

  lemma InvMixColumnsUndoes(b: Block)
    ensures InvMixColumns(MixColumns(b)) == b
  {
    hide MixCol, InvMixCol, BlockOf, ColOf;
    ColumnsOfBlock(MixCol(ColOf(b, 0)), MixCol(ColOf(b, 1)), MixCol(ColOf(b, 2)), MixCol(ColOf(b, 3)));
    InvMixColUndoes(ColOf(b, 0));
    InvMixColUndoes(ColOf(b, 1));
    InvMixColUndoes(ColOf(b, 2));
    InvMixColUndoes(ColOf(b, 3));
    BlockOfColumns(b);
  }

  lemma XorBlockColumns(a: Block, b: Block)
    ensures forall c :: 0 <= c < 4 ==> ColOf(Xor(a, b), c) == XorCol(ColOf(a, c), ColOf(b, c))
  {
    hide XorByte;
  }

  lemma SameColumns(a: Block, b: Block)
    requires ColOf(a, 0) == ColOf(b, 0) && ColOf(a, 1) == ColOf(b, 1) && ColOf(a, 2) == ColOf(b, 2) && ColOf(a, 3) == ColOf(b, 3)
    ensures a == b
  {
    hide BlockOf;
    BlockOfColumns(a);
    BlockOfColumns(b);
  }

  lemma XorOfBlocks(a0: Col, a1: Col, a2: Col, a3: Col, b0: Col, b1: Col, b2: Col, b3: Col)
    ensures Xor(BlockOf(a0, a1, a2, a3), BlockOf(b0, b1, b2, b3))
            == BlockOf(XorCol(a0, b0), XorCol(a1, b1), XorCol(a2, b2), XorCol(a3, b3))
  {
    hide XorByte, XorCol, BlockOf, ColOf, Xor;
    XorBlockColumns(BlockOf(a0, a1, a2, a3), BlockOf(b0, b1, b2, b3));
    ColumnsOfBlock(a0, a1, a2, a3);
    ColumnsOfBlock(b0, b1, b2, b3);
    ColumnsOfBlock(XorCol(a0, b0), XorCol(a1, b1), XorCol(a2, b2), XorCol(a3, b3));
    SameColumns(Xor(BlockOf(a0, a1, a2, a3), BlockOf(b0, b1, b2, b3)),
                BlockOf(XorCol(a0, b0), XorCol(a1, b1), XorCol(a2, b2), XorCol(a3, b3)));
  }

  lemma InvMixColumnsLinear(a: Block, b: Block)
    ensures InvMixColumns(Xor(a, b)) == Xor(InvMixColumns(a), InvMixColumns(b))
  {
    hide InvMixCol, BlockOf, ColOf, Xor, XorCol;
    XorBlockColumns(a, b);
    InvMixColLinear(ColOf(a, 0), ColOf(b, 0));
    InvMixColLinear(ColOf(a, 1), ColOf(b, 1));
    InvMixColLinear(ColOf(a, 2), ColOf(b, 2));
    InvMixColLinear(ColOf(a, 3), ColOf(b, 3));
    XorOfBlocks(InvMixCol(ColOf(a, 0)), InvMixCol(ColOf(a, 1)), InvMixCol(ColOf(a, 2)), InvMixCol(ColOf(a, 3)),
                InvMixCol(ColOf(b, 0)), InvMixCol(ColOf(b, 1)), InvMixCol(ColOf(b, 2)), InvMixCol(ColOf(b, 3)));
  }

  lemma InvShiftRowsUndoes(b: Block)
    ensures InvShiftRows(ShiftRows(b)) == b
  {
  }

  lemma ShiftRowsMap(f: bv8 -> bv8, b: Block)
    ensures MapBytes(f, ShiftRows(b)) == ShiftRows(MapBytes(f, b))
  {
  }

  lemma InvMapUndoes(sb: SBox, b: Block)
    requires Mutual(sb)
    ensures MapBytes(sb.inv, MapBytes(sb.fwd, b)) == b
  {
    forall i | 0 <= i < 16
      ensures MapBytes(sb.inv, MapBytes(sb.fwd, b))[i] == b[i]
    {
      assert sb.inv(sb.fwd(b[i])) == b[i];
    }
  }

  lemma InvSubShiftUndoes(sb: SBox, b: Block)
    requires Mutual(sb)
    ensures InvSubShift(sb, SubShift(sb, b)) == b
  {
    hide MapBytes, ShiftRows, InvShiftRows, Mutual;
    ShiftRowsMap(sb.inv, MapBytes(sb.fwd, b));
    InvMapUndoes(sb, b);
    InvShiftRowsUndoes(b);
  }

  /** After `i` rounds of decryption the state is what entered the last `i` key additions of encryption. */
  lemma {:induction false} BackwardMeetsForward(sb: SBox, ks: seq<Block>, n: nat, x: Block, i: nat)
    requires Mutual(sb) && 0 < n < |ks| && i < n
    ensures Backward(sb, InverseKeys(ks, n), Encrypt(sb, ks, n, x), i) == SubShift(sb, Forward(sb, ks, x, n - 1 - i))
  {
    hide SubShift, InvSubShift, MixColumns, InvMixColumns, Xor, Mutual;
    var iks, y := InverseKeys(ks, n), Encrypt(sb, ks, n, x);
    if i == 0 {
      XorBlockCancels(SubShift(sb, Forward(sb, ks, x, n - 1)), ks[n]);
    } else {
      BackwardMeetsForward(sb, ks, n, x, i - 1);
      var s := Forward(sb, ks, x, n - i);
      var mixed := MixColumns(SubShift(sb, Forward(sb, ks, x, n - 1 - i)));
      assert s == Xor(mixed, ks[n - i]);
      InvSubShiftUndoes(sb, s);
      InvMixColumnsLinear(mixed, ks[n - i]);
      InvMixColumnsUndoes(SubShift(sb, Forward(sb, ks, x, n - 1 - i)));
      XorBlockCancels(InvMixColumns(mixed), InvMixColumns(ks[n - i]));
    }
  }

  /** Decryption under the inverse schedule undoes encryption, for every schedule and block. */
  lemma DecryptUndoesEncrypt(sb: SBox, ks: seq<Block>, n: nat, x: Block)
    requires Mutual(sb) && 0 < n < |ks|
    ensures Decrypt(sb, InverseKeys(ks, n), n, Encrypt(sb, ks, n, x)) == x
  {
    hide SubShift, InvSubShift, MixColumns, InvMixColumns, Xor, Mutual, Encrypt;
    BackwardMeetsForward(sb, ks, n, x, n - 1);
    InvSubShiftUndoes(sb, Forward(sb, ks, x, 0));
    XorBlockCancels(x, ks[0]);
  }
}
