/**
  The cipher of FIPS 197, written from the standard: S-box from the inverse and the affine map,
  the round transformations on a state of four columns, the cipher of section 5.1, the key
  expansion of section 5.2 and the equivalent inverse cipher of section 5.3.5.
*/
module AesSpec {
  import opened GaloisField

  // ---- the S-box (sections 5.1.1 and 5.3.2)

  lemma MulZero(b: bv8)
    ensures Mul(0, b) == 0
  {
    MulUnrolled(0, b);
    hide Mul;
  }

  lemma {:induction false} MulBitsByZero(a: bv8, n: nat)
    ensures MulBits(a, 0, n) == 0
    decreases n
  {
    if n > 0 {
      MulBitsByZero(Xtime(a), n - 1);
    }
  }

  lemma InverseExists(x: bv8) returns (y: bv8)
    requires x != 0
    ensures Mul(x, y) == 1 && Mul(y, x) == 1
  {
    var i := ExpSurjective(x);
    y := Exp(255 - i);
    hide Mul, Exp;
    ExpAdd(i, 255 - i);
    ExpAdd(255 - i, i);
    ExpFifteensOn();
  }

  lemma CancelPower(i: nat, j: nat, k: nat)
    requires i < 255 && Exp(i + j) == Exp(i + k)
    ensures Exp(j) == Exp(k)
  {
    hide Mul, Exp;
    ExpAdd(255 - i, i + j);
    ExpAdd(255 - i, i + k);
    ExpPeriod(j);
    ExpPeriod(k);
    assert 255 - i + (i + j) == j + 255 && 255 - i + (i + k) == k + 255;
  }

  lemma InverseUnique(x: bv8, y: bv8, z: bv8)
    requires Mul(x, y) == 1 && Mul(x, z) == 1
    ensures y == z
  {
    NonzeroFactors(x, y);
    NonzeroFactors(x, z);
    hide Mul, Exp;
    var i := ExpSurjective(x);
    var j := ExpSurjective(y);
    var k := ExpSurjective(z);
    ExpAdd(i, j);
    ExpAdd(i, k);
    CancelPower(i, j, k);
  }

  lemma NonzeroFactors(x: bv8, y: bv8)
    requires Mul(x, y) != 0
    ensures x != 0 && y != 0
  {
    MulBitsByZero(x, 8);
    MulZero(y);
  }

  /** The multiplicative inverse, with 0 for 0. */
  ghost function Inverse(x: bv8): (y: bv8)
    ensures x == 0 ==> y == 0
    ensures x != 0 ==> Mul(x, y) == 1 && Mul(y, x) == 1
  {
    if x == 0 then 0
    else
      assert exists y :: Mul(x, y) == 1 && Mul(y, x) == 1 by { var y := InverseExists(x); }
      var y :| Mul(x, y) == 1 && Mul(y, x) == 1;
      y
  }

  lemma InverseInvolution(x: bv8)
    ensures Inverse(Inverse(x)) == x
  {
    var y := Inverse(x);
    hide Mul, Inverse;
    if x != 0 {
      NonzeroFactors(x, y);
      InverseUnique(y, Inverse(y), x);
    }
  }

  function Rotl8(x: bv8, n: nat): bv8
    requires n <= 8
  {
    (x << n) | (x >> (8 - n))
  }

  /** Bit i of a byte. */
  function Bit(x: bv8, i: nat): bool
    requires i < 8
  {
    (x >> i) & 1 == 1
  }

  /** The sum of six bits. */
  function Sum6(a: bool, b: bool, c: bool, d: bool, e: bool, f: bool): bool
  {
    ((((a != b) != c) != d) != e) != f
  }

  /** Equation 5.1 of section 5.1.1: b'_i = b_i + b_(i+4) + b_(i+5) + b_(i+6) + b_(i+7) + c_i, indices mod 8. */
  ghost predicate AffineBit(b: bv8, b': bv8, i: nat)
    requires i < 8
  {
    Bit(b', i) == Sum6(Bit(b, i), Bit(b, (i + 4) % 8), Bit(b, (i + 5) % 8), Bit(b, (i + 6) % 8),
                       Bit(b, (i + 7) % 8), Bit(0x63, i))
  }

  function Affine(b: bv8): bv8
  {
    b ^ Rotl8(b, 1) ^ Rotl8(b, 2) ^ Rotl8(b, 3) ^ Rotl8(b, 4) ^ 0x63
  }

  function InvAffine(b: bv8): bv8
  {
    Rotl8(b, 1) ^ Rotl8(b, 3) ^ Rotl8(b, 6) ^ 0x05
  }

  lemma AffineIsFipsLow(b: bv8, i: nat)
    requires i < 4
    ensures AffineBit(b, Affine(b), i)
  {
    if i == 0 {
    } else if i == 1 {
    } else if i == 2 {
    } else {
      assert i == 3;
    }
  }

  lemma AffineIsFipsHigh(b: bv8, i: nat)
    requires 4 <= i < 8
    ensures AffineBit(b, Affine(b), i)
  {
    if i == 4 {
    } else if i == 5 {
    } else if i == 6 {
    } else {
      assert i == 7;
    }
  }

  /** The rotations the code uses compute the affine map of the standard, bit by bit. */
  lemma AffineIsFips(b: bv8, i: nat)
    requires i < 8
    ensures AffineBit(b, Affine(b), i)
  {
    if i < 4 {
      AffineIsFipsLow(b, i);
    } else {
      AffineIsFipsHigh(b, i);
    }
  }

  lemma AffineInverse(b: bv8)
    ensures InvAffine(Affine(b)) == b
  {
  }

  ghost function Sbox(x: bv8): bv8
  {
    Affine(Inverse(x))
  }

  ghost function InvSbox(y: bv8): bv8
  {
    Inverse(InvAffine(y))
  }

  lemma InvSboxSbox(x: bv8)
    ensures InvSbox(Sbox(x)) == x
  {
    hide Affine, InvAffine, Inverse;
    AffineInverse(Inverse(x));
    InverseInvolution(x);
  }

  // ---- columns and state (sections 3.4, 5.1.2 to 5.1.4, 5.3.1 and 5.3.3)

  datatype Col = Col(b0: bv8, b1: bv8, b2: bv8, b3: bv8)

  datatype State = State(c0: Col, c1: Col, c2: Col, c3: Col)

  function AddCol(x: Col, y: Col): Col
  {
    Col(Add(x.b0, y.b0), Add(x.b1, y.b1), Add(x.b2, y.b2), Add(x.b3, y.b3))
  }

  function Dot(a: bv8, b: bv8, c: bv8, d: bv8, x: Col): bv8
  {
    Add(Add(Mul(a, x.b0), Mul(b, x.b1)), Add(Mul(c, x.b2), Mul(d, x.b3)))
  }

  function MixColumn(x: Col): Col
  {
    Col(Dot(2, 3, 1, 1, x), Dot(1, 2, 3, 1, x), Dot(1, 1, 2, 3, x), Dot(3, 1, 1, 2, x))
  }

  function InvMixColumn(x: Col): Col
  {
    Col(Dot(14, 11, 13, 9, x), Dot(9, 14, 11, 13, x), Dot(13, 9, 14, 11, x), Dot(11, 13, 9, 14, x))
  }

  ghost function SubCol(x: Col): Col
  {
    Col(Sbox(x.b0), Sbox(x.b1), Sbox(x.b2), Sbox(x.b3))
  }

  ghost function InvSubCol(x: Col): Col
  {
    Col(InvSbox(x.b0), InvSbox(x.b1), InvSbox(x.b2), InvSbox(x.b3))
  }

  ghost function SubBytes(s: State): State
  {
    State(SubCol(s.c0), SubCol(s.c1), SubCol(s.c2), SubCol(s.c3))
  }

  ghost function InvSubBytes(s: State): State
  {
    State(InvSubCol(s.c0), InvSubCol(s.c1), InvSubCol(s.c2), InvSubCol(s.c3))
  }

  function ShiftRows(s: State): State
  {
    State(Col(s.c0.b0, s.c1.b1, s.c2.b2, s.c3.b3), Col(s.c1.b0, s.c2.b1, s.c3.b2, s.c0.b3),
          Col(s.c2.b0, s.c3.b1, s.c0.b2, s.c1.b3), Col(s.c3.b0, s.c0.b1, s.c1.b2, s.c2.b3))
  }

  function InvShiftRows(s: State): State
  {
    State(Col(s.c0.b0, s.c3.b1, s.c2.b2, s.c1.b3), Col(s.c1.b0, s.c0.b1, s.c3.b2, s.c2.b3),
          Col(s.c2.b0, s.c1.b1, s.c0.b2, s.c3.b3), Col(s.c3.b0, s.c2.b1, s.c1.b2, s.c0.b3))
  }

  function MixColumns(s: State): State
  {
    State(MixColumn(s.c0), MixColumn(s.c1), MixColumn(s.c2), MixColumn(s.c3))
  }

  function InvMixColumns(s: State): State
  {
    State(InvMixColumn(s.c0), InvMixColumn(s.c1), InvMixColumn(s.c2), InvMixColumn(s.c3))
  }

  function AddRoundKey(s: State, k: State): State
  {
    State(AddCol(s.c0, k.c0), AddCol(s.c1, k.c1), AddCol(s.c2, k.c2), AddCol(s.c3, k.c3))
  }

  // ---- the inverse column map undoes the column map

  lemma {:induction false} MulBitsRightLinear(a: bv8, b: bv8, d: bv8, n: nat)
    ensures MulBits(a, Add(b, d), n) == Add(MulBits(a, b, n), MulBits(a, d, n))
    decreases n
  {
    if n > 0 {
      assert Add(b, d) >> 1 == Add(b >> 1, d >> 1);
      TakeRightLinear(b, d, a);
      MulBitsRightLinear(Xtime(a), b >> 1, d >> 1, n - 1);
      Swap(Take(b, a), Take(d, a), MulBits(Xtime(a), b >> 1, n - 1), MulBits(Xtime(a), d >> 1, n - 1));
      hide Add, Take, Xtime;
    } else {
      assert Add(0, 0) == 0;
    }
  }

  lemma TakeRightLinear(b: bv8, d: bv8, a: bv8)
    ensures Take(Add(b, d), a) == Add(Take(b, a), Take(d, a))
  {
    if b & 1 != 0 {
      if d & 1 != 0 {
        assert (b ^ d) & 1 == 0;
      } else {
        assert (b ^ d) & 1 != 0;
      }
    } else {
      if d & 1 != 0 {
        assert (b ^ d) & 1 != 0;
      } else {
        assert (b ^ d) & 1 == 0;
      }
    }
  }

  lemma MulRightLinear(a: bv8, b: bv8, d: bv8)
    ensures Mul(a, Add(b, d)) == Add(Mul(a, b), Mul(a, d))
  {
    hide MulBits, Add;
    MulBitsRightLinear(a, b, d, 8);
  }

  lemma DotLinear(a: bv8, b: bv8, c: bv8, d: bv8, x: Col, y: Col)
    ensures Dot(a, b, c, d, AddCol(x, y)) == Add(Dot(a, b, c, d, x), Dot(a, b, c, d, y))
  {
    hide Mul, Add;
    MulRightLinear(a, x.b0, y.b0);
    MulRightLinear(b, x.b1, y.b1);
    MulRightLinear(c, x.b2, y.b2);
    MulRightLinear(d, x.b3, y.b3);
    Swap(Mul(a, x.b0), Mul(a, y.b0), Mul(b, x.b1), Mul(b, y.b1));
    Swap(Mul(c, x.b2), Mul(c, y.b2), Mul(d, x.b3), Mul(d, y.b3));
    Swap(Add(Mul(a, x.b0), Mul(b, x.b1)), Add(Mul(a, y.b0), Mul(b, y.b1)),
         Add(Mul(c, x.b2), Mul(d, x.b3)), Add(Mul(c, y.b2), Mul(d, y.b3)));
  }

  lemma MixLinear(x: Col, y: Col)
    ensures MixColumn(AddCol(x, y)) == AddCol(MixColumn(x), MixColumn(y))
    ensures InvMixColumn(AddCol(x, y)) == AddCol(InvMixColumn(x), InvMixColumn(y))
  {
    hide Dot, Add;
    DotLinear(2, 3, 1, 1, x, y);
    DotLinear(1, 2, 3, 1, x, y);
    DotLinear(1, 1, 2, 3, x, y);
    DotLinear(3, 1, 1, 2, x, y);
    DotLinear(14, 11, 13, 9, x, y);
    DotLinear(9, 14, 11, 13, x, y);
    DotLinear(13, 9, 14, 11, x, y);
    DotLinear(11, 13, 9, 14, x, y);
  }

  /** The multiples the column maps use, by repeated Xtime. */
  lemma SmallMultiples(x: bv8)
    ensures Mul(1, x) == x && Mul(2, x) == Xtime(x) && Mul(3, x) == Add(x, Xtime(x))
    ensures Mul(4, x) == Xtime(Xtime(x)) && Mul(8, x) == Xtime(Xtime(Xtime(x)))
  {
    MulOne(x);
    assert Xtime(1) == 2 && Xtime(2) == 4 && Xtime(4) == 8 && Add(1, 2) == 3 && Triple(1) == 3;
    hide MulBits, Xtime, Add;
    MulBitsXtime(1, x, 8);
    MulBitsXtime(2, x, 8);
    MulBitsXtime(4, x, 8);
    MulTriple(1, x);
  }

  lemma MulLeftLinear(a: bv8, c: bv8, x: bv8)
    ensures Mul(Add(a, c), x) == Add(Mul(a, x), Mul(c, x))
  {
    hide MulBits, Add;
    MulBitsLinear(a, c, x, 8);
  }

  lemma NineEleven(x: bv8)
    ensures Mul(9, x) == Add(Mul(8, x), Mul(1, x))
    ensures Mul(11, x) == Add(Mul(8, x), Mul(3, x))
  {
    hide Mul;
    assert Add(8, 1) == 9 && Add(8, 3) == 11;
    hide Add;
    MulLeftLinear(8, 1, x);
    MulLeftLinear(8, 3, x);
  }

  lemma ThirteenFourteen(x: bv8)
    ensures Mul(13, x) == Add(Mul(8, x), Add(Mul(4, x), Mul(1, x)))
    ensures Mul(14, x) == Add(Mul(8, x), Add(Mul(4, x), Mul(2, x)))
  {
    hide Mul;
    assert Add(4, 1) == 5 && Add(8, 5) == 13 && Add(4, 2) == 6 && Add(8, 6) == 14;
    hide Add;
    MulLeftLinear(4, 1, x);
    MulLeftLinear(8, 5, x);
    MulLeftLinear(4, 2, x);
    MulLeftLinear(8, 6, x);
  }

  /** Every multiple by 9, 11, 13 and 14, in terms of Xtime alone. */
  lemma Multiples(x: bv8)
    ensures Mul(9, x) == Add(Xtime(Xtime(Xtime(x))), x)
    ensures Mul(11, x) == Add(Xtime(Xtime(Xtime(x))), Add(x, Xtime(x)))
    ensures Mul(13, x) == Add(Xtime(Xtime(Xtime(x))), Add(Xtime(Xtime(x)), x))
    ensures Mul(14, x) == Add(Xtime(Xtime(Xtime(x))), Add(Xtime(Xtime(x)), Xtime(x)))
  {
    hide Mul, Add, Xtime;
    SmallMultiples(x);
    NineEleven(x);
    ThirteenFourteen(x);
  }

  /** The circulant product collapses to one byte times 1: 2*14 + 11 + 13 + 3*9 = 1, and the other sums are 0. */
  lemma Cancel(b: bv8)
    ensures Add(Add(Mul(14, Xtime(b)), Mul(11, b)), Add(Mul(13, b), Mul(9, Add(b, Xtime(b))))) == b
    ensures Add(Add(Mul(9, Xtime(b)), Mul(14, b)), Add(Mul(11, b), Mul(13, Add(b, Xtime(b))))) == 0
    ensures Add(Add(Mul(13, Xtime(b)), Mul(9, b)), Add(Mul(14, b), Mul(11, Add(b, Xtime(b))))) == 0
    ensures Add(Add(Mul(11, Xtime(b)), Mul(13, b)), Add(Mul(9, b), Mul(14, Add(b, Xtime(b))))) == 0
  {
    hide Mul;
    Multiples(b);
    Multiples(Xtime(b));
    Multiples(Add(b, Xtime(b)));
  }

  lemma ZeroSums(b: bv8)
    ensures Add(b, 0) == b && Add(0, b) == b && Add(b, b) == 0
  {
  }

  lemma MulRightZero(a: bv8)
    ensures Mul(a, 0) == 0
  {
    hide MulBits;
    MulBitsByZero(a, 8);
  }

  /** What a dot product makes of a column with a single nonzero byte. */
  lemma DotSingle(a: bv8, b: bv8, c: bv8, d: bv8, x: bv8)
    ensures Dot(a, b, c, d, Col(x, 0, 0, 0)) == Mul(a, x)
    ensures Dot(a, b, c, d, Col(0, x, 0, 0)) == Mul(b, x)
    ensures Dot(a, b, c, d, Col(0, 0, x, 0)) == Mul(c, x)
    ensures Dot(a, b, c, d, Col(0, 0, 0, x)) == Mul(d, x)
  {
    hide Mul, Add;
    MulRightZero(a);
    MulRightZero(b);
    MulRightZero(c);
    MulRightZero(d);
    ZeroSums(0);
    ZeroSums(Mul(a, x));
    ZeroSums(Mul(b, x));
    ZeroSums(Mul(c, x));
    ZeroSums(Mul(d, x));
  }

  lemma MixSingle(x: bv8)
    ensures MixColumn(Col(x, 0, 0, 0)) == Col(Xtime(x), x, x, Add(x, Xtime(x)))
    ensures MixColumn(Col(0, x, 0, 0)) == Col(Add(x, Xtime(x)), Xtime(x), x, x)
    ensures MixColumn(Col(0, 0, x, 0)) == Col(x, Add(x, Xtime(x)), Xtime(x), x)
    ensures MixColumn(Col(0, 0, 0, x)) == Col(x, x, Add(x, Xtime(x)), Xtime(x))
  {
    hide Mul, Dot, Add, Xtime;
    SmallMultiples(x);
    DotSingle(2, 3, 1, 1, x);
    DotSingle(1, 2, 3, 1, x);
    DotSingle(1, 1, 2, 3, x);
    DotSingle(3, 1, 1, 2, x);
  }

  /** The sum is the same wherever the four terms start. */
  lemma Turn(a: bv8, b: bv8, c: bv8, d: bv8)
    ensures Add(Add(a, b), Add(c, d)) == Add(Add(d, a), Add(b, c))
    ensures Add(Add(a, b), Add(c, d)) == Add(Add(c, d), Add(a, b))
    ensures Add(Add(a, b), Add(c, d)) == Add(Add(b, c), Add(d, a))
  {
    assert (a ^ b) ^ (c ^ d) == (d ^ a) ^ (b ^ c);
  }

  function Rotated(x: Col): Col
  {
    Col(x.b3, x.b0, x.b1, x.b2)
  }

  lemma InvMixRotated(x: Col)
    ensures InvMixColumn(Rotated(x)) == Rotated(InvMixColumn(x))
  {
    hide Mul, Add;
    Turn(Mul(14, x.b0), Mul(11, x.b1), Mul(13, x.b2), Mul(9, x.b3));
    Turn(Mul(9, x.b0), Mul(14, x.b1), Mul(11, x.b2), Mul(13, x.b3));
    Turn(Mul(13, x.b0), Mul(9, x.b1), Mul(14, x.b2), Mul(11, x.b3));
    Turn(Mul(11, x.b0), Mul(13, x.b1), Mul(9, x.b2), Mul(14, x.b3));
  }

  lemma MixRotated(x: Col)
    ensures MixColumn(Rotated(x)) == Rotated(MixColumn(x))
  {
    hide Mul, Add;
    Turn(Mul(2, x.b0), Mul(3, x.b1), Mul(1, x.b2), Mul(1, x.b3));
    Turn(Mul(1, x.b0), Mul(2, x.b1), Mul(3, x.b2), Mul(1, x.b3));
    Turn(Mul(1, x.b0), Mul(1, x.b1), Mul(2, x.b2), Mul(3, x.b3));
    Turn(Mul(3, x.b0), Mul(1, x.b1), Mul(1, x.b2), Mul(2, x.b3));
  }

  lemma InvMixSingle(x: bv8)
    ensures InvMixColumn(MixColumn(Col(x, 0, 0, 0))) == Col(x, 0, 0, 0)
    ensures InvMixColumn(MixColumn(Col(0, x, 0, 0))) == Col(0, x, 0, 0)
    ensures InvMixColumn(MixColumn(Col(0, 0, x, 0))) == Col(0, 0, x, 0)
    ensures InvMixColumn(MixColumn(Col(0, 0, 0, x))) == Col(0, 0, 0, x)
  {
    hide Mul, Add, Xtime, MixColumn;
    MixSingle(x);
    Cancel(x);
    var c := Col(Xtime(x), x, x, Add(x, Xtime(x)));
    assert InvMixColumn(c) == Col(x, 0, 0, 0);
    hide InvMixColumn;
    InvMixRotated(c);
    InvMixRotated(Rotated(c));
    InvMixRotated(Rotated(Rotated(c)));
  }

  lemma AddColSplit(x: Col)
    ensures x == AddCol(AddCol(Col(x.b0, 0, 0, 0), Col(0, x.b1, 0, 0)), AddCol(Col(0, 0, x.b2, 0), Col(0, 0, 0, x.b3)))
  {
  }

  /** MixColumns is undone by InvMixColumns (section 5.3.3). */
  lemma InvMixMix(x: Col)
    ensures InvMixColumn(MixColumn(x)) == x
  {
    hide MixColumn, InvMixColumn, AddCol;
    var p, q, r, s := Col(x.b0, 0, 0, 0), Col(0, x.b1, 0, 0), Col(0, 0, x.b2, 0), Col(0, 0, 0, x.b3);
    AddColSplit(x);
    MixLinear(AddCol(p, q), AddCol(r, s));
    MixLinear(p, q);
    MixLinear(r, s);
    MixLinear(AddCol(MixColumn(p), MixColumn(q)), AddCol(MixColumn(r), MixColumn(s)));
    MixLinear(MixColumn(p), MixColumn(q));
    MixLinear(MixColumn(r), MixColumn(s));
    InvMixSingle(x.b0);
    InvMixSingle(x.b1);
    InvMixSingle(x.b2);
    InvMixSingle(x.b3);
  }

  // ---- key expansion (section 5.2)

  /** A key of 16, 24 or 32 bytes, in words: Nk = 4, 6 or 8. */
  predicate KeySize(nk: nat)
  {
    nk == 4 || nk == 6 || nk == 8
  }

  /** Nr, the number of rounds. */
  function Rounds(nk: nat): nat
  {
    nk + 6
  }

  function RotWord(x: Col): Col
  {
    Col(x.b1, x.b2, x.b3, x.b0)
  }

  /** x^(j-1) of Rcon[j]. */
  function RconByte(j: nat): bv8
  {
    if j <= 1 then 1 else Xtime(RconByte(j - 1))
  }

  /** i mod Nk. */
  function Place(nk: nat, i: nat): nat
    requires KeySize(nk)
  {
    if nk == 4 then i % 4 else if nk == 6 then i % 6 else i % 8
  }

  /** i div Nk. */
  function Turns(nk: nat, i: nat): nat
    requires KeySize(nk)
  {
    if nk == 4 then i / 4 else if nk == 6 then i / 6 else i / 8
  }

  /** What the expansion makes of the previous word. */
  ghost function Temp(nk: nat, i: nat, previous: Col): Col
    requires KeySize(nk)
  {
    if Place(nk, i) == 0 then AddCol(SubCol(RotWord(previous)), Col(RconByte(Turns(nk, i)), 0, 0, 0))
    else if nk == 8 && Place(nk, i) == 4 then SubCol(previous)
    else previous
  }

  /** Word i of the expanded key. */
  ghost function KeyWord(key: seq<Col>, i: nat): Col
    requires KeySize(|key|)
  {
    if i < |key| then key[i]
    else AddCol(KeyWord(key, i - |key|), Temp(|key|, i, KeyWord(key, i - 1)))
  }

  /** The round key of round r. */
  ghost function RoundKey(key: seq<Col>, r: nat): State
    requires KeySize(|key|)
  {
    State(KeyWord(key, 4 * r), KeyWord(key, 4 * r + 1), KeyWord(key, 4 * r + 2), KeyWord(key, 4 * r + 3))
  }

  // ---- the cipher (section 5.1)

  ghost function SubShift(s: State): State
  {
    ShiftRows(SubBytes(s))
  }

  /** The state after the initial key addition and r full rounds. */
  ghost function AfterRound(key: seq<Col>, block: State, r: nat): State
    requires KeySize(|key|)
  {
    if r == 0 then AddRoundKey(block, RoundKey(key, 0))
    else AddRoundKey(MixColumns(SubShift(AfterRound(key, block, r - 1))), RoundKey(key, r))
  }

  ghost function Cipher(key: seq<Col>, block: State): State
    requires KeySize(|key|)
  {
    var nr := Rounds(|key|);
    AddRoundKey(SubShift(AfterRound(key, block, nr - 1)), RoundKey(key, nr))
  }

  // ---- the equivalent inverse cipher (section 5.3.5)

  ghost function InvSubShift(s: State): State
  {
    InvShiftRows(InvSubBytes(s))
  }

  /** The schedule of the equivalent inverse cipher: the inner round keys pass through InvMixColumns. */
  ghost function InvRoundKey(key: seq<Col>, r: nat): State
    requires KeySize(|key|)
  {
    if r == 0 || r == Rounds(|key|) then RoundKey(key, r) else InvMixColumns(RoundKey(key, r))
  }

  /** The state after the initial key addition and n full inverse rounds. */
  ghost function AfterInvRound(key: seq<Col>, block: State, n: nat): State
    requires KeySize(|key|) && n <= Rounds(|key|)
  {
    var nr := Rounds(|key|);
    if n == 0 then AddRoundKey(block, InvRoundKey(key, nr))
    else AddRoundKey(InvMixColumns(InvSubShift(AfterInvRound(key, block, n - 1))), InvRoundKey(key, nr - n))
  }

  ghost function EqInvCipher(key: seq<Col>, block: State): State
    requires KeySize(|key|)
  {
    AddRoundKey(InvSubShift(AfterInvRound(key, block, Rounds(|key|) - 1)), InvRoundKey(key, 0))
  }

  // ---- the inverse cipher undoes the cipher

  lemma AddColTwice(x: Col, k: Col)
    ensures AddCol(AddCol(x, k), k) == x
  {
  }

  lemma AddRoundKeyTwice(s: State, k: State)
    ensures AddRoundKey(AddRoundKey(s, k), k) == s
  {
    hide AddCol;
    AddColTwice(s.c0, k.c0);
    AddColTwice(s.c1, k.c1);
    AddColTwice(s.c2, k.c2);
    AddColTwice(s.c3, k.c3);
  }

  lemma InvMixColumnsAdd(s: State, k: State)
    ensures InvMixColumns(AddRoundKey(s, k)) == AddRoundKey(InvMixColumns(s), InvMixColumns(k))
  {
    hide AddCol, InvMixColumn;
    MixLinear(s.c0, k.c0);
    MixLinear(s.c1, k.c1);
    MixLinear(s.c2, k.c2);
    MixLinear(s.c3, k.c3);
  }

  lemma InvMixColumnsMix(s: State)
    ensures InvMixColumns(MixColumns(s)) == s
  {
    hide MixColumn, InvMixColumn;
    InvMixMix(s.c0);
    InvMixMix(s.c1);
    InvMixMix(s.c2);
    InvMixMix(s.c3);
  }

  lemma InvSubSubCol(x: Col)
    ensures InvSubCol(SubCol(x)) == x
  {
    hide Sbox, InvSbox;
    InvSboxSbox(x.b0);
    InvSboxSbox(x.b1);
    InvSboxSbox(x.b2);
    InvSboxSbox(x.b3);
  }

  /** InvSubBytes acts on each byte, so it may be taken before or after the rows are shifted back. */
  lemma InvSubShiftSubShift(s: State)
    ensures InvSubShift(SubShift(s)) == s
  {
    hide Sbox, InvSbox;
    InvSubSubCol(s.c0);
    InvSubSubCol(s.c1);
    InvSubSubCol(s.c2);
    InvSubSubCol(s.c3);
  }

  /** After n inverse rounds the state is what the cipher had after Nr - 1 - n rounds and one SubBytes and ShiftRows. */
  lemma {:induction false} InverseRounds(key: seq<Col>, block: State, n: nat)
    requires KeySize(|key|) && n < Rounds(|key|)
    ensures AfterInvRound(key, Cipher(key, block), n) == SubShift(AfterRound(key, block, Rounds(|key|) - 1 - n))
  {
    hide AddRoundKey, RoundKey, SubShift, InvSubShift, MixColumns, InvMixColumns;
    var nr := Rounds(|key|);
    if n == 0 {
      AddRoundKeyTwice(SubShift(AfterRound(key, block, nr - 1)), RoundKey(key, nr));
    } else {
      var r := nr - n;
      var s := SubShift(AfterRound(key, block, r - 1));
      InverseRounds(key, block, n - 1);
      InvSubShiftSubShift(AfterRound(key, block, r));
      InvMixColumnsAdd(MixColumns(s), RoundKey(key, r));
      InvMixColumnsMix(s);
      AddRoundKeyTwice(s, InvMixColumns(RoundKey(key, r)));
    }
  }

  /** For every key and block, the equivalent inverse cipher undoes the cipher. */
  lemma InverseCipher(key: seq<Col>, block: State)
    requires KeySize(|key|)
    ensures EqInvCipher(key, Cipher(key, block)) == block
  {
    InverseRounds(key, block, Rounds(|key|) - 1);
    hide AddRoundKey, RoundKey, SubShift, InvSubShift, Cipher, AfterInvRound;
    InvSubShiftSubShift(AfterRound(key, block, 0));
    AddRoundKeyTwice(block, RoundKey(key, 0));
  }
}
