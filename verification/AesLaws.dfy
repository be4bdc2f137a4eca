/**
  What the definitions of AesSpec say byte by byte: the equations of FIPS 197 for the S-box, the
  rounds and the key expansion, and words of the examples in its appendix A. Nothing here uses the
  intermediate definitions of the rounds and the schedule.
*/
module AesLaws {
  import opened GaloisField
  import opened AesSpec
  import opened AesTables
  import opened AesKey
  import opened Aes

  // ---- the field and the S-box

  /** The examples of sections 4.2 and 4.2.1. */
  lemma FieldExamples()
    ensures Mul(0x57, 0x83) == 0xc1 && Mul(0x57, 0x13) == 0xfe
    ensures Xtime(0x57) == 0xae && Xtime(0xae) == 0x47 && Xtime(0x47) == 0x8e && Xtime(0x8e) == 0x07
  {
    MulUnrolled(0x57, 0x83);
    MulUnrolled(0x57, 0x13);
  }

  lemma AddIs(a: bv8, b: bv8)
    ensures Add(a, b) == a ^ b
  {
  }

  lemma BitIs(x: bv8, i: nat)
    requires i < 8
    ensures Bit(x, i) <==> x & [0x01, 0x02, 0x04, 0x08, 0x10, 0x20, 0x40, 0x80][i] != 0
  {
    assert i == 0 || i == 1 || i == 2 || i == 3 || i == 4 || i == 5 || i == 6 || i == 7;
  }

  /** Section 5.1.1: bit i of the S-box value is given by equation 5.1 from the inverse y of x, with 0 for 0. */
  lemma SboxIs(x: bv8, y: bv8, i: nat)
    requires i < 8 && if x == 0 then y == 0 else Mul(x, y) == 1
    ensures Bit(Sbox(x), i) == Sum6(Bit(y, i), Bit(y, (i + 4) % 8), Bit(y, (i + 5) % 8), Bit(y, (i + 6) % 8),
                                    Bit(y, (i + 7) % 8), Bit(0x63, i))
  {
    hide Mul, Inverse, Affine, Bit, Sum6;
    if x != 0 {
      InverseUnique(x, y, Inverse(x));
    }
    AffineIsFips(y, i);
  }

  lemma SboxValue(x: bv8, y: bv8, s: bv8)
    requires Mul(x, y) == 1 && Affine(y) == s
    ensures Sbox(x) == s
  {
    NonzeroFactors(x, y);
    hide Mul, Inverse, Affine;
    InverseUnique(x, y, Inverse(x));
  }

  // ---- the rounds

  /** Column c of a state. */
  function ColumnOf(s: State, c: nat): Col
    requires c < 4
  {
    if c == 0 then s.c0 else if c == 1 then s.c1 else if c == 2 then s.c2 else s.c3
  }

  /** Section 3.4: byte r + 4c of a block is in row r of column c; a key word is four bytes of the key. */
  lemma BlockIs(s: seq<bv8>, c: nat)
    requires |s| >= 16 && c < 4
    ensures ColumnOf(BlockState(s), c) == Col(s[4 * c], s[4 * c + 1], s[4 * c + 2], s[4 * c + 3])
  {
  }

  lemma KeyIs(s: seq<bv8>, i: nat)
    requires 4 * i + 4 <= |s|
    ensures i < |KeyColumns(s)| == |s| / 4
    ensures KeyColumns(s)[i] == Col(s[4 * i], s[4 * i + 1], s[4 * i + 2], s[4 * i + 3])
  {
  }

  /** The sum of two columns, byte by byte. */
  lemma SumIs(x: Col, y: Col)
    ensures AddCol(x, y) == Col(Add(x.b0, y.b0), Add(x.b1, y.b1), Add(x.b2, y.b2), Add(x.b3, y.b3))
  {
    hide Add;
  }

  /** The first key addition: word c of the key is added to column c. */
  lemma {:induction false} FirstIs(key: seq<Col>, block: State, c: nat)
    requires KeySize(|key|) && c < 4
    ensures ColumnOf(AfterRound(key, block, 0), c) == AddCol(ColumnOf(block, c), KeyWord(key, c))
  {
    hide KeyWord, AddCol;
  }

  /** Column c after the substitution and the shift of the rows (equation 5.3): row r comes from column c + r. */
  ghost function Shifted(s: State, c: nat): Col
    requires c < 4
  {
    Col(Sbox(ColumnOf(s, c).b0), Sbox(ColumnOf(s, (c + 1) % 4).b1), Sbox(ColumnOf(s, (c + 2) % 4).b2),
        Sbox(ColumnOf(s, (c + 3) % 4).b3))
  }

  /** Equation 5.6. */
  lemma MixIs(x: Col)
    ensures MixColumn(x) == Col(Add(Add(Mul(2, x.b0), Mul(3, x.b1)), Add(x.b2, x.b3)),
                                Add(Add(x.b0, Mul(2, x.b1)), Add(Mul(3, x.b2), x.b3)),
                                Add(Add(x.b0, x.b1), Add(Mul(2, x.b2), Mul(3, x.b3))),
                                Add(Add(Mul(3, x.b0), x.b1), Add(x.b2, Mul(2, x.b3))))
  {
    MulOne(x.b0);
    MulOne(x.b1);
    MulOne(x.b2);
    MulOne(x.b3);
    hide Mul, Add;
  }

  /** A full round n: substitution, shift of the rows, mixing of the columns, and word 4n + c of the key. */
  lemma {:induction false} RoundIs(key: seq<Col>, block: State, n: nat, c: nat)
    requires KeySize(|key|) && n > 0 && c < 4
    ensures ColumnOf(AfterRound(key, block, n), c) ==
      AddCol(MixColumn(Shifted(AfterRound(key, block, n - 1), c)), KeyWord(key, 4 * n + c))
  {
    hide KeyWord, Sbox, MixColumn, AddCol, SubShift, Shifted;
    var s := AfterRound(key, block, n - 1);
    assert AfterRound(key, block, n) == AddRoundKey(MixColumns(SubShift(s)), RoundKey(key, n));
    hide AfterRound;
    ShiftedIs(s, c);
  }

  lemma ShiftedIs(s: State, c: nat)
    requires c < 4
    ensures ColumnOf(SubShift(s), c) == Shifted(s, c)
  {
    hide Sbox;
  }

  /** The last round, the tenth, twelfth or fourteenth, has no column mixing. */
  lemma {:induction false} LastIs(key: seq<Col>, block: State, c: nat)
    requires KeySize(|key|) && c < 4
    ensures
      var n := if |key| == 4 then 10 else if |key| == 6 then 12 else 14;
      ColumnOf(Cipher(key, block), c) == AddCol(Shifted(AfterRound(key, block, n - 1), c), KeyWord(key, 4 * n + c))
  {
    hide KeyWord, Sbox, AfterRound, AddCol;
  }

  // ---- the key expansion

  /** What x^j is in the field, for the ten round constants in use. */
  lemma {:induction false} RconIs(j: nat)
    requires 1 <= j <= 10
    ensures RconByte(j) == [0x01, 0x02, 0x04, 0x08, 0x10, 0x20, 0x40, 0x80, 0x1b, 0x36][j - 1]
  {
    assert RconByte(1) == 0x01 && RconByte(2) == 0x02 && RconByte(3) == 0x04 && RconByte(4) == 0x08;
    assert RconByte(5) == 0x10 && RconByte(6) == 0x20 && RconByte(7) == 0x40 && RconByte(8) == 0x80;
    assert RconByte(9) == 0x1b && RconByte(10) == 0x36;
  }

  /**
    Section 5.2 on the words of the schedule, byte by byte: the first Nk words are the key, every other
    word is the one Nk places back plus the previous word, which at every multiple of Nk is rotated,
    substituted and given the round constant, and for Nk = 8 is substituted half way as well.
  */
  lemma ScheduleIs(e: seq<bv32>, key: seq<bv8>, i: nat)
    requires KeyLength(|key|) && ExpandedUpTo(e, KeyColumns(key), |key| + 28) && i < |key| + 28
    ensures
      var nk, w := |key| / 4, Column(e[i]);
      if i < nk then w == Col(key[4 * i], key[4 * i + 1], key[4 * i + 2], key[4 * i + 3])
      else
        var p, q := Column(e[i - 1]), Column(e[i - nk]);
        if i % nk == 0 then
          && 0 <= i / nk - 1 < 10
          && var x := [0x01, 0x02, 0x04, 0x08, 0x10, 0x20, 0x40, 0x80, 0x1b, 0x36][i / nk - 1];
             w == Col(Add(q.b0, Add(Sbox(p.b1), x)), Add(q.b1, Sbox(p.b2)), Add(q.b2, Sbox(p.b3)),
               Add(q.b3, Sbox(p.b0)))
        else if nk == 8 && i % 8 == 4 then
          w == Col(Add(q.b0, Sbox(p.b0)), Add(q.b1, Sbox(p.b1)), Add(q.b2, Sbox(p.b2)), Add(q.b3, Sbox(p.b3)))
        else w == Col(Add(q.b0, p.b0), Add(q.b1, p.b1), Add(q.b2, p.b2), Add(q.b3, p.b3))
  {
    hide Sbox, Column, Add;
    var cols, nk := KeyColumns(key), |key| / 4;
    if i < nk {
      KeyIs(key, i);
    } else {
      hide KeyColumns;
      assert |cols| == nk;
      hide KeyWord;
      WordIs(cols, nk, i);
      assert Column(e[i]) == KeyWord(cols, i) && Column(e[i - 1]) == KeyWord(cols, i - 1);
      assert Column(e[i - nk]) == KeyWord(cols, i - nk);
    }
  }

  lemma {:induction false} WordIs(key: seq<Col>, nk: nat, i: nat)
    requires nk == |key| && KeySize(nk) && nk <= i < 4 * nk + 28
    ensures
      var w, p, q := KeyWord(key, i), KeyWord(key, i - 1), KeyWord(key, i - nk);
      if i % nk == 0 then
        && 0 <= i / nk - 1 < 10
        && var x := [0x01, 0x02, 0x04, 0x08, 0x10, 0x20, 0x40, 0x80, 0x1b, 0x36][i / nk - 1];
           w == Col(Add(q.b0, Add(Sbox(p.b1), x)), Add(q.b1, Sbox(p.b2)), Add(q.b2, Sbox(p.b3)), Add(q.b3, Sbox(p.b0)))
      else if nk == 8 && i % 8 == 4 then
        w == Col(Add(q.b0, Sbox(p.b0)), Add(q.b1, Sbox(p.b1)), Add(q.b2, Sbox(p.b2)), Add(q.b3, Sbox(p.b3)))
      else w == Col(Add(q.b0, p.b0), Add(q.b1, p.b1), Add(q.b2, p.b2), Add(q.b3, p.b3))
  {
    hide Sbox, RconByte, Add;
    var p, q := KeyWord(key, i - 1), KeyWord(key, i - nk);
    assert KeyWord(key, i) == AddCol(q, Temp(nk, i, p));
    hide KeyWord;
    PlacesAre(nk, i);
    if i % nk == 0 {
      RconIs(i / nk);
      TempAtStart(nk, i, p);
    } else {
      TempInside(nk, i, p);
    }
    hide Temp, Place, Turns;
  }

  lemma TempInside(nk: nat, i: nat, p: Col)
    requires KeySize(nk) && Place(nk, i) != 0
    ensures Temp(nk, i, p) ==
      if nk == 8 && Place(nk, i) == 4 then Col(Sbox(p.b0), Sbox(p.b1), Sbox(p.b2), Sbox(p.b3)) else p
  {
    hide Sbox, RconByte, Place, Turns;
  }

  lemma PlacesAre(nk: nat, i: nat)
    requires KeySize(nk) && nk <= i < 4 * nk + 28
    ensures Place(nk, i) == i % nk && Turns(nk, i) == i / nk && 1 <= i / nk <= 10
  {
  }

  lemma TempAtStart(nk: nat, i: nat, p: Col)
    requires KeySize(nk) && Place(nk, i) == 0
    ensures Temp(nk, i, p) == AddCol(Col(Sbox(p.b1), Sbox(p.b2), Sbox(p.b3), Sbox(p.b0)),
      Col(RconByte(Turns(nk, i)), 0, 0, 0))
    ensures Temp(nk, i, p) == Col(Add(Sbox(p.b1), RconByte(Turns(nk, i))), Sbox(p.b2), Sbox(p.b3), Sbox(p.b0))
  {
    hide Sbox, RconByte, Place, Turns;
    ZeroSums(Sbox(p.b2));
    ZeroSums(Sbox(p.b3));
    ZeroSums(Sbox(p.b0));
    hide Add;
  }

  // ---- examples of appendix A

  /** Values of the S-box, from figure 7. */
  lemma SboxesA1()
    ensures Sbox(0x53) == 0xed && Sbox(0xcf) == 0x8a && Sbox(0x4f) == 0x84 && Sbox(0x3c) == 0xeb
  {
    hide Sbox, Mul;
    MulUnrolled(0x53, 0xca);
    SboxValue(0x53, 0xca, 0xed);
    MulUnrolled(0xcf, 0xe6);
    SboxValue(0xcf, 0xe6, 0x8a);
    MulUnrolled(0x4f, 0x09);
    SboxValue(0x4f, 0x09, 0x84);
    MulUnrolled(0x3c, 0x77);
    SboxValue(0x3c, 0x77, 0xeb);
  }

  /** More of them. */
  lemma SboxesA2()
    ensures Sbox(0x2c) == 0x71 && Sbox(0x6b) == 0x7f && Sbox(0x7b) == 0x21 && Sbox(0x52) == 0x00
  {
    hide Sbox, Mul;
    MulUnrolled(0x2c, 0x30);
    SboxValue(0x2c, 0x30, 0x71);
    MulUnrolled(0x6b, 0xdf);
    SboxValue(0x6b, 0xdf, 0x7f);
    MulUnrolled(0x7b, 0x06);
    SboxValue(0x7b, 0x06, 0x21);
    MulUnrolled(0x52, 0x05);
    SboxValue(0x52, 0x05, 0x00);
  }

  /** And more. */
  lemma SboxesA3()
    ensures Sbox(0x14) == 0xfa && Sbox(0xdf) == 0x9e && Sbox(0xf4) == 0xbf && Sbox(0x09) == 0x01
  {
    hide Sbox, Mul;
    MulUnrolled(0x14, 0x99);
    SboxValue(0x14, 0x99, 0xfa);
    MulUnrolled(0xdf, 0x6b);
    SboxValue(0xdf, 0x6b, 0x9e);
    MulUnrolled(0xf4, 0x68);
    SboxValue(0xf4, 0x68, 0xbf);
    MulUnrolled(0x09, 0x4f);
    SboxValue(0x09, 0x4f, 0x01);
  }

  /** And those of the substitution half way. */
  lemma SboxesA3Second()
    ensures Sbox(0x20) == 0xb7 && Sbox(0x67) == 0x85 && Sbox(0xfc) == 0xb0 && Sbox(0xde) == 0x1d
  {
    hide Sbox, Mul;
    MulUnrolled(0x20, 0x3a);
    SboxValue(0x20, 0x3a, 0xb7);
    MulUnrolled(0x67, 0x43);
    SboxValue(0x67, 0x43, 0x85);
    MulUnrolled(0xfc, 0xcd);
    SboxValue(0xfc, 0xcd, 0xb0);
    MulUnrolled(0xde, 0x90);
    SboxValue(0xde, 0x90, 0x1d);
  }

  /** Appendix A.1: w[4] is a0fafe17. */
  lemma {:induction false} ExampleA1(key: seq<Col>)
    requires key == [Col(0x2b, 0x7e, 0x15, 0x16), Col(0x28, 0xae, 0xd2, 0xa6), Col(0xab, 0xf7, 0x15, 0x88),
                 Col(0x09, 0xcf, 0x4f, 0x3c)]
    ensures KeyWord(key, 4) == Col(0xa0, 0xfa, 0xfe, 0x17)
  {
    hide Sbox;
    SboxesA1();
    SboxesA3();
    WordIs(key, |key|, 4);
  }

  /** Appendix A.2: w[6] is fe0c91f7. */
  lemma {:induction false} ExampleA2(key: seq<Col>)
    requires key == [Col(0x8e, 0x73, 0xb0, 0xf7), Col(0xda, 0x0e, 0x64, 0x52), Col(0xc8, 0x10, 0xf3, 0x2b),
                 Col(0x80, 0x90, 0x79, 0xe5), Col(0x62, 0xf8, 0xea, 0xd2), Col(0x52, 0x2c, 0x6b, 0x7b)]
    ensures KeyWord(key, 6) == Col(0xfe, 0x0c, 0x91, 0xf7)
  {
    hide Sbox;
    SboxesA2();
    WordIs(key, |key|, 6);
  }

  /** The key of appendix A.3. */
  const KEY_A3: seq<Col> :=
    [Col(0x60, 0x3d, 0xeb, 0x10), Col(0x15, 0xca, 0x71, 0xbe), Col(0x2b, 0x73, 0xae, 0xf0),
     Col(0x85, 0x7d, 0x77, 0x81), Col(0x1f, 0x35, 0x2c, 0x07), Col(0x3b, 0x61, 0x08, 0xd7),
     Col(0x2d, 0x98, 0x10, 0xa3), Col(0x09, 0x14, 0xdf, 0xf4)]

  /** Its w[8] is 9ba35411. */
  lemma ExampleA3Start()
    ensures KeyWord(KEY_A3, 8) == Col(0x9b, 0xa3, 0x54, 0x11)
  {
    hide Sbox;
    SboxesA3();
    WordIs(KEY_A3, 8, 8);
  }

  /** Its w[11] is 2067fcde. */
  lemma ExampleA3Middle()
    ensures KeyWord(KEY_A3, 11) == Col(0x20, 0x67, 0xfc, 0xde)
  {
    hide Sbox;
    ExampleA3Start();
    WordIs(KEY_A3, 8, 9);
    WordIs(KEY_A3, 8, 10);
    WordIs(KEY_A3, 8, 11);
  }

  /** Its w[12], after the substitution half way, is a8b09c1a. */
  lemma ExampleA3()
    ensures KeyWord(KEY_A3, 8) == Col(0x9b, 0xa3, 0x54, 0x11) && KeyWord(KEY_A3, 12) == Col(0xa8, 0xb0, 0x9c, 0x1a)
  {
    hide Sbox;
    ExampleA3Start();
    ExampleA3Middle();
    SboxesA3Second();
    WordIs(KEY_A3, 8, 12);
  }
}
