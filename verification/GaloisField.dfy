/**
  Arithmetic of GF(2^8) with modulus 0x11b, as section 4.2 of FIPS 197 defines it, and the powers
  of its generator 3 from which aes.c builds its tables.
*/
module GaloisField {

  /** Addition of the field (section 4.1 of FIPS 197). */
  function Add(a: bv8, b: bv8): bv8
  {
    a ^ b
  }

  /** Multiplication by x (section 4.2.1 of FIPS 197). */
  function Xtime(a: bv8): bv8
  {
    (a << 1) ^ (if a & 0x80 != 0 then 0x1b else 0)
  }

  /** a if the low bit of b is set. */
  function Take(b: bv8, a: bv8): bv8
  {
    if b & 1 != 0 then a else 0
  }

  /** The sum of the multiples a . x^i over the lowest n bits i of b. */
  function MulBits(a: bv8, b: bv8, n: nat): bv8
    decreases n
  {
    if n == 0 then 0 else Add(Take(b, a), MulBits(Xtime(a), b >> 1, n - 1))
  }

  /** The product a . b. */
  function Mul(a: bv8, b: bv8): bv8
  {
    MulBits(a, b, 8)
  }

  lemma XtimeLinear(a: bv8, c: bv8)
    ensures Xtime(Add(a, c)) == Add(Xtime(a), Xtime(c))
  {
    if a & 0x80 != 0 {
      if c & 0x80 != 0 {
        assert (a ^ c) & 0x80 == 0;
      } else {
        assert (a ^ c) & 0x80 != 0;
      }
    } else {
      if c & 0x80 != 0 {
        assert (a ^ c) & 0x80 != 0;
      } else {
        assert (a ^ c) & 0x80 == 0;
      }
    }
  }

  lemma TakeLinear(b: bv8, a: bv8, c: bv8)
    ensures Take(b, Add(a, c)) == Add(Take(b, a), Take(b, c))
  {
  }

  lemma TakeXtime(b: bv8, a: bv8)
    ensures Take(b, Xtime(a)) == Xtime(Take(b, a))
  {
  }

  lemma Swap(a: bv8, b: bv8, c: bv8, d: bv8)
    ensures Add(Add(a, b), Add(c, d)) == Add(Add(a, c), Add(b, d))
  {
    assert (a ^ b) ^ (c ^ d) == (a ^ c) ^ (b ^ d);
  }

  lemma {:induction false} MulBitsLinear(a: bv8, c: bv8, b: bv8, n: nat)
    ensures MulBits(Add(a, c), b, n) == Add(MulBits(a, b, n), MulBits(c, b, n))
    decreases n
  {
    if n != 0 {
      hide Add, Xtime, Take;
      XtimeLinear(a, c);
      TakeLinear(b, a, c);
      var x, y := MulBits(Xtime(a), b >> 1, n - 1), MulBits(Xtime(c), b >> 1, n - 1);
      MulBitsLinear(Xtime(a), Xtime(c), b >> 1, n - 1);
      Swap(Take(b, a), Take(b, c), x, y);
    }
  }

  lemma {:induction false} MulBitsXtime(a: bv8, b: bv8, n: nat)
    ensures MulBits(Xtime(a), b, n) == Xtime(MulBits(a, b, n))
    decreases n
  {
    if n != 0 {
      hide Add, Xtime, Take;
      TakeXtime(b, a);
      MulBitsXtime(Xtime(a), b >> 1, n - 1);
      XtimeLinear(Take(b, a), MulBits(Xtime(a), b >> 1, n - 1));
    }
  }

  lemma MulOneHigh(b: bv8)
    ensures MulBits(0x10, b >> 4, 4) == b & 0xf0
  {
    assert MulBits(0x80, b >> 7, 1) == b & 0x80;
    assert MulBits(0x40, b >> 6, 2) == b & 0xc0;
    assert MulBits(0x20, b >> 5, 3) == b & 0xe0;
  }

  lemma MulOneMid(b: bv8)
    ensures MulBits(0x04, b >> 2, 6) == b & 0xfc
  {
    MulOneHigh(b);
    assert MulBits(0x08, b >> 3, 5) == b & 0xf8;
  }

  lemma MulOne(b: bv8)
    ensures Mul(1, b) == b
  {
    MulOneMid(b);
    assert MulBits(0x02, b >> 1, 7) == b & 0xfe;
  }

  /** Multiplication by the generator 3, the step the table loop of gen_tabs takes. */
  function Triple(p: bv8): bv8
  {
    Add(p, Xtime(p))
  }

  /** Multiplying one factor by 3 multiplies the product by 3. */
  lemma MulTriple(a: bv8, b: bv8)
    ensures Mul(Triple(a), b) == Triple(Mul(a, b))
  {
    hide Add, MulBits, Xtime;
    MulBitsLinear(a, Xtime(a), b, 8);
    MulBitsXtime(a, b, 8);
  }

  /** 3^i. */
  function Exp(i: nat): bv8
  {
    if i == 0 then 1 else Triple(Exp(i - 1))
  }

  /** Exponents add. */
  lemma {:induction false} ExpAdd(i: nat, j: nat)
    ensures Mul(Exp(i), Exp(j)) == Exp(i + j)
  {
    hide Mul, Triple;
    if i == 0 {
      MulOne(Exp(j));
    } else {
      ExpAdd(i - 1, j);
      MulTriple(Exp(i - 1), Exp(j));
    }
  }

  /** Mul with its eight steps written out. */
  lemma MulUnrolled(a: bv8, b: bv8)
    ensures
      var a1 := Xtime(a); var a2 := Xtime(a1); var a3 := Xtime(a2); var a4 := Xtime(a3);
      var a5 := Xtime(a4); var a6 := Xtime(a5); var a7 := Xtime(a6);
      Mul(a, b) == Add(Take(b, a), Add(Take(b >> 1, a1), Add(Take(b >> 2, a2), Add(Take(b >> 3, a3),
                   Add(Take(b >> 4, a4), Add(Take(b >> 5, a5), Add(Take(b >> 6, a6), Add(Take(b >> 7, a7), 0))))))))
  {
    hide Add, Take, Xtime;
    assert b >> 1 >> 1 == b >> 2 && b >> 2 >> 1 == b >> 3 && b >> 3 >> 1 == b >> 4;
    assert b >> 4 >> 1 == b >> 5 && b >> 5 >> 1 == b >> 6 && b >> 6 >> 1 == b >> 7;
    var a1 := Xtime(a);
    var a2 := Xtime(a1);
    var a3 := Xtime(a2);
    var a4 := Xtime(a3);
    var a5 := Xtime(a4);
    var a6 := Xtime(a5);
    var a7 := Xtime(a6);
    assert MulBits(a7, b >> 7, 1) == Add(Take(b >> 7, a7), 0);
    assert MulBits(a6, b >> 6, 2) == Add(Take(b >> 6, a6), MulBits(a7, b >> 7, 1));
    assert MulBits(a5, b >> 5, 3) == Add(Take(b >> 5, a5), MulBits(a6, b >> 6, 2));
    assert MulBits(a4, b >> 4, 4) == Add(Take(b >> 4, a4), MulBits(a5, b >> 5, 3));
    assert MulBits(a3, b >> 3, 5) == Add(Take(b >> 3, a3), MulBits(a4, b >> 4, 4));
    assert MulBits(a2, b >> 2, 6) == Add(Take(b >> 2, a2), MulBits(a3, b >> 3, 5));
    assert MulBits(a1, b >> 1, 7) == Add(Take(b >> 1, a1), MulBits(a2, b >> 2, 6));
  }

  lemma ExpStep(i: nat, j: nat, p: bv8, q: bv8)
    requires Exp(i) == p && Exp(j) == q
    ensures Exp(i + j) == Mul(p, q)
  {
    ExpAdd(i, j);
  }

  lemma ExpPowersOfTwo()
    ensures Exp(1) == 0x03 && Exp(3) == 0x0f && Exp(4) == 0x11 && Exp(8) == 0x1a
    ensures Exp(16) == 0x5f && Exp(32) == 0xe5 && Exp(64) == 0x4c
  {
    assert Exp(1) == 0x03;
    assert Exp(2) == 0x05;
    assert Exp(3) == 0x0f;
    assert Exp(4) == 0x11;
    hide Mul, Exp;
    ExpStep(4, 4, 0x11, 0x11);
    MulUnrolled(0x11, 0x11);
    ExpStep(8, 8, 0x1a, 0x1a);
    MulUnrolled(0x1a, 0x1a);
    ExpStep(16, 16, 0x5f, 0x5f);
    MulUnrolled(0x5f, 0x5f);
    ExpStep(32, 32, 0xe5, 0xe5);
    MulUnrolled(0xe5, 0xe5);
  }

  /** 3^15 to 3^255 in steps of 15. */
  lemma ExpFifteens()
    ensures Exp(15) == 0x35 && Exp(30) == 0x66 && Exp(45) == 0xab && Exp(60) == 0xd3
    ensures Exp(75) == 0x08 && Exp(90) == 0xb3 && Exp(105) == 0x1d && Exp(120) == 0x2f
  {
    ExpPowersOfTwo();
    hide Mul, Exp;
    ExpStep(8, 4, 0x1a, 0x11);
    MulUnrolled(0x1a, 0x11);
    ExpStep(12, 3, 0xa1, 0x0f);
    MulUnrolled(0xa1, 0x0f);
    ExpStep(15, 15, 0x35, 0x35);
    MulUnrolled(0x35, 0x35);
    ExpStep(30, 15, 0x66, 0x35);
    MulUnrolled(0x66, 0x35);
    ExpStep(45, 15, 0xab, 0x35);
    MulUnrolled(0xab, 0x35);
    ExpStep(60, 15, 0xd3, 0x35);
    MulUnrolled(0xd3, 0x35);
    ExpStep(75, 15, 0x08, 0x35);
    MulUnrolled(0x08, 0x35);
    ExpStep(90, 15, 0xb3, 0x35);
    MulUnrolled(0xb3, 0x35);
    ExpStep(105, 15, 0x1d, 0x35);
    MulUnrolled(0x1d, 0x35);
  }

  lemma ExpFifteensOn()
    ensures Exp(135) == 0xc2 && Exp(150) == 0x40 && Exp(165) == 0xef && Exp(180) == 0xe8 && Exp(195) == 0x63
    ensures Exp(210) == 0x4a && Exp(225) == 0x36 && Exp(240) == 0x39 && Exp(255) == 0x01
  {
    ExpFifteens();
    hide Mul, Exp;
    ExpStep(120, 15, 0x2f, 0x35);
    MulUnrolled(0x2f, 0x35);
    ExpStep(135, 15, 0xc2, 0x35);
    MulUnrolled(0xc2, 0x35);
    ExpStep(150, 15, 0x40, 0x35);
    MulUnrolled(0x40, 0x35);
    ExpStep(165, 15, 0xef, 0x35);
    MulUnrolled(0xef, 0x35);
    ExpStep(180, 15, 0xe8, 0x35);
    MulUnrolled(0xe8, 0x35);
    ExpStep(195, 15, 0x63, 0x35);
    MulUnrolled(0x63, 0x35);
    ExpStep(210, 15, 0x4a, 0x35);
    MulUnrolled(0x4a, 0x35);
    ExpStep(225, 15, 0x36, 0x35);
    MulUnrolled(0x36, 0x35);
    ExpStep(240, 15, 0x39, 0x35);
    MulUnrolled(0x39, 0x35);
  }

  /** The powers with exponents 85, 170 and 51 to 204 in steps of 51 (3^255 has all of them as roots). */
  lemma ExpOthers()
    ensures Exp(85) != 1 && Exp(170) != 1
    ensures Exp(51) != 1 && Exp(102) != 1 && Exp(153) != 1 && Exp(204) != 1
  {
    ExpPowersOfTwo();
    hide Mul, Exp;
    ExpStep(32, 16, 0xe5, 0x5f);
    MulUnrolled(0xe5, 0x5f);
    ExpStep(48, 3, 0x53, 0x0f);
    MulUnrolled(0x53, 0x0f);
    ExpStep(51, 51, 0x0c, 0x0c);
    MulUnrolled(0x0c, 0x0c);
    ExpStep(102, 51, 0x50, 0x0c);
    MulUnrolled(0x50, 0x0c);
    ExpStep(153, 51, 0xed, 0x0c);
    MulUnrolled(0xed, 0x0c);
    ExpStep(64, 16, 0x4c, 0x5f);
    MulUnrolled(0x4c, 0x5f);
    ExpStep(80, 4, 0x83, 0x11);
    MulUnrolled(0x83, 0x11);
    ExpStep(84, 1, 0x6b, 0x03);
    MulUnrolled(0x6b, 0x03);
    ExpStep(85, 85, 0xbd, 0xbd);
    MulUnrolled(0xbd, 0xbd);
  }

  lemma OneMinus(a: nat, b: nat)
    requires a >= b && Exp(a) == 1 && Exp(b) == 1
    ensures Exp(a - b) == 1
  {
    ExpAdd(b, a - b);
    MulOne(Exp(a - b));
  }

  lemma {:induction false} OneTimes(g: nat, k: nat)
    requires Exp(g) == 1
    ensures Exp(g * k) == 1
  {
    if k > 0 {
      OneTimes(g, k - 1);
      ExpAdd(g, g * (k - 1));
      MulOne(1);
      assert g * k == g + g * (k - 1);
    } else {
      assert g * k == 0;
    }
  }

  lemma Reduce(d: nat, c: nat, p: nat)
    requires c * p == 255
    ensures p > 0 && c * d == 255 * (d / p) + c * (d % p)
  {
    var q, r := d / p, d % p;
    assert d == p * q + r;
    assert c * (p * q + r) == (c * p) * q + c * r;
  }

  lemma {:induction false} OneReduced(d: nat, c: nat, p: nat)
    requires Exp(d) == 1 && c * p == 255
    ensures Exp(c * (d % p)) == 1
  {
    ExpFifteensOn();
    hide Exp;
    Reduce(d, c, p);
    var q, r := d / p, d % p;
    OneTimes(d, c);
    OneTimes(255, q);
    var a, b, e := d * c, 255 * q, c * r;
    assert a == b + e by {
      assert d * c == c * d;
    }
    OneMinus(a, b);
  }

  lemma {:induction false} NotOneAbove(r: nat)
    ensures 0 < r < 3 ==> Exp(85 * r) != 1
    ensures 0 < r < 5 ==> Exp(51 * r) != 1
  {
    ExpOthers();
    hide Exp;
    assert 0 < r < 3 ==> r == 1 || r == 2;
    assert 0 < r < 5 ==> r == 1 || r == 2 || r == 3 || r == 4;
  }

  lemma {:induction false} NotOneFifteens(r: nat)
    requires 0 < r < 17
    ensures Exp(15 * r) != 1
  {
    ExpFifteens();
    ExpFifteensOn();
    hide Exp;
    assert r == 1 || r == 2 || r == 3 || r == 4 || r == 5 || r == 6 || r == 7 || r == 8
           || r == 9 || r == 10 || r == 11 || r == 12 || r == 13 || r == 14 || r == 15 || r == 16;
  }

  lemma NotAMultiple(d: nat)
    requires 0 < d < 255
    ensures d % 3 != 0 || d % 5 != 0 || d % 17 != 0
  {
    var k := d / 17;
    assert d % 17 == 0 ==> d == 17 * k && 0 < k < 15;
    assert k == 1 || k == 2 || k == 3 || k == 4 || k == 5 || k == 6 || k == 7 || k == 8 || k == 9
           || k == 10 || k == 11 || k == 12 || k == 13 || k == 14 || k == 0 || k >= 15;
  }

  /** The powers 3^1 to 3^254 are not 1. */
  lemma {:induction false} ExpOrder(d: nat)
    requires 0 < d < 255
    ensures Exp(d) != 1
  {
    hide Exp;
    NotAMultiple(d);
    if Exp(d) == 1 {
      if d % 3 != 0 {
        OneReduced(d, 85, 3);
        NotOneAbove(d % 3);
      } else if d % 5 != 0 {
        OneReduced(d, 51, 5);
        NotOneAbove(d % 5);
      } else {
        OneReduced(d, 15, 17);
        NotOneFifteens(d % 17);
      }
    }
  }

  lemma EqualPowers(i: nat, j: nat)
    requires i <= j && i <= 255 && Exp(i) == Exp(j)
    ensures Exp(j - i) == 1
  {
    ExpFifteensOn();
    hide Mul, Exp;
    ExpAdd(i, 255 - i);
    ExpAdd(j, 255 - i);
    ExpAdd(255, j - i);
    MulOne(Exp(j - i));
    assert j + (255 - i) == 255 + (j - i);
  }

  /** The powers 3^0 to 3^254 are distinct. */
  lemma {:induction false} ExpInjective(i: nat, j: nat)
    requires i < j < 255
    ensures Exp(i) != Exp(j)
  {
    hide Exp;
    if Exp(i) == Exp(j) {
      EqualPowers(i, j);
      ExpOrder(j - i);
    }
  }

  lemma ExpPeriod(i: nat)
    ensures Exp(i + 255) == Exp(i)
  {
    ExpFifteensOn();
    hide Mul, Exp;
    ExpAdd(255, i);
    MulOne(Exp(i));
  }

  lemma TripleNonzero(p: bv8)
    requires p != 0
    ensures Triple(p) != 0
  {
  }

  lemma {:induction false} ExpNonzero(i: nat)
    ensures Exp(i) != 0
  {
    if i > 0 {
      ExpNonzero(i - 1);
      TripleNonzero(Exp(i - 1));
    }
  }

  lemma NonzeroAsInt(a: bv8)
    requires a != 0
    ensures 1 <= a as int < 256
  {
  }

  lemma IntRoundTrip(a: bv8)
    ensures 0 <= a as int < 256 && (a as int) as bv8 == a
  {
  }

  ghost function Powers(n: nat): set<int>
  {
    if n == 0 then {} else Powers(n - 1) + {Exp(n - 1) as int}
  }

  ghost function UpTo(n: nat): set<int>
  {
    if n == 0 then {} else UpTo(n - 1) + {n}
  }

  lemma {:induction false} UpToExactly(n: nat, x: int)
    ensures x in UpTo(n) <==> 1 <= x <= n
  {
    if n > 0 {
      UpToExactly(n - 1, x);
    }
  }

  lemma {:induction false} UpToSize(n: nat)
    ensures |UpTo(n)| == n
  {
    if n > 0 {
      UpToSize(n - 1);
      UpToExactly(n - 1, n);
    }
  }

  lemma {:induction false} PowersIndex(n: nat, x: int) returns (i: nat)
    requires x in Powers(n)
    ensures i < n && x == Exp(i) as int
  {
    if x == Exp(n - 1) as int {
      i := n - 1;
    } else {
      i := PowersIndex(n - 1, x);
    }
  }

  lemma {:induction false} PowersSize(n: nat)
    requires n <= 255
    ensures |Powers(n)| == n
  {
    if n > 0 {
      PowersSize(n - 1);
      var x := Exp(n - 1) as int;
      if x in Powers(n - 1) {
        var i := PowersIndex(n - 1, x);
        ExpInjective(i, n - 1);
        IntRoundTrip(Exp(i));
        IntRoundTrip(Exp(n - 1));
      }
    }
  }

  lemma SameSize(s: set<int>, t: set<int>)
    requires s <= t && |s| == |t|
    ensures s == t
  {
    assert |t - s| == |t| - |s|;
  }

  /** Every nonzero element is a power of 3. */
  lemma ExpSurjective(a: bv8) returns (i: nat)
    requires a != 0
    ensures i < 255 && Exp(i) == a
  {
    PowersSize(255);
    UpToSize(255);
    hide Powers, UpTo, Exp;
    forall x | x in Powers(255)
      ensures x in UpTo(255)
    {
      var k := PowersIndex(255, x);
      ExpNonzero(k);
      NonzeroAsInt(Exp(k));
      UpToExactly(255, x);
    }
    SameSize(Powers(255), UpTo(255));
    NonzeroAsInt(a);
    UpToExactly(255, a as int);
    i := PowersIndex(255, a as int);
    IntRoundTrip(a);
    IntRoundTrip(Exp(i));
  }
}
