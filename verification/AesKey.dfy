/**
  The key schedule of aes.c: star_x and imix_col on whole words, and the loops that fill the
  encryption schedule.
*/
module AesKey {
  import opened GaloisField
  import opened AesSpec
  import opened AesTables
  import opened AesRounds

  // ---- imix_col is InvMixColumn on a word

  /** star_x: multiplication by x in each byte of a word at once. */
  function StarX(x: bv32): bv32
  {
    ((x & 0x7f7f7f7f) << 1) ^ (((x & 0x80808080) >> 7) * 0x1b)
  }

  function XtimeCol(c: Col): Col
  {
    Col(Xtime(c.b0), Xtime(c.b1), Xtime(c.b2), Xtime(c.b3))
  }

  /** The four possible carries, one in each byte. */
  lemma Carries(x: bv32)
    ensures ((x & 0x80808080) >> 7) * 0x1b
            == (if x & 0x80 != 0 then 0x1b else 0) | (if x & 0x8000 != 0 then 0x1b00 else 0)
             | (if x & 0x800000 != 0 then 0x1b0000 else 0) | (if x & 0x80000000 != 0 then 0x1b000000 else 0)
  {
  }

  lemma StarXByte(x: bv32, n: nat)
    requires n < 4
    ensures Byte(StarX(x), n) == Xtime(Byte(x, n))
  {
    Carries(x);
    if n == 0 {
    } else if n == 1 {
    } else if n == 2 {
    } else {
    }
  }

  lemma ColumnStarX(x: bv32)
    ensures Column(StarX(x)) == XtimeCol(Column(x))
  {
    hide Byte, StarX, Xtime;
    StarXByte(x, 0);
    StarXByte(x, 1);
    StarXByte(x, 2);
    StarXByte(x, 3);
  }

  lemma ColumnRotr8(x: bv32)
    ensures Column(Rotr32(x, 8)) == RotWord(Column(x))
  {
  }

  lemma ColumnRotr16(x: bv32)
    ensures Column(Rotr32(x, 16)) == RotWord(RotWord(Column(x)))
  {
  }

  lemma ColumnRotr24(x: bv32)
    ensures Column(Rotr32(x, 24)) == RotWord(RotWord(RotWord(Column(x))))
  {
  }

  function ImixCol(x: bv32): bv32
  {
    var u := StarX(x);
    var v := StarX(u);
    var w := StarX(v);
    var t := Xor32(w, x);
    Xor32(Xor32(Xor32(u, v), w), Xor32(Xor32(Rotr32(Xor32(u, t), 8), Rotr32(Xor32(v, t), 16)), Rotr32(t, 24)))
  }

  /** The sum ImixCol forms, on columns. */
  function ImixSum(c: Col): Col
  {
    var u := XtimeCol(c);
    var v := XtimeCol(u);
    var w := XtimeCol(v);
    var t := AddCol(w, c);
    AddCol(AddCol(AddCol(u, v), w),
           AddCol(AddCol(RotWord(AddCol(u, t)), RotWord(RotWord(AddCol(v, t)))), RotWord(RotWord(RotWord(t)))))
  }

  lemma ColumnImix(x: bv32)
    ensures Column(ImixCol(x)) == ImixSum(Column(x))
  {
    hide Column, StarX, XtimeCol, Xor32, AddCol, Rotr32, RotWord;
    var u := StarX(x);
    var v := StarX(u);
    var w := StarX(v);
    var t := Xor32(w, x);
    ColumnStarX(x);
    ColumnStarX(u);
    ColumnStarX(v);
    ColumnXor(w, x);
    ColumnXor(u, v);
    ColumnXor(Xor32(u, v), w);
    ColumnXor(u, t);
    ColumnXor(v, t);
    ColumnRotr8(Xor32(u, t));
    ColumnRotr16(Xor32(v, t));
    ColumnRotr24(t);
    ColumnXor(Rotr32(Xor32(u, t), 8), Rotr32(Xor32(v, t), 16));
    ColumnXor(Xor32(Rotr32(Xor32(u, t), 8), Rotr32(Xor32(v, t), 16)), Rotr32(t, 24));
    ColumnXor(Xor32(Xor32(u, v), w), Xor32(Xor32(Rotr32(Xor32(u, t), 8), Rotr32(Xor32(v, t), 16)), Rotr32(t, 24)));
  }

  lemma Reverse(a: bv8, b: bv8, c: bv8)
    ensures Add(Add(a, b), c) == Add(c, Add(b, a))
  {
    assert (a ^ b) ^ c == c ^ (b ^ a);
  }

  lemma FirstLast(a: bv8, b: bv8, c: bv8)
    ensures Add(a, Add(b, c)) == Add(b, Add(c, a))
  {
    assert a ^ (b ^ c) == b ^ (c ^ a);
  }

  lemma FirstTwo(a: bv8, b: bv8, c: bv8)
    ensures Add(a, Add(b, c)) == Add(b, Add(a, c))
  {
    assert a ^ (b ^ c) == b ^ (a ^ c);
  }

  lemma Reassociate(a: bv8, b: bv8, c: bv8, d: bv8)
    ensures Add(a, Add(Add(b, c), d)) == Add(Add(a, b), Add(c, d))
  {
    assert a ^ ((b ^ c) ^ d) == (a ^ b) ^ (c ^ d);
  }

  lemma ImixByte(a: bv8, b: bv8, c: bv8, d: bv8)
    ensures
      var x, y, z, u := Xtime(a), Xtime(b), Xtime(c), Xtime(d);
      var x4, y4, z4, u4 := Xtime(x), Xtime(y), Xtime(z), Xtime(u);
      Add(Add(Add(x, x4), Xtime(x4)), Add(Add(Add(y, Add(Xtime(y4), b)), Add(z4, Add(Xtime(z4), c))),
        Add(Xtime(u4), d)))
      == Dot(14, 11, 13, 9, Col(a, b, c, d))
  {
    hide Add, Mul, Xtime;
    Multiples(a);
    Multiples(b);
    Multiples(c);
    Multiples(d);
    var x, y, z, u := Xtime(a), Xtime(b), Xtime(c), Xtime(d);
    var x4, y4, z4, u4 := Xtime(x), Xtime(y), Xtime(z), Xtime(u);
    Reverse(x, x4, Xtime(x4));
    FirstLast(y, Xtime(y4), b);
    FirstTwo(z4, Xtime(z4), c);
    Reassociate(Mul(14, a), Mul(11, b), Mul(13, c), Mul(9, d));
  }

  /** imix_col is the inverse column map of section 5.3.3 of FIPS 197. */
  lemma ImixIsInvMixColumn(x: bv32)
    ensures Column(ImixCol(x)) == InvMixColumn(Column(x))
  {
    ColumnImix(x);
    var c := Column(x);
    hide ImixCol, Column, Dot, Add, Xtime;
    ImixByte(c.b0, c.b1, c.b2, c.b3);
    ImixByte(c.b1, c.b2, c.b3, c.b0);
    ImixByte(c.b2, c.b3, c.b0, c.b1);
    ImixByte(c.b3, c.b0, c.b1, c.b2);
    DotTurns(c);
  }

  lemma DotTurns(c: Col)
    ensures Dot(14, 11, 13, 9, RotWord(c)) == Dot(9, 14, 11, 13, c)
    ensures Dot(14, 11, 13, 9, RotWord(RotWord(c))) == Dot(13, 9, 14, 11, c)
    ensures Dot(14, 11, 13, 9, RotWord(RotWord(RotWord(c)))) == Dot(11, 13, 9, 14, c)
  {
    hide Mul, Add;
    Turn(Mul(9, c.b0), Mul(14, c.b1), Mul(11, c.b2), Mul(13, c.b3));
    Turn(Mul(13, c.b0), Mul(9, c.b1), Mul(14, c.b2), Mul(11, c.b3));
    Turn(Mul(11, c.b0), Mul(13, c.b1), Mul(9, c.b2), Mul(14, c.b3));
  }

  // ---- the encryption schedule

  /** ls_box: the S-box in each byte of a word. */
  method LsBox(t: array2<bv32>, x: bv32) returns (y: bv32)
    requires TableUpTo(t, ForwardLast, 256)
    ensures Column(y) == SubCol(Column(x))
  {
    hide TableUpTo, Column, RoundColumn, SubCol, Xor32;
    y := RoundWord(t, ForwardLast, x, x, x, x, 0);
    LookupsAreRound(Column(x).b0, Column(x).b1, Column(x).b2, Column(x).b3, Column(0));
    NoKey(SubCol(Column(x)));
  }

  lemma NoKey(c: Col)
    ensures AddCol(c, Column(0)) == c
  {
  }

  lemma AddColCommutes(x: Col, y: Col)
    ensures AddCol(x, y) == AddCol(y, x)
  {
  }

  /** The first n words are words of the expanded key. */
  ghost predicate ExpandedUpTo(e: seq<bv32>, key: seq<Col>, n: nat)
  {
    KeySize(|key|) && n <= |e| && forall i :: 0 <= i < n ==> Column(e[i]) == KeyWord(key, i)
  }

  /** One line of a loop macro: the next word is the running word plus the word Nk places back. */
  method Chain(e: array<bv32>, ghost key: seq<Col>, nk: nat, n: nat, t: bv32) returns (next: bv32)
    requires ExpandedUpTo(e[..], key, n) && |key| == nk && nk <= n < e.Length
    requires Column(t) == Temp(nk, n, KeyWord(key, n - 1))
    modifies e
    ensures ExpandedUpTo(e[..], key, n + 1) && Column(next) == KeyWord(key, n)
  {
    hide Column, Temp, AddCol, Xor32;
    ColumnXor(t, e[n - nk]);
    AddColCommutes(Column(t), Column(e[n - nk]));
    next := Xor32(t, e[n - nk]);
    assert e[..][n - nk] == e[n - nk];
    ghost var was := e[..];
    e[n] := next;
    assert e[..] == was[n := next];
  }

  /** The first line of a loop macro: rotate, substitute, add the round constant. */
  method Core(tb: Tables, ghost key: seq<Col>, ghost n: nat, i: nat, t: bv32) returns (next: bv32)
    requires tb.Shape() && tb.Built() && KeySize(|key|) && i < 10 && n > 0
    requires Place(|key|, n) == 0 && Turns(|key|, n) == i + 1 && Column(t) == KeyWord(key, n - 1)
    ensures Column(next) == Temp(|key|, n, KeyWord(key, n - 1))
  {
    hide TableUpTo, Column, SubCol, AddCol, KeyWord, Rotr32, Xor32, RconByte;
    ColumnRotr8(t);
    var u := LsBox(tb.fl, Rotr32(t, 8));
    assert tb.rco[..][i] == tb.rco[i];
    ColumnXor(u, tb.rco[i]);
    next := Xor32(u, tb.rco[i]);
  }

  /** loop4. */
  method Loop4(tb: Tables, e: array<bv32>, ghost key: seq<Col>, i: nat, t: bv32) returns (next: bv32)
    requires tb.Shape() && tb.Built() && e != tb.rco && |key| == 4 && i < 10 && 4 * i + 8 <= e.Length
    requires ExpandedUpTo(e[..], key, 4 * i + 4) && Column(t) == KeyWord(key, 4 * i + 3)
    modifies e
    ensures ExpandedUpTo(e[..], key, 4 * i + 8) && Column(next) == KeyWord(key, 4 * i + 7)
  {
    hide ExpandedUpTo, Column, KeyWord, SubCol, AddCol, RconByte, TableUpTo, RconUpTo;
    next := Core(tb, key, 4 * i + 4, i, t);
    next := Chain(e, key, 4, 4 * i + 4, next);
    next := Chain(e, key, 4, 4 * i + 5, next);
    next := Chain(e, key, 4, 4 * i + 6, next);
    next := Chain(e, key, 4, 4 * i + 7, next);
  }

  /** loop6. */
  method Loop6(tb: Tables, e: array<bv32>, ghost key: seq<Col>, i: nat, t: bv32) returns (next: bv32)
    requires tb.Shape() && tb.Built() && e != tb.rco && |key| == 6 && i < 10 && 6 * i + 12 <= e.Length
    requires ExpandedUpTo(e[..], key, 6 * i + 6) && Column(t) == KeyWord(key, 6 * i + 5)
    modifies e
    ensures ExpandedUpTo(e[..], key, 6 * i + 12) && Column(next) == KeyWord(key, 6 * i + 11)
  {
    hide ExpandedUpTo, Column, KeyWord, SubCol, AddCol, RconByte, TableUpTo, RconUpTo;
    next := Core(tb, key, 6 * i + 6, i, t);
    next := Chain(e, key, 6, 6 * i + 6, next);
    next := Chain(e, key, 6, 6 * i + 7, next);
    next := Chain(e, key, 6, 6 * i + 8, next);
    next := Chain(e, key, 6, 6 * i + 9, next);
    next := Chain(e, key, 6, 6 * i + 10, next);
    next := Chain(e, key, 6, 6 * i + 11, next);
  }

  /** The second half of loop8, which starts with another substitution. */
  method Loop8Second(tb: Tables, e: array<bv32>, ghost key: seq<Col>, i: nat, t: bv32) returns (next: bv32)
    requires tb.Shape() && tb.Built() && e != tb.rco && |key| == 8 && 8 * i + 16 <= e.Length
    requires ExpandedUpTo(e[..], key, 8 * i + 12) && Column(t) == KeyWord(key, 8 * i + 11)
    modifies e
    ensures ExpandedUpTo(e[..], key, 8 * i + 16) && Column(next) == KeyWord(key, 8 * i + 15)
  {
    hide ExpandedUpTo, Column, KeyWord, SubCol, AddCol, RconByte, TableUpTo, RconUpTo;
    next := LsBox(tb.fl, t);
    next := Chain(e, key, 8, 8 * i + 12, next);
    next := Chain(e, key, 8, 8 * i + 13, next);
    next := Chain(e, key, 8, 8 * i + 14, next);
    next := Chain(e, key, 8, 8 * i + 15, next);
  }

  /** loop8. */
  method Loop8(tb: Tables, e: array<bv32>, ghost key: seq<Col>, i: nat, t: bv32) returns (next: bv32)
    requires tb.Shape() && tb.Built() && e != tb.rco && |key| == 8 && i < 10 && 8 * i + 16 <= e.Length
    requires ExpandedUpTo(e[..], key, 8 * i + 8) && Column(t) == KeyWord(key, 8 * i + 7)
    modifies e
    ensures ExpandedUpTo(e[..], key, 8 * i + 16) && Column(next) == KeyWord(key, 8 * i + 15)
  {
    hide ExpandedUpTo, Column, KeyWord, SubCol, AddCol, RconByte, TableUpTo, RconUpTo;
    next := Core(tb, key, 8 * i + 8, i, t);
    next := Chain(e, key, 8, 8 * i + 8, next);
    next := Chain(e, key, 8, 8 * i + 9, next);
    next := Chain(e, key, 8, 8 * i + 10, next);
    next := Chain(e, key, 8, 8 * i + 11, next);
    next := Loop8Second(tb, e, key, i, next);
  }
}
