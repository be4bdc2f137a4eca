/**
  The tables of aes.c and gen_tabs, which builds them by logarithms and powers of 3. Each table
  is proved to hold what FIPS 197 says of the byte it is indexed by.
*/
module AesTables {
  import opened GaloisField
  import opened AesSpec

  // ---- bytes as indices

  function Index(b: bv8): nat
  {
    b as nat
  }

  /** Counting up to i in a byte. */
  function ByteOf(i: nat): bv8
    requires i < 256
  {
    if i == 0 then 0 else ByteOf(i - 1) + 1
  }

  lemma NextIndex(b: bv8)
    requires b != 255
    ensures Index(b + 1) == Index(b) + 1
  {
  }

  lemma LastIndex(b: bv8)
    ensures Index(b) < 256 && (Index(b) < 255 ==> b != 255) && (Index(b) == 0 <==> b == 0)
  {
  }

  lemma {:induction false} ByteOfIndex(i: nat)
    requires i < 256
    ensures Index(ByteOf(i)) == i
    ensures ByteOf(i) == 0 <==> i == 0
  {
    if i > 0 {
      ByteOfIndex(i - 1);
      LastIndex(ByteOf(i - 1));
      hide Index;
      NextIndex(ByteOf(i - 1));
    }
    LastIndex(ByteOf(i));
  }

  lemma IndexInjective(a: bv8, b: bv8)
    requires Index(a) == Index(b)
    ensures a == b
  {
    IntRoundTrip(a);
    IntRoundTrip(b);
  }

  lemma IndexRange(b: bv8)
    ensures Index(b) < 256 && ByteOf(Index(b)) == b
  {
    LastIndex(b);
    hide Index, ByteOf;
    ByteOfIndex(Index(b));
    IndexInjective(ByteOf(Index(b)), b);
  }

  lemma IndexDistinct(a: bv8, b: bv8)
    requires a != b
    ensures Index(a) != Index(b)
  {
    hide Index, ByteOf;
    IndexRange(a);
    IndexRange(b);
  }

  // ---- 32-bit words as columns: byte 0 of a column is the low byte of its word

  function Xor32(x: bv32, y: bv32): bv32
  {
    x ^ y
  }

  function Byte(x: bv32, n: nat): bv8
    requires n < 4
  {
    if n == 0 then (x & 0xff) as bv8
    else if n == 1 then ((x >> 8) & 0xff) as bv8
    else if n == 2 then ((x >> 16) & 0xff) as bv8
    else (x >> 24) as bv8
  }

  function Column(x: bv32): Col
  {
    Col(Byte(x, 0), Byte(x, 1), Byte(x, 2), Byte(x, 3))
  }

  function Word(b0: bv8, b1: bv8, b2: bv8, b3: bv8): bv32
  {
    (b0 as bv32) | ((b1 as bv32) << 8) | ((b2 as bv32) << 16) | ((b3 as bv32) << 24)
  }

  function Rotl32(x: bv32, n: nat): bv32
  {
    if n <= 32 then (x << n) | (x >> (32 - n)) else x
  }

  function Rotr32(x: bv32, n: nat): bv32
  {
    if n <= 32 then (x >> n) | (x << (32 - n)) else x
  }

  lemma ColumnWord(b0: bv8, b1: bv8, b2: bv8, b3: bv8)
    ensures Column(Word(b0, b1, b2, b3)) == Col(b0, b1, b2, b3)
  {
  }

  lemma WordColumn(x: bv32)
    ensures Word(Byte(x, 0), Byte(x, 1), Byte(x, 2), Byte(x, 3)) == x
  {
  }

  lemma ByteXor(x: bv32, y: bv32, n: nat)
    requires n < 4
    ensures Byte(Xor32(x, y), n) == Add(Byte(x, n), Byte(y, n))
  {
    if n == 0 {
    } else if n == 1 {
    } else if n == 2 {
    } else {
    }
  }

  lemma ColumnXor(x: bv32, y: bv32)
    ensures Column(Xor32(x, y)) == AddCol(Column(x), Column(y))
  {
    hide Byte, Xor32, Add;
    ByteXor(x, y, 0);
    ByteXor(x, y, 1);
    ByteXor(x, y, 2);
    ByteXor(x, y, 3);
  }

  lemma ColumnRotl8(x: bv32)
    ensures Column(Rotl32(x, 8)) == Rotated(Column(x))
  {
  }

  lemma ColumnRotl16(x: bv32)
    ensures Column(Rotl32(x, 16)) == Rotated(Rotated(Column(x)))
  {
  }

  lemma ColumnRotl24(x: bv32)
    ensures Column(Rotl32(x, 24)) == Rotated(Rotated(Rotated(Column(x))))
  {
  }

  lemma ColumnSmall(b: bv8)
    ensures Column(b as bv32) == Col(b, 0, 0, 0)
  {
  }

  // ---- what the round tables hold

  datatype Kind = ForwardLast | ForwardRound | InverseLast | InverseRound

  /** The column whose byte k is b and whose other bytes are 0. */
  function Unit(k: nat, b: bv8): Col
  {
    if k == 0 then Col(b, 0, 0, 0) else if k == 1 then Col(0, b, 0, 0) else if k == 2 then Col(0, 0, b, 0)
      else Col(0, 0, 0, b)
  }

  /** Entry b of row k: the S-box value of b in row k, passed through the column map of the round. */
  ghost function Entry(kind: Kind, k: nat, b: bv8): Col
  {
    match kind
    case ForwardLast => Unit(k, Sbox(b))
    case ForwardRound => MixColumn(Unit(k, Sbox(b)))
    case InverseLast => Unit(k, InvSbox(b))
    case InverseRound => InvMixColumn(Unit(k, InvSbox(b)))
  }

  /** Each row of a table is the row before it, turned by one byte. */
  lemma EntryTurns(kind: Kind, k: nat, b: bv8)
    requires k < 3
    ensures Entry(kind, k + 1, b) == Rotated(Entry(kind, k, b))
  {
    hide MixColumn, InvMixColumn, Sbox, InvSbox;
    MixRotated(Unit(k, Sbox(b)));
    InvMixRotated(Unit(k, InvSbox(b)));
  }

  /** The rotations gen_tabs stores are the other rows. */
  lemma FirstRow(kind: Kind, b: bv8, t: bv32)
    requires Column(t) == Entry(kind, 0, b)
    ensures Column(Rotl32(t, 8)) == Entry(kind, 1, b)
  {
    ColumnRotl8(t);
    hide *;
    EntryTurns(kind, 0, b);
  }

  lemma SecondRow(kind: Kind, b: bv8, t: bv32)
    requires Column(t) == Entry(kind, 0, b)
    ensures Column(Rotl32(t, 16)) == Entry(kind, 2, b)
  {
    ColumnRotl16(t);
    hide *;
    EntryTurns(kind, 0, b);
    EntryTurns(kind, 1, b);
  }

  lemma ThirdRow(kind: Kind, b: bv8, t: bv32)
    requires Column(t) == Entry(kind, 0, b)
    ensures Column(Rotl32(t, 24)) == Entry(kind, 3, b)
  {
    ColumnRotl24(t);
    hide *;
    EntryTurns(kind, 0, b);
    EntryTurns(kind, 1, b);
    EntryTurns(kind, 2, b);
  }

  lemma RoundEntry(p: bv8, b: bv8)
    requires p == Sbox(b)
    ensures Column(Word(Mul(2, p), p, p, Mul(3, p))) == Entry(ForwardRound, 0, b)
  {
    hide Mul, Sbox, MixColumn;
    ColumnWord(Mul(2, p), p, p, Mul(3, p));
    MixSingle(p);
    SmallMultiples(p);
    hide Column, Word;
  }

  lemma InverseEntry(p: bv8, b: bv8)
    requires p == InvSbox(b)
    ensures Column(Word(Mul(14, p), Mul(9, p), Mul(13, p), Mul(11, p))) == Entry(InverseRound, 0, b)
  {
    hide Mul, InvSbox;
    ColumnWord(Mul(14, p), Mul(9, p), Mul(13, p), Mul(11, p));
    hide Column, Word;
    DotSingle(14, 11, 13, 9, p);
    DotSingle(9, 14, 11, 13, p);
    DotSingle(13, 9, 14, 11, p);
    DotSingle(11, 13, 9, 14, p);
    hide Dot;
  }

  // ---- logarithms

  /** pow[i] = 3^i, and log[3^i] = i for the 255 nonzero elements. */
  ghost predicate LogsOk(pow: seq<bv8>, log: seq<nat>)
  {
    && |pow| == 256 && |log| == 256
    && (forall i :: 0 <= i < 256 ==> pow[i] == Exp(i))
    && (forall b: bv8 :: b != 0 ==> LogOf(log, b))
  }

  /** log[b] is the logarithm of b. */
  ghost predicate LogOf(log: seq<nat>, b: bv8)
  {
    Index(b) < |log| && log[Index(b)] < 255 && Exp(log[Index(b)]) == b
  }

  /** The loop of gen_tabs after n of its 256 steps, before log[1] is put right. */
  ghost predicate LogsUpTo(pow: seq<bv8>, log: seq<nat>, n: nat)
  {
    && |pow| == 256 && |log| == 256 && n <= 256
    && (forall i :: 0 <= i < n ==> pow[i] == Exp(i))
    && (forall i :: 0 < i < n && i < 255 ==> Index(Exp(i)) < 256 && log[Index(Exp(i))] == i)
  }

  lemma {:induction false} LogsStep(pow: seq<bv8>, log: seq<nat>, n: nat, at: nat)
    requires LogsUpTo(pow, log, n) && n < 256 && at == Index(Exp(n)) && at < 256
    ensures LogsUpTo(pow[n := Exp(n)], log[at := n], n + 1)
  {
    hide Index, Exp;
    var log' := log[at := n];
    forall i | 0 < i < n + 1 && i < 255
      ensures Index(Exp(i)) < 256 && log'[Index(Exp(i))] == i
    {
      if i < n {
        if n < 255 {
          ExpInjective(i, n);
        } else {
          ExpFifteensOn();
          ExpOrder(i);
        }
        IndexDistinct(Exp(i), Exp(n));
      }
    }
  }

  lemma LogsDone(pow: seq<bv8>, log: seq<nat>, one: nat)
    requires LogsUpTo(pow, log, 256) && one == Index(1) && one < 256
    ensures LogsOk(pow, log[one := 0])
  {
    var log' := log[one := 0];
    assert Exp(0) == 1;
    hide Index, Exp;
    forall b: bv8 | b != 0
      ensures LogOf(log', b)
    {
      var i := ExpSurjective(b);
      if i != 0 {
        ExpOrder(i);
        IndexDistinct(Exp(i), 1);
      }
    }
  }

  /** Adding logarithms modulo 256 with an end-around carry multiplies: 3^255 = 1. */
  lemma LogsMultiply(pow: seq<bv8>, log: seq<nat>, a: bv8, b: bv8)
    requires LogsOk(pow, log) && a != 0 && b != 0
    ensures LogOf(log, a) && LogOf(log, b)
    ensures
      var aa := log[Index(a)];
      var cc := (aa + log[Index(b)]) % 256;
      var at := cc + (if cc < aa then 1 else 0);
      at < 256 && pow[at] == Mul(a, b)
  {
    hide Index, Exp, Mul;
    assert LogOf(log, a) && LogOf(log, b);
    var i, j := log[Index(a)], log[Index(b)];
    ExpAdd(i, j);
    if i + j >= 256 {
      ExpPeriod(i + j - 255);
    }
  }

  lemma LogsInvert(pow: seq<bv8>, log: seq<nat>, b: bv8)
    requires LogsOk(pow, log) && b != 0
    ensures LogOf(log, b) && pow[255 - log[Index(b)]] == Inverse(b)
  {
    hide Index, Exp, Mul, Inverse;
    assert LogOf(log, b);
    var i := log[Index(b)];
    ExpAdd(i, 255 - i);
    ExpFifteensOn();
    InverseUnique(b, Exp(255 - i), Inverse(b));
  }

  // ---- S-boxes

  ghost predicate SboxesUpTo(sbx: seq<bv8>, isb: seq<bv8>, n: nat)
  {
    && |sbx| == 256 && |isb| == 256 && n <= 256
    && (forall i :: 0 <= i < n ==> sbx[i] == Sbox(ByteOf(i)))
    && (forall i :: 0 <= i < n ==> InvOf(isb, ByteOf(i)))
  }

  ghost predicate InvOf(isb: seq<bv8>, b: bv8)
  {
    Index(Sbox(b)) < |isb| && isb[Index(Sbox(b))] == b
  }

  lemma {:induction false} SboxesStep(sbx: seq<bv8>, isb: seq<bv8>, n: nat, at: nat)
    requires SboxesUpTo(sbx, isb, n) && n < 256 && at == Index(Sbox(ByteOf(n))) && at < 256
    ensures SboxesUpTo(sbx[n := Sbox(ByteOf(n))], isb[at := ByteOf(n)], n + 1)
  {
    hide Index, ByteOf, Sbox;
    var isb' := isb[at := ByteOf(n)];
    forall i | 0 <= i < n + 1
      ensures InvOf(isb', ByteOf(i))
    {
      if i < n {
        ByteOfIndex(i);
        ByteOfIndex(n);
        InvSboxSbox(ByteOf(i));
        InvSboxSbox(ByteOf(n));
        IndexDistinct(Sbox(ByteOf(i)), Sbox(ByteOf(n)));
      }
    }
  }

  lemma AffineOnto(b: bv8)
    ensures Affine(InvAffine(b)) == b
  {
  }

  lemma SboxInvSbox(b: bv8)
    ensures Sbox(InvSbox(b)) == b
  {
    hide Affine, InvAffine, Inverse;
    InverseInvolution(InvAffine(b));
    AffineOnto(b);
  }

  /** isb_tab, filled in the order of the S-box values, ends up with the inverse S-box in every place. */
  lemma {:induction false} SboxesDone(sbx: seq<bv8>, isb: seq<bv8>, i: nat)
    requires SboxesUpTo(sbx, isb, 256) && i < 256
    ensures sbx[i] == Sbox(ByteOf(i)) && isb[i] == InvSbox(ByteOf(i))
  {
    hide Index, ByteOf, Sbox, InvSbox;
    var b := InvSbox(ByteOf(i));
    SboxInvSbox(ByteOf(i));
    ByteOfIndex(i);
    IndexRange(b);
    assert InvOf(isb, ByteOf(Index(b)));
  }

  /** The two rotations of gen_tabs compute the affine map. */
  lemma AffineByRotations(p: bv8)
    ensures
      var q := ((p >> 7) | (p << 1)) ^ ((p >> 6) | (p << 2));
      p ^ (0x63 ^ q ^ ((q >> 6) | (q << 2))) == Affine(p)
  {
  }

  // ---- the tables and gen_tabs

  /** The first n entries of each of the four rows. */
  ghost predicate TableUpTo(t: array2<bv32>, kind: Kind, n: nat)
    reads t
  {
    && t.Length0 == 4 && t.Length1 == 256 && n <= 256
    && forall k, i :: 0 <= k < 4 && 0 <= i < n ==> Column(t[k, i]) == Entry(kind, k, ByteOf(i))
  }

  ghost predicate RconUpTo(rco: seq<bv32>, n: nat)
  {
    n <= |rco| && forall i :: 0 <= i < n ==> Column(rco[i]) == Col(RconByte(i + 1), 0, 0, 0)
  }

  /** Entry i of a table and its three rotations. */
  method StoreRows(t: array2<bv32>, ghost kind: Kind, i: nat, v: bv32)
    requires TableUpTo(t, kind, i) && i < 256 && Column(v) == Entry(kind, 0, ByteOf(i))
    modifies t
    ensures TableUpTo(t, kind, i + 1)
  {
    hide Column, Entry, ByteOf, Rotl32;
    FirstRow(kind, ByteOf(i), v);
    SecondRow(kind, ByteOf(i), v);
    ThirdRow(kind, ByteOf(i), v);
    t[0, i] := v;
    t[1, i] := Rotl32(v, 8);
    t[2, i] := Rotl32(v, 16);
    t[3, i] := Rotl32(v, 24);
  }

  ghost predicate Apart(a: object, others: set<object>)
  {
    a !in others
  }

  class Tables {
    const pow: array<bv8>
    const log: array<nat>
    const sbx: array<bv8>
    const isb: array<bv8>
    const rco: array<bv32>
    const fl: array2<bv32>
    const ft: array2<bv32>
    const il: array2<bv32>
    const it: array2<bv32>

    ghost predicate Shape()
    {
      && pow.Length == log.Length == sbx.Length == isb.Length == 256 && rco.Length == 10
      && pow != sbx && pow != isb && sbx != isb && Apart(log, {pow, sbx, isb})
      && fl.Length0 == ft.Length0 == il.Length0 == it.Length0 == 4
      && fl.Length1 == ft.Length1 == il.Length1 == it.Length1 == 256
      && fl != ft && fl != il && fl != it && ft != il && ft != it && il != it
    }

    ghost predicate RowsUpTo(n: nat)
      reads fl, ft, il, it
    {
      && TableUpTo(fl, ForwardLast, n) && TableUpTo(ft, ForwardRound, n)
      && TableUpTo(il, InverseLast, n) && TableUpTo(it, InverseRound, n)
    }

    /** Every table that the cipher reads holds what the standard says. */
    ghost predicate Built()
      reads rco, fl, ft, il, it
    {
      RconUpTo(rco[..], 10) && RowsUpTo(256)
    }

    constructor ()
      ensures Shape()
      ensures fresh(pow) && fresh(log) && fresh(sbx) && fresh(isb) && fresh(rco)
      ensures fresh(fl) && fresh(ft) && fresh(il) && fresh(it)
    {
      pow := new bv8[256];
      log := new nat[256];
      sbx := new bv8[256];
      isb := new bv8[256];
      rco := new bv32[10];
      fl := new bv32[4, 256];
      ft := new bv32[4, 256];
      il := new bv32[4, 256];
      it := new bv32[4, 256];
    }

    /** ff_mult: multiplication by logarithms, with 0 apart; the sum of logarithms is an unsigned byte. */
    method Multiply(a: bv8, b: bv8) returns (c: bv8)
      requires Shape() && LogsOk(pow[..], log[..])
      ensures c == Mul(a, b)
    {
      hide Index, Mul, LogsOk;
      if a == 0 || b == 0 {
        MulZero(b);
        MulRightZero(a);
        c := 0;
      } else {
        LogsMultiply(pow[..], log[..], a, b);
        var aa := log[Index(a)];
        var cc := (aa + log[Index(b)]) % 256;
        c := pow[cc + (if cc < aa then 1 else 0)];
      }
    }

    method GenLogs()
      requires Shape()
      modifies pow, log
      ensures LogsOk(pow[..], log[..])
    {
      hide Index, LogsUpTo, LogsOk;
      var p: bv8 := 1;
      assert LogsUpTo(pow[..], log[..], 0) by { LogsStart(pow[..], log[..]); }
      for i := 0 to 256
        invariant p == Exp(i)
        invariant LogsUpTo(pow[..], log[..], i)
      {
        IndexRange(p);
        LogsStep(pow[..], log[..], i, Index(p));
        ghost var powWas, logWas := pow[..], log[..];
        pow[i] := p;
        log[Index(p)] := i;
        assert pow[..] == powWas[i := p] && log[..] == logWas[Index(p) := i];
        p := p ^ ((p << 1) ^ (if p & 0x80 != 0 then 0x1b else 0));
      }
      IndexRange(1);
      LogsDone(pow[..], log[..], Index(1));
      ghost var logWas := log[..];
      log[Index(1)] := 0;
      assert log[..] == logWas[Index(1) := 0];
    }

    method GenRcon()
      requires Shape()
      modifies rco
      ensures RconUpTo(rco[..], 10)
    {
      hide Column;
      var p: bv8 := 1;
      for i := 0 to 10
        invariant p == RconByte(i + 1)
        invariant RconUpTo(rco[..], i)
      {
        ColumnSmall(p);
        rco[i] := p as bv32;
        p := (p << 1) ^ (if p & 0x80 != 0 then 0x1b else 0);
      }
    }

    /** One S-box value: the inverse by logarithms, then the affine map by rotations. */
    method SboxValue(i: nat) returns (p: bv8)
      requires Shape() && LogsOk(pow[..], log[..]) && i < 256
      ensures p == Sbox(ByteOf(i))
    {
      hide Index, ByteOf, LogsOk, Affine, Inverse;
      ByteOfIndex(i);
      p := 0;
      if i != 0 {
        LogsInvert(pow[..], log[..], ByteOf(i));
        p := pow[255 - log[i]];
      }
      AffineByRotations(p);
      var q := ((p >> 7) | (p << 1)) ^ ((p >> 6) | (p << 2));
      p := p ^ (0x63 ^ q ^ ((q >> 6) | (q << 2)));
    }

    method GenSboxes()
      requires Shape() && LogsOk(pow[..], log[..])
      modifies sbx, isb
      ensures SboxesUpTo(sbx[..], isb[..], 256)
    {
      hide Index, ByteOf, LogsOk, SboxesUpTo, Sbox;
      SboxesStart(sbx[..], isb[..]);
      ghost var powWas, logWas := pow[..], log[..];
      for i := 0 to 256
        invariant pow[..] == powWas && log[..] == logWas
        invariant SboxesUpTo(sbx[..], isb[..], i)
      {
        var p := SboxValue(i);
        IndexRange(p);
        SboxesStep(sbx[..], isb[..], i, Index(p));
        ghost var sbxWas, isbWas := sbx[..], isb[..];
        sbx[i] := p;
        isb[Index(p)] := ByteOf(i);
        assert sbx[..] == sbxWas[i := p] && isb[..] == isbWas[Index(p) := ByteOf(i)];
      }
    }

    method GenRow(i: nat)
      requires Shape() && LogsOk(pow[..], log[..]) && SboxesUpTo(sbx[..], isb[..], 256) && i < 256 && RowsUpTo(i)
      modifies fl, ft, il, it
      ensures RowsUpTo(i + 1)
    {
      hide ByteOf, LogsOk, SboxesUpTo, Sbox, InvSbox, Mul, Column, MixColumn, InvMixColumn, Word, TableUpTo;
      SboxesDone(sbx[..], isb[..], i);
      var p := sbx[i];
      ColumnSmall(p);
      StoreRows(fl, ForwardLast, i, p as bv32);
      var m2 := Multiply(2, p);
      var m3 := Multiply(3, p);
      RoundEntry(p, ByteOf(i));
      StoreRows(ft, ForwardRound, i, Word(m2, p, p, m3));
      p := isb[i];
      ColumnSmall(p);
      StoreRows(il, InverseLast, i, p as bv32);
      var m14 := Multiply(14, p);
      var m9 := Multiply(9, p);
      var m13 := Multiply(13, p);
      var m11 := Multiply(11, p);
      InverseEntry(p, ByteOf(i));
      StoreRows(it, InverseRound, i, Word(m14, m9, m13, m11));
    }

    /** gen_tabs. */
    method GenTabs()
      requires Shape()
      modifies pow, log, sbx, isb, rco, fl, ft, il, it
      ensures Built()
    {
      hide LogsOk, SboxesUpTo, RconUpTo, TableUpTo;
      GenLogs();
      ghost var powWas, logWas := pow[..], log[..];
      GenRcon();
      assert pow[..] == powWas && log[..] == logWas;
      GenSboxes();
      RowsStart(this);
      assert pow[..] == powWas && log[..] == logWas;
      for i := 0 to 256
        invariant LogsOk(pow[..], log[..]) && SboxesUpTo(sbx[..], isb[..], 256) && RconUpTo(rco[..], 10)
        invariant RowsUpTo(i)
      {
        GenRow(i);
      }
    }
  }

  lemma LogsStart(pow: seq<bv8>, log: seq<nat>)
    requires |pow| == 256 && |log| == 256
    ensures LogsUpTo(pow, log, 0)
  {
  }

  lemma SboxesStart(sbx: seq<bv8>, isb: seq<bv8>)
    requires |sbx| == 256 && |isb| == 256
    ensures SboxesUpTo(sbx, isb, 0)
  {
  }

  lemma RowsStart(t: Tables)
    requires t.Shape()
    ensures t.RowsUpTo(0)
  {
  }
}
