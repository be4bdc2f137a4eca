/**
  The round macros of aes.c: each word of the new state is the sum of four table lookups and a
  key word, and the four words together are one round of FIPS 197.
*/
module AesRounds {
  import opened GaloisField
  import opened AesSpec
  import opened AesTables

  function WordsState(b: seq<bv32>): State
    requires |b| == 4
  {
    State(Column(b[0]), Column(b[1]), Column(b[2]), Column(b[3]))
  }

  // ---- one word of a round

  /** Four lookups, one for each row, and a key word. */
  ghost function RoundColumn(kind: Kind, b0: bv8, b1: bv8, b2: bv8, b3: bv8, k: Col): Col
  {
    AddCol(AddCol(AddCol(AddCol(Entry(kind, 0, b0), Entry(kind, 1, b1)), Entry(kind, 2, b2)), Entry(kind, 3, b3)), k)
  }

  lemma UnitSum(b0: bv8, b1: bv8, b2: bv8, b3: bv8)
    ensures AddCol(AddCol(AddCol(Unit(0, b0), Unit(1, b1)), Unit(2, b2)), Unit(3, b3)) == Col(b0, b1, b2, b3)
  {
  }

  lemma MixUnitSum(b0: bv8, b1: bv8, b2: bv8, b3: bv8)
    ensures
      var f := MixColumn;
      AddCol(AddCol(AddCol(f(Unit(0, b0)), f(Unit(1, b1))), f(Unit(2, b2))), f(Unit(3, b3))) == f(Col(b0, b1, b2, b3))
    ensures
      var f := InvMixColumn;
      AddCol(AddCol(AddCol(f(Unit(0, b0)), f(Unit(1, b1))), f(Unit(2, b2))), f(Unit(3, b3))) == f(Col(b0, b1, b2, b3))
  {
    hide MixColumn, InvMixColumn, AddCol, Unit;
    UnitSum(b0, b1, b2, b3);
    MixLinear(Unit(0, b0), Unit(1, b1));
    MixLinear(AddCol(Unit(0, b0), Unit(1, b1)), Unit(2, b2));
    MixLinear(AddCol(AddCol(Unit(0, b0), Unit(1, b1)), Unit(2, b2)), Unit(3, b3));
  }

  /** The sum of lookups is the substituted column, mixed in the full rounds. */
  lemma LookupsAreRound(b0: bv8, b1: bv8, b2: bv8, b3: bv8, k: Col)
    ensures RoundColumn(ForwardLast, b0, b1, b2, b3, k) == AddCol(SubCol(Col(b0, b1, b2, b3)), k)
    ensures RoundColumn(ForwardRound, b0, b1, b2, b3, k) == AddCol(MixColumn(SubCol(Col(b0, b1, b2, b3))), k)
    ensures RoundColumn(InverseLast, b0, b1, b2, b3, k) == AddCol(InvSubCol(Col(b0, b1, b2, b3)), k)
    ensures RoundColumn(InverseRound, b0, b1, b2, b3, k) == AddCol(InvMixColumn(InvSubCol(Col(b0, b1, b2, b3))), k)
  {
    hide MixColumn, InvMixColumn, AddCol, Unit, Sbox, InvSbox;
    UnitSum(Sbox(b0), Sbox(b1), Sbox(b2), Sbox(b3));
    MixUnitSum(Sbox(b0), Sbox(b1), Sbox(b2), Sbox(b3));
    UnitSum(InvSbox(b0), InvSbox(b1), InvSbox(b2), InvSbox(b3));
    MixUnitSum(InvSbox(b0), InvSbox(b1), InvSbox(b2), InvSbox(b3));
  }

  /** The exclusive or of four words and a key word. */
  lemma ColumnXor5(a: bv32, b: bv32, c: bv32, d: bv32, k: bv32)
    ensures Column(Xor32(Xor32(Xor32(Xor32(a, b), c), d), k))
            == AddCol(AddCol(AddCol(AddCol(Column(a), Column(b)), Column(c)), Column(d)), Column(k))
  {
    hide Column, Xor32, AddCol;
    ColumnXor(a, b);
    ColumnXor(Xor32(a, b), c);
    ColumnXor(Xor32(Xor32(a, b), c), d);
    ColumnXor(Xor32(Xor32(Xor32(a, b), c), d), k);
  }

  /** One word of a round: the four lookups of f_rn, f_rl, i_rn and i_rl. */
  method RoundWord(t: array2<bv32>, ghost kind: Kind, x0: bv32, x1: bv32, x2: bv32, x3: bv32, k: bv32) returns (y: bv32)
    requires TableUpTo(t, kind, 256)
    ensures Column(y) == RoundColumn(kind, Column(x0).b0, Column(x1).b1, Column(x2).b2, Column(x3).b3, Column(k))
  {
    hide Byte, Index, ByteOf, Entry, Xor32, AddCol;
    var i0, i1, i2, i3 := Index(Byte(x0, 0)), Index(Byte(x1, 1)), Index(Byte(x2, 2)), Index(Byte(x3, 3));
    IndexRange(Byte(x0, 0));
    IndexRange(Byte(x1, 1));
    IndexRange(Byte(x2, 2));
    IndexRange(Byte(x3, 3));
    ColumnXor5(t[0, i0], t[1, i1], t[2, i2], t[3, i3], k);
    y := Xor32(Xor32(Xor32(Xor32(t[0, i0], t[1, i1]), t[2, i2]), t[3, i3]), k);
  }

  // ---- one round

  ghost function RoundOf(kind: Kind, s: State, k: State): State
  {
    match kind
    case ForwardLast => AddRoundKey(SubShift(s), k)
    case ForwardRound => AddRoundKey(MixColumns(SubShift(s)), k)
    case InverseLast => AddRoundKey(InvSubShift(s), k)
    case InverseRound => AddRoundKey(InvMixColumns(InvSubShift(s)), k)
  }

  predicate Forward(kind: Kind)
  {
    kind.ForwardLast? || kind.ForwardRound?
  }

  lemma SubShiftColumns(s: State)
    ensures SubShift(s) == State(
      SubCol(Col(s.c0.b0, s.c1.b1, s.c2.b2, s.c3.b3)), SubCol(Col(s.c1.b0, s.c2.b1, s.c3.b2, s.c0.b3)),
      SubCol(Col(s.c2.b0, s.c3.b1, s.c0.b2, s.c1.b3)), SubCol(Col(s.c3.b0, s.c0.b1, s.c1.b2, s.c2.b3)))
    ensures InvSubShift(s) == State(
      InvSubCol(Col(s.c0.b0, s.c3.b1, s.c2.b2, s.c1.b3)), InvSubCol(Col(s.c1.b0, s.c0.b1, s.c3.b2, s.c2.b3)),
      InvSubCol(Col(s.c2.b0, s.c1.b1, s.c0.b2, s.c3.b3)), InvSubCol(Col(s.c3.b0, s.c2.b1, s.c1.b2, s.c0.b3)))
  {
    hide Sbox, InvSbox;
  }

  lemma ForwardColumns(kind: Kind, s: State, k: State)
    requires Forward(kind)
    ensures RoundOf(kind, s, k) == State(
      RoundColumn(kind, s.c0.b0, s.c1.b1, s.c2.b2, s.c3.b3, k.c0),
      RoundColumn(kind, s.c1.b0, s.c2.b1, s.c3.b2, s.c0.b3, k.c1),
      RoundColumn(kind, s.c2.b0, s.c3.b1, s.c0.b2, s.c1.b3, k.c2),
      RoundColumn(kind, s.c3.b0, s.c0.b1, s.c1.b2, s.c2.b3, k.c3))
  {
    hide AddCol, MixColumn, RoundColumn, SubCol, SubShift;
    SubShiftColumns(s);
    LookupsAreRound(s.c0.b0, s.c1.b1, s.c2.b2, s.c3.b3, k.c0);
    LookupsAreRound(s.c1.b0, s.c2.b1, s.c3.b2, s.c0.b3, k.c1);
    LookupsAreRound(s.c2.b0, s.c3.b1, s.c0.b2, s.c1.b3, k.c2);
    LookupsAreRound(s.c3.b0, s.c0.b1, s.c1.b2, s.c2.b3, k.c3);
  }

  lemma InverseColumns(kind: Kind, s: State, k: State)
    requires !Forward(kind)
    ensures RoundOf(kind, s, k) == State(
      RoundColumn(kind, s.c0.b0, s.c3.b1, s.c2.b2, s.c1.b3, k.c0),
      RoundColumn(kind, s.c1.b0, s.c0.b1, s.c3.b2, s.c2.b3, k.c1),
      RoundColumn(kind, s.c2.b0, s.c1.b1, s.c0.b2, s.c3.b3, k.c2),
      RoundColumn(kind, s.c3.b0, s.c2.b1, s.c1.b2, s.c0.b3, k.c3))
  {
    hide AddCol, InvMixColumn, RoundColumn, InvSubCol, InvSubShift;
    SubShiftColumns(s);
    LookupsAreRound(s.c0.b0, s.c3.b1, s.c2.b2, s.c1.b3, k.c0);
    LookupsAreRound(s.c1.b0, s.c0.b1, s.c3.b2, s.c2.b3, k.c1);
    LookupsAreRound(s.c2.b0, s.c1.b1, s.c0.b2, s.c3.b3, k.c2);
    LookupsAreRound(s.c3.b0, s.c2.b1, s.c1.b2, s.c0.b3, k.c3);
  }

  /** Four words of a schedule as a round key. */
  ghost function KeyState(k: seq<bv32>, at: nat): State
    requires at + 4 <= |k|
  {
    State(Column(k[at]), Column(k[at + 1]), Column(k[at + 2]), Column(k[at + 3]))
  }

  /** f_nround and f_lround. */
  method ForwardWords(t: array2<bv32>, ghost kind: Kind, bo: array<bv32>, bi: array<bv32>, k: array<bv32>, kp: nat)
    requires TableUpTo(t, kind, 256) && Forward(kind)
    requires bo.Length == bi.Length == 4 && bo != bi && bo != k && kp + 4 <= k.Length
    modifies bo
    ensures WordsState(bo[..]) == RoundOf(kind, WordsState(bi[..]), KeyState(k[..], kp))
  {
    hide TableUpTo, RoundColumn, Column, RoundOf;
    bo[0] := RoundWord(t, kind, bi[0], bi[1], bi[2], bi[3], k[kp]);
    bo[1] := RoundWord(t, kind, bi[1], bi[2], bi[3], bi[0], k[kp + 1]);
    bo[2] := RoundWord(t, kind, bi[2], bi[3], bi[0], bi[1], k[kp + 2]);
    bo[3] := RoundWord(t, kind, bi[3], bi[0], bi[1], bi[2], k[kp + 3]);
    ForwardColumns(kind, WordsState(bi[..]), KeyState(k[..], kp));
  }

  /** i_nround and i_lround. */
  method InverseWords(t: array2<bv32>, ghost kind: Kind, bo: array<bv32>, bi: array<bv32>, k: array<bv32>, kp: nat)
    requires TableUpTo(t, kind, 256) && !Forward(kind)
    requires bo.Length == bi.Length == 4 && bo != bi && bo != k && kp + 4 <= k.Length
    modifies bo
    ensures WordsState(bo[..]) == RoundOf(kind, WordsState(bi[..]), KeyState(k[..], kp))
  {
    hide TableUpTo, RoundColumn, Column, RoundOf;
    bo[0] := RoundWord(t, kind, bi[0], bi[3], bi[2], bi[1], k[kp]);
    bo[1] := RoundWord(t, kind, bi[1], bi[0], bi[3], bi[2], k[kp + 1]);
    bo[2] := RoundWord(t, kind, bi[2], bi[1], bi[0], bi[3], k[kp + 2]);
    bo[3] := RoundWord(t, kind, bi[3], bi[2], bi[1], bi[0], k[kp + 3]);
    InverseColumns(kind, WordsState(bi[..]), KeyState(k[..], kp));
  }
}
