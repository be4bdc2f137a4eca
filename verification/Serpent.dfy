/**
  Serpent as serpent.c computes it: the S-boxes on whole words by logic operations, the linear
  map, and 32 rounds in which the registers change names. A word is its 32 bits, least
  significant first.
*/
module Serpent {
  import BitCodec

  type Word = w: seq<bool> | |w| == 32 witness seq(32, i => false)

  datatype Quad = Quad(w0: Word, w1: Word, w2: Word, w3: Word)

  function Xor(x: Word, y: Word): Word
  {
    seq(32, i requires 0 <= i < 32 => x[i] != y[i])
  }

  function And(x: Word, y: Word): Word
  {
    seq(32, i requires 0 <= i < 32 => x[i] && y[i])
  }

  function Or(x: Word, y: Word): Word
  {
    seq(32, i requires 0 <= i < 32 => x[i] || y[i])
  }

  function Not(x: Word): Word
  {
    seq(32, i requires 0 <= i < 32 => !x[i])
  }

  // ---- S-boxes

  const SBOX: seq<seq<nat>> := [
    [3, 8, 15, 1, 10, 6, 5, 11, 14, 13, 4, 2, 7, 0, 9, 12],
    [15, 12, 2, 7, 9, 0, 5, 10, 1, 11, 14, 8, 6, 13, 3, 4],
    [8, 6, 7, 9, 3, 12, 10, 15, 13, 1, 14, 4, 0, 11, 5, 2],
    [0, 15, 11, 8, 12, 9, 6, 3, 13, 1, 2, 4, 10, 7, 5, 14],
    [1, 15, 8, 3, 12, 0, 11, 6, 2, 5, 4, 10, 9, 14, 7, 13],
    [15, 5, 2, 11, 4, 10, 9, 12, 0, 3, 14, 8, 13, 6, 7, 1],
    [7, 2, 12, 5, 8, 4, 6, 11, 14, 9, 1, 15, 13, 3, 10, 0],
    [1, 13, 15, 0, 14, 8, 2, 11, 7, 4, 12, 10, 9, 3, 5, 6]]

  const INVERSE_SBOX: seq<seq<nat>> := [
    [13, 3, 11, 0, 10, 6, 5, 12, 1, 14, 4, 7, 15, 9, 8, 2],
    [5, 8, 2, 14, 15, 6, 12, 3, 11, 4, 7, 9, 1, 13, 10, 0],
    [12, 9, 15, 4, 11, 14, 1, 2, 0, 3, 6, 13, 5, 8, 10, 7],
    [0, 9, 10, 7, 11, 14, 6, 13, 3, 5, 12, 2, 4, 8, 15, 1],
    [5, 0, 8, 3, 10, 9, 7, 14, 2, 12, 11, 6, 4, 15, 13, 1],
    [8, 15, 2, 9, 4, 1, 13, 14, 11, 6, 5, 3, 7, 12, 10, 0],
    [15, 10, 1, 13, 5, 3, 6, 0, 4, 9, 14, 7, 2, 12, 8, 11],
    [3, 0, 6, 13, 9, 14, 15, 8, 5, 12, 11, 7, 10, 1, 4, 2]]

  function One(b: bool): nat
  {
    if b then 1 else 0
  }

  /** The number the four words read in one bit position. */
  function Nibble(x: Quad, j: nat): (n: nat)
    requires j < 32
    ensures n < 16
  {
    One(x.w0[j]) + 2 * One(x.w1[j]) + 4 * One(x.w2[j]) + 8 * One(x.w3[j])
  }

  function BitOf(n: nat, i: nat): bool
  {
    (if i == 0 then n else if i == 1 then n / 2 else if i == 2 then n / 4 else n / 8) % 2 == 1
  }

  /** An S-box in every bit position. */
  function Substitute(t: seq<nat>, x: Quad): Quad
    requires |t| == 16
  {
    Quad(seq(32, j requires 0 <= j < 32 => BitOf(t[Nibble(x, j)], 0)),
      seq(32, j requires 0 <= j < 32 => BitOf(t[Nibble(x, j)], 1)),
         seq(32, j requires 0 <= j < 32 => BitOf(t[Nibble(x, j)], 2)),
           seq(32, j requires 0 <= j < 32 => BitOf(t[Nibble(x, j)], 3)))
  }

  lemma BitsOfNibble(x: Quad, j: nat)
    requires j < 32
    ensures BitOf(Nibble(x, j), 0) == x.w0[j] && BitOf(Nibble(x, j), 1) == x.w1[j]
    ensures BitOf(Nibble(x, j), 2) == x.w2[j] && BitOf(Nibble(x, j), 3) == x.w3[j]
  {
    var n := Nibble(x, j);
    assert n / 2 == One(x.w1[j]) + 2 * One(x.w2[j]) + 4 * One(x.w3[j]);
    assert n / 4 == One(x.w2[j]) + 2 * One(x.w3[j]);
    assert n / 8 == One(x.w3[j]);
  }

  /** Words that read the S-box values in every position are the substituted words. */
  lemma SameBits(y: Quad, x: Quad, t: seq<nat>)
    requires |t| == 16 && forall j :: 0 <= j < 32 ==> Nibble(y, j) == t[Nibble(x, j)]
    ensures y == Substitute(t, x)
  {
    hide BitOf, Nibble;
    var z := Substitute(t, x);
    forall j | 0 <= j < 32
      ensures y.w0[j] == z.w0[j] && y.w1[j] == z.w1[j] && y.w2[j] == z.w2[j] && y.w3[j] == z.w3[j]
    {
      BitsOfNibble(y, j);
    }
  }

  lemma NibbleFrom(n: nat)
    requires n < 16
    ensures n == One(BitOf(n, 0)) + 2 * One(BitOf(n, 1)) + 4 * One(BitOf(n, 2)) + 8 * One(BitOf(n, 3))
  {
  }

  lemma BoxInverse(i: nat, n: nat)
    requires i < 8 && n < 16
    ensures |SBOX[i]| == |INVERSE_SBOX[i]| == 16 && SBOX[i][n] < 16 && INVERSE_SBOX[i][SBOX[i][n]] == n
  {
    assert i == 0 || i == 1 || i == 2 || i == 3 || i == 4 || i == 5 || i == 6 || i == 7;
    assert n == 0 || n == 1 || n == 2 || n == 3 || n == 4 || n == 5 || n == 6 || n == 7
           || n == 8 || n == 9 || n == 10 || n == 11 || n == 12 || n == 13 || n == 14 || n == 15;
  }

  /** The inverse S-box undoes the S-box. */
  lemma SubstituteInverse(i: nat, x: Quad)
    requires i < 8
    ensures |SBOX[i]| == |INVERSE_SBOX[i]| == 16
    ensures Substitute(INVERSE_SBOX[i], Substitute(SBOX[i], x)) == x
  {
    BoxInverse(i, 0);
    var s, t := SBOX[i], INVERSE_SBOX[i];
    var y := Substitute(s, x);
    forall j | 0 <= j < 32
      ensures Nibble(x, j) == t[Nibble(y, j)]
    {
      BoxInverse(i, Nibble(x, j));
      NibbleFrom(s[Nibble(x, j)]);
      hide BitOf;
    }
    hide *;
    SameBits(x, y, t);
  }

  // ---- the linear map and the keys

  function Rol(x: Word, n: nat): Word
    requires n <= 32
  {
    x[32 - n..] + x[..32 - n]
  }

  function Ror(x: Word, n: nat): Word
    requires n <= 32
  {
    x[n..] + x[..n]
  }

  function Shl(x: Word, n: nat): Word
    requires n <= 32
  {
    seq(n, i => false) + x[..32 - n]
  }

  lemma RorRol(x: Word, n: nat)
    requires n <= 32
    ensures Ror(Rol(x, n), n) == x
  {
  }

  lemma XorXor(x: Word, y: Word)
    ensures Xor(Xor(x, y), y) == x
  {
  }

  lemma XorAway(x: Word, y: Word, z: Word)
    ensures Xor(Xor(Xor(x, y), z), y) == Xor(x, z)
  {
  }

  /** The linear transformation of Serpent. */
  function Linear(x: Quad): Quad
  {
    var a, c := Rol(x.w0, 13), Rol(x.w2, 3);
    var b, d := Rol(Xor(Xor(x.w1, a), c), 1), Rol(Xor(Xor(x.w3, c), Shl(a, 3)), 7);
    Quad(Rol(Xor(Xor(a, b), d), 5), b, Rol(Xor(Xor(c, d), Shl(b, 7)), 22), d)
  }

  function InverseLinear(x: Quad): Quad
  {
    var a, c := Xor(Xor(Ror(x.w0, 5), x.w3), x.w1), Xor(Xor(Ror(x.w2, 22), x.w3), Shl(x.w1, 7));
    Quad(Ror(a, 13), Xor(Xor(Ror(x.w1, 1), a), c), Ror(c, 3), Xor(Xor(Ror(x.w3, 7), Shl(a, 3)), c))
  }

  lemma LinearInverse(x: Quad)
    ensures InverseLinear(Linear(x)) == x
  {
    hide Rol, Ror, Shl, Xor;
    var a, c := Rol(x.w0, 13), Rol(x.w2, 3);
    var b0, d0 := Xor(Xor(x.w1, a), c), Xor(Xor(x.w3, c), Shl(a, 3));
    var b, d := Rol(b0, 1), Rol(d0, 7);
    RorRol(x.w0, 13);
    RorRol(x.w2, 3);
    RorRol(b0, 1);
    RorRol(d0, 7);
    RorRol(Xor(Xor(a, b), d), 5);
    RorRol(Xor(Xor(c, d), Shl(b, 7)), 22);
    XorXor(Xor(a, b), d);
    XorXor(a, b);
    XorAway(c, d, Shl(b, 7));
    XorXor(c, Shl(b, 7));
    XorAway(x.w1, a, c);
    XorXor(x.w1, c);
    XorXor(Xor(x.w3, c), Shl(a, 3));
    XorXor(x.w3, c);
  }

  type Schedule = k: seq<Word> | |k| == 132 witness seq(132, i => seq(32, j => false))

  /** The words of round key i. */
  function AddKey(x: Quad, k: Schedule, i: nat): Quad
    requires i <= 32
  {
    Quad(Xor(x.w0, k[4 * i]), Xor(x.w1, k[4 * i + 1]), Xor(x.w2, k[4 * i + 2]), Xor(x.w3, k[4 * i + 3]))
  }

  lemma AddKeyTwice(x: Quad, k: Schedule, i: nat)
    requires i <= 32
    ensures AddKey(AddKey(x, k, i), k, i) == x
  {
    hide Xor;
    XorXor(x.w0, k[4 * i]);
    XorXor(x.w1, k[4 * i + 1]);
    XorXor(x.w2, k[4 * i + 2]);
    XorXor(x.w3, k[4 * i + 3]);
  }

  // ---- the cipher by rounds

  function Box(i: nat): (t: seq<nat>)
    ensures |t| == 16
  {
    BoxInverse(i % 8, 0);
    SBOX[i % 8]
  }

  function InverseBox(i: nat): (t: seq<nat>)
    ensures |t| == 16
  {
    BoxInverse(i % 8, 0);
    INVERSE_SBOX[i % 8]
  }

  /** The block after r rounds, with round key r added. */
  function After(k: Schedule, p: Quad, r: nat): Quad
    requires r <= 31
  {
    if r == 0 then AddKey(p, k, 0) else AddKey(Linear(Substitute(Box(r - 1), After(k, p, r - 1))), k, r)
  }

  function Cipher(k: Schedule, p: Quad): Quad
  {
    AddKey(Substitute(Box(31), After(k, p, 31)), k, 32)
  }

  /** The block on the way back, where After had r rounds. */
  function Before(k: Schedule, c: Quad, r: nat): Quad
    requires r <= 31
    decreases 31 - r
  {
    if r == 31 then Substitute(InverseBox(31), AddKey(c, k, 32))
    else Substitute(InverseBox(r), InverseLinear(AddKey(Before(k, c, r + 1), k, r + 1)))
  }

  function InverseCipher(k: Schedule, c: Quad): Quad
  {
    AddKey(Before(k, c, 0), k, 0)
  }

  lemma BoxUndone(i: nat, x: Quad)
    ensures Substitute(InverseBox(i), Substitute(Box(i), x)) == x
  {
    hide Substitute;
    SubstituteInverse(i % 8, x);
  }

  lemma {:induction false} RoundsUndone(k: Schedule, p: Quad, r: nat)
    requires r <= 31
    ensures Before(k, Cipher(k, p), r) == After(k, p, r)
    decreases 31 - r
  {
    hide Substitute, AddKey, Linear, InverseLinear, Box, InverseBox;
    BoxUndone(r, After(k, p, r));
    if r == 31 {
      AddKeyTwice(Substitute(Box(31), After(k, p, 31)), k, 32);
    } else {
      RoundsUndone(k, p, r + 1);
      var x := Substitute(Box(r), After(k, p, r));
      AddKeyTwice(Linear(x), k, r + 1);
      LinearInverse(x);
    }
  }

  /** For every key schedule and block, decryption undoes encryption through all 32 rounds. */
  lemma CipherInverse(k: Schedule, p: Quad)
    ensures InverseCipher(k, Cipher(k, p)) == p
  {
    RoundsUndone(k, p, 0);
    hide AddKey, Cipher, Before;
    AddKeyTwice(p, k, 0);
  }

  // ---- what the definitions say, bit by bit

  /** The S-boxes of the Serpent proposal. */
  lemma BoxesAre()
    ensures SBOX == [
      [3, 8, 15, 1, 10, 6, 5, 11, 14, 13, 4, 2, 7, 0, 9, 12], [15, 12, 2, 7, 9, 0, 5, 10, 1, 11, 14, 8, 6, 13, 3, 4],
      [8, 6, 7, 9, 3, 12, 10, 15, 13, 1, 14, 4, 0, 11, 5, 2], [0, 15, 11, 8, 12, 9, 6, 3, 13, 1, 2, 4, 10, 7, 5, 14],
      [1, 15, 8, 3, 12, 0, 11, 6, 2, 5, 4, 10, 9, 14, 7, 13], [15, 5, 2, 11, 4, 10, 9, 12, 0, 3, 14, 8, 13, 6, 7, 1],
      [7, 2, 12, 5, 8, 4, 6, 11, 14, 9, 1, 15, 13, 3, 10, 0], [1, 13, 15, 0, 14, 8, 2, 11, 7, 4, 12, 10, 9, 3, 5, 6]]
  {
  }

  /** In every bit position the four words go through the S-box as one number, word 0 its lowest bit. */
  lemma SubstituteIs(t: seq<nat>, x: Quad, j: nat)
    requires |t| == 16 && j < 32 && forall n :: 0 <= n < 16 ==> t[n] < 16
    ensures
      var y, n := Substitute(t, x), One(x.w0[j]) + 2 * One(x.w1[j]) + 4 * One(x.w2[j]) + 8 * One(x.w3[j]);
      One(y.w0[j]) + 2 * One(y.w1[j]) + 4 * One(y.w2[j]) + 8 * One(y.w3[j]) == t[n]
  {
    hide BitOf;
    NibbleFrom(t[Nibble(x, j)]);
  }

  /** Bit j of a word n places back on the circle of 32. */
  function Back(x: Word, j: nat, n: nat): bool
    requires j < 32 && n <= 32
  {
    x[(j + 32 - n) % 32]
  }

  /**
    The linear map of the proposal: with words 0 and 2 rotated left by 13 and 3, words 1 and 3 take
    them, word 3 also word 0 shifted left by 3, and are rotated by 1 and 7; then words 0 and 2 take
    these, word 2 also word 1 shifted left by 7, and are rotated by 5 and 22.
  */
  lemma LinearIs(x: Quad, j: nat)
    requires j < 32
    ensures
      var y, a, c := Linear(x), Back(x.w0, j, 13), Back(x.w2, j, 3);
      && y.w1[(j + 1) % 32] == ((x.w1[j] != a) != c)
      && y.w3[(j + 7) % 32] == ((x.w3[j] != c) != (j >= 3 && Back(x.w0, j - 3, 13)))
      && y.w0[(j + 5) % 32] == ((a != y.w1[j]) != y.w3[j])
      && y.w2[(j + 22) % 32] == ((c != y.w3[j]) != (j >= 7 && y.w1[j - 7]))
  {
    hide Rol, Shl, Xor;
    var a, c := Rol(x.w0, 13), Rol(x.w2, 3);
    var y := Linear(x);
    RolBit(x.w0, 13, j);
    RolBit(x.w2, 3, j);
    MixedBit(x.w1, a, c, 1, j);
    MixedBit(x.w3, c, Shl(a, 3), 7, j);
    MixedBit(a, y.w1, y.w3, 5, j);
    MixedBit(c, y.w3, Shl(y.w1, 7), 22, j);
    ShlBit(a, 3, j);
    ShlBit(y.w1, 7, j);
    if j >= 3 {
      RolBit(x.w0, 13, j - 3);
    }
  }

  lemma MixedBit(x: Word, y: Word, z: Word, n: nat, j: nat)
    requires n <= 32 && j < 32
    ensures Rol(Xor(Xor(x, y), z), n)[(j + n) % 32] == ((x[j] != y[j]) != z[j])
  {
    RolBit(Xor(Xor(x, y), z), n, j);
    hide Rol;
  }

  lemma RolBit(x: Word, n: nat, j: nat)
    requires n <= 32 && j < 32
    ensures Rol(x, n)[j] == Back(x, j, n) && Rol(x, n)[(j + n) % 32] == x[j]
  {
  }

  lemma ShlBit(x: Word, n: nat, j: nat)
    requires n <= 32 && j < 32
    ensures Shl(x, n)[j] == (j >= n && x[j - n])
  {
  }

  /** Round key i is words 4i to 4i + 3 of the schedule. */
  lemma AddKeyIs(x: Quad, k: Schedule, i: nat, j: nat)
    requires i <= 32 && j < 32
    ensures
      var y := AddKey(x, k, i);
      && y.w0[j] == (x.w0[j] != k[4 * i][j]) && y.w1[j] == (x.w1[j] != k[4 * i + 1][j])
      && y.w2[j] == (x.w2[j] != k[4 * i + 2][j]) && y.w3[j] == (x.w3[j] != k[4 * i + 3][j])
  {
  }

  /** The 32 rounds: keys 0 to 32, S-box r mod 8 in round r, and the linear map in all but the last. */
  lemma {:induction false} CipherIs(k: Schedule, p: Quad, r: nat)
    requires r < 31
    ensures |SBOX[r % 8]| == |SBOX[7]| == 16 && After(k, p, 0) == AddKey(p, k, 0)
    ensures After(k, p, r + 1) == AddKey(Linear(Substitute(SBOX[r % 8], After(k, p, r))), k, r + 1)
    ensures Cipher(k, p) == AddKey(Substitute(SBOX[7], After(k, p, 31)), k, 32)
  {
    hide Substitute, AddKey, Linear;
    AfterStep(k, p, r);
    CipherEnd(k, p);
    hide After;
  }

  /** A block is four words of four bytes; bit i of a word is bit i mod 8 of its byte i div 8. */
  lemma TextIs(b: seq<bv8>, n: nat, i: nat)
    requires |b| >= 16 && n < 4 && i < 32
    ensures ReadText(b) == Quad(ReadWord(b, 0), ReadWord(b, 1), ReadWord(b, 2), ReadWord(b, 3))
    ensures ReadWord(b, n)[i] == ((b[4 * n + i / 8] >> (i % 8)) & 1 == 1)
  {
    BitCodec.BitIs(b[4 * n + i / 8], i % 8);
    hide BitCodec.Bit;
  }

  // ---- the macros

  /** The key, linear and S-box macros; the outputs of an S-box come out in other registers than they went in. */
  method K(a0: Word, a1: Word, a2: Word, a3: Word, k: Schedule, i: nat) returns (x0: Word, x1: Word, x2: Word, x3: Word)
    requires i <= 32
    ensures Quad(x0, x1, x2, x3) == AddKey(Quad(a0, a1, a2, a3), k, i)
  {
    x3 := Xor(a3, k[4 * i + 3]); x2 := Xor(a2, k[4 * i + 2]);
    x1 := Xor(a1, k[4 * i + 1]); x0 := Xor(a0, k[4 * i]);
  }

  method LK(a0: Word, a1: Word, a2: Word, a3: Word, k: Schedule, i: nat)
    returns (x0: Word, x1: Word, x2: Word, x3: Word, x4: Word)
    requires i <= 32
    ensures Quad(x0, x1, x2, x3) == AddKey(Linear(Quad(a0, a1, a2, a3)), k, i)
  {
    hide Rol, Shl, Xor;
    x0, x1, x2, x3 := a0, a1, a2, a3;
    x0 := Rol(x0, 13);
    x2 := Rol(x2, 3); x1 := Xor(x1, x0); x4 := Shl(x0, 3);
    x3 := Xor(x3, x2); x1 := Xor(x1, x2);
    x1 := Rol(x1, 1); x3 := Xor(x3, x4);
    x3 := Rol(x3, 7); x4 := x1;
    x0 := Xor(x0, x1); x4 := Shl(x4, 7); x2 := Xor(x2, x3);
    x0 := Xor(x0, x3); x2 := Xor(x2, x4); x3 := Xor(x3, k[4 * i + 3]);
    x1 := Xor(x1, k[4 * i + 1]); x0 := Rol(x0, 5); x2 := Rol(x2, 22);
    x0 := Xor(x0, k[4 * i]); x2 := Xor(x2, k[4 * i + 2]);
  }

  method KL(a0: Word, a1: Word, a2: Word, a3: Word, k: Schedule, i: nat)
    returns (x0: Word, x1: Word, x2: Word, x3: Word, x4: Word)
    requires i <= 32
    ensures Quad(x0, x1, x2, x3) == InverseLinear(AddKey(Quad(a0, a1, a2, a3), k, i))
  {
    hide Ror, Shl, Xor;
    x0, x1, x2, x3 := a0, a1, a2, a3;
    x0 := Xor(x0, k[4 * i]); x1 := Xor(x1, k[4 * i + 1]); x2 := Xor(x2, k[4 * i + 2]);
    x3 := Xor(x3, k[4 * i + 3]); x0 := Ror(x0, 5); x2 := Ror(x2, 22);
    x4 := x1; x2 := Xor(x2, x3); x0 := Xor(x0, x3);
    x4 := Shl(x4, 7); x0 := Xor(x0, x1); x1 := Ror(x1, 1);
    x2 := Xor(x2, x4); x3 := Ror(x3, 7); x4 := Shl(x0, 3);
    x1 := Xor(x1, x0); x3 := Xor(x3, x4); x0 := Ror(x0, 13);
    x1 := Xor(x1, x2); x3 := Xor(x3, x2); x2 := Ror(x2, 3);
  }

  method S0(a0: Word, a1: Word, a2: Word, a3: Word) returns (x0: Word, x1: Word, x2: Word, x3: Word, x4: Word)
    ensures Quad(x2, x1, x3, x0) == Substitute(SBOX[0], Quad(a0, a1, a2, a3))
  {
    x0, x1, x2, x3 := a0, a1, a2, a3;
    x4 := x3; x3 := Or(x3, x0); x0 := Xor(x0, x4); x4 := Xor(x4, x2); x4 := Not(x4);
    x3 := Xor(x3, x1); x1 := And(x1, x0); x1 := Xor(x1, x4); x2 := Xor(x2, x0); x0 := Xor(x0, x3);
    x4 := Or(x4, x0); x0 := Xor(x0, x2); x2 := And(x2, x1); x3 := Xor(x3, x2); x1 := Not(x1);
    x2 := Xor(x2, x4); x1 := Xor(x1, x2);
    SameBits(Quad(x2, x1, x3, x0), Quad(a0, a1, a2, a3), SBOX[0]);
  }

  method S1(a0: Word, a1: Word, a2: Word, a3: Word) returns (x0: Word, x1: Word, x2: Word, x3: Word, x4: Word)
    ensures Quad(x4, x2, x3, x0) == Substitute(SBOX[1], Quad(a0, a1, a2, a3))
  {
    x0, x1, x2, x3 := a0, a1, a2, a3;
    x4 := x1; x1 := Xor(x1, x0); x0 := Xor(x0, x3); x3 := Not(x3); x4 := And(x4, x1);
    x0 := Or(x0, x1); x3 := Xor(x3, x2); x0 := Xor(x0, x3); x1 := Xor(x1, x3); x3 := Xor(x3, x4);
    x1 := Or(x1, x4); x4 := Xor(x4, x2); x2 := And(x2, x0); x2 := Xor(x2, x1); x1 := Or(x1, x0);
    x0 := Not(x0); x0 := Xor(x0, x2); x4 := Xor(x4, x1);
    SameBits(Quad(x4, x2, x3, x0), Quad(a0, a1, a2, a3), SBOX[1]);
  }

  method S2(a0: Word, a1: Word, a2: Word, a3: Word) returns (x0: Word, x1: Word, x2: Word, x3: Word, x4: Word)
    ensures Quad(x4, x1, x0, x3) == Substitute(SBOX[2], Quad(a0, a1, a2, a3))
  {
    x0, x1, x2, x3 := a0, a1, a2, a3;
    x3 := Not(x3); x1 := Xor(x1, x0); x4 := x0; x0 := And(x0, x2); x0 := Xor(x0, x3);
    x3 := Or(x3, x4); x2 := Xor(x2, x1); x3 := Xor(x3, x1); x1 := And(x1, x0); x0 := Xor(x0, x2);
    x2 := And(x2, x3); x3 := Or(x3, x1); x0 := Not(x0); x3 := Xor(x3, x0); x4 := Xor(x4, x0);
    x0 := Xor(x0, x2); x1 := Or(x1, x2);
    SameBits(Quad(x4, x1, x0, x3), Quad(a0, a1, a2, a3), SBOX[2]);
  }

  method S3(a0: Word, a1: Word, a2: Word, a3: Word) returns (x0: Word, x1: Word, x2: Word, x3: Word, x4: Word)
    ensures Quad(x3, x4, x1, x0) == Substitute(SBOX[3], Quad(a0, a1, a2, a3))
  {
    x0, x1, x2, x3 := a0, a1, a2, a3;
    x4 := x1; x1 := Xor(x1, x3); x3 := Or(x3, x0); x4 := And(x4, x0); x0 := Xor(x0, x2);
    x2 := Xor(x2, x1); x1 := And(x1, x3); x2 := Xor(x2, x3); x0 := Or(x0, x4); x4 := Xor(x4, x3);
    x1 := Xor(x1, x0); x0 := And(x0, x3); x3 := And(x3, x4); x3 := Xor(x3, x2); x4 := Or(x4, x1);
    x2 := And(x2, x1); x4 := Xor(x4, x3); x0 := Xor(x0, x3); x3 := Xor(x3, x2);
    SameBits(Quad(x3, x4, x1, x0), Quad(a0, a1, a2, a3), SBOX[3]);
  }

  method S4(a0: Word, a1: Word, a2: Word, a3: Word) returns (x0: Word, x1: Word, x2: Word, x3: Word, x4: Word)
    ensures Quad(x1, x2, x3, x4) == Substitute(SBOX[4], Quad(a0, a1, a2, a3))
  {
    x0, x1, x2, x3 := a0, a1, a2, a3;
    x4 := x3; x3 := And(x3, x0); x0 := Xor(x0, x4); x3 := Xor(x3, x2); x2 := Or(x2, x4);
    x0 := Xor(x0, x1); x4 := Xor(x4, x3); x2 := Or(x2, x0); x2 := Xor(x2, x1); x1 := And(x1, x0);
    x1 := Xor(x1, x4); x4 := And(x4, x2); x2 := Xor(x2, x3); x4 := Xor(x4, x0); x3 := Or(x3, x1);
    x1 := Not(x1); x3 := Xor(x3, x0);
    SameBits(Quad(x1, x2, x3, x4), Quad(a0, a1, a2, a3), SBOX[4]);
  }

  method S5(a0: Word, a1: Word, a2: Word, a3: Word) returns (x0: Word, x1: Word, x2: Word, x3: Word, x4: Word)
    ensures Quad(x4, x0, x1, x3) == Substitute(SBOX[5], Quad(a0, a1, a2, a3))
  {
    x0, x1, x2, x3 := a0, a1, a2, a3;
    x4 := x1; x1 := Or(x1, x0); x2 := Xor(x2, x1); x3 := Not(x3); x4 := Xor(x4, x0);
    x0 := Xor(x0, x2); x1 := And(x1, x4); x4 := Or(x4, x3); x4 := Xor(x4, x0); x0 := And(x0, x3);
    x1 := Xor(x1, x3); x3 := Xor(x3, x2); x0 := Xor(x0, x1); x2 := And(x2, x4); x1 := Xor(x1, x2);
    x2 := And(x2, x0); x3 := Xor(x3, x2);
    SameBits(Quad(x4, x0, x1, x3), Quad(a0, a1, a2, a3), SBOX[5]);
  }

  method S6(a0: Word, a1: Word, a2: Word, a3: Word) returns (x0: Word, x1: Word, x2: Word, x3: Word, x4: Word)
    ensures Quad(x2, x4, x1, x3) == Substitute(SBOX[6], Quad(a0, a1, a2, a3))
  {
    x0, x1, x2, x3 := a0, a1, a2, a3;
    x4 := x1; x3 := Xor(x3, x0); x1 := Xor(x1, x2); x2 := Xor(x2, x0); x0 := And(x0, x3);
    x1 := Or(x1, x3); x4 := Not(x4); x0 := Xor(x0, x1); x1 := Xor(x1, x2); x3 := Xor(x3, x4);
    x4 := Xor(x4, x0); x2 := And(x2, x0); x4 := Xor(x4, x1); x2 := Xor(x2, x3); x3 := And(x3, x1);
    x3 := Xor(x3, x0); x1 := Xor(x1, x2);
    SameBits(Quad(x2, x4, x1, x3), Quad(a0, a1, a2, a3), SBOX[6]);
  }

  method S7(a0: Word, a1: Word, a2: Word, a3: Word) returns (x0: Word, x1: Word, x2: Word, x3: Word, x4: Word)
    ensures Quad(x4, x2, x3, x0) == Substitute(SBOX[7], Quad(a0, a1, a2, a3))
  {
    x0, x1, x2, x3 := a0, a1, a2, a3;
    x1 := Not(x1); x4 := x1; x0 := Not(x0); x1 := And(x1, x2); x1 := Xor(x1, x3);
    x3 := Or(x3, x4); x4 := Xor(x4, x2); x2 := Xor(x2, x3); x3 := Xor(x3, x0); x0 := Or(x0, x1);
    x2 := And(x2, x0); x0 := Xor(x0, x4); x4 := Xor(x4, x3); x3 := And(x3, x0); x4 := Xor(x4, x1);
    x2 := Xor(x2, x4); x3 := Xor(x3, x1); x4 := Or(x4, x0); x4 := Xor(x4, x1);
    SameBits(Quad(x4, x2, x3, x0), Quad(a0, a1, a2, a3), SBOX[7]);
  }

  method SI0(a0: Word, a1: Word, a2: Word, a3: Word) returns (x0: Word, x1: Word, x2: Word, x3: Word, x4: Word)
    ensures Quad(x2, x4, x1, x0) == Substitute(INVERSE_SBOX[0], Quad(a0, a1, a2, a3))
  {
    x0, x1, x2, x3 := a0, a1, a2, a3;
    x4 := x3; x1 := Xor(x1, x0); x3 := Or(x3, x1); x4 := Xor(x4, x1); x0 := Not(x0);
    x2 := Xor(x2, x3); x3 := Xor(x3, x0); x0 := And(x0, x1); x0 := Xor(x0, x2); x2 := And(x2, x3);
    x3 := Xor(x3, x4); x2 := Xor(x2, x3); x1 := Xor(x1, x3); x3 := And(x3, x0); x1 := Xor(x1, x0);
    x0 := Xor(x0, x2); x4 := Xor(x4, x3);
    SameBits(Quad(x2, x4, x1, x0), Quad(a0, a1, a2, a3), INVERSE_SBOX[0]);
  }

  method SI1(a0: Word, a1: Word, a2: Word, a3: Word) returns (x0: Word, x1: Word, x2: Word, x3: Word, x4: Word)
    ensures Quad(x4, x1, x2, x3) == Substitute(INVERSE_SBOX[1], Quad(a0, a1, a2, a3))
  {
    x0, x1, x2, x3 := a0, a1, a2, a3;
    x1 := Xor(x1, x3); x4 := x0; x0 := Xor(x0, x2); x2 := Not(x2); x4 := Or(x4, x1);
    x4 := Xor(x4, x3); x3 := And(x3, x1); x1 := Xor(x1, x2); x2 := And(x2, x4); x4 := Xor(x4, x1);
    x1 := Or(x1, x3); x3 := Xor(x3, x0); x2 := Xor(x2, x0); x0 := Or(x0, x4); x2 := Xor(x2, x4);
    x1 := Xor(x1, x0); x4 := Xor(x4, x1);
    SameBits(Quad(x4, x1, x2, x3), Quad(a0, a1, a2, a3), INVERSE_SBOX[1]);
  }

  method SI2(a0: Word, a1: Word, a2: Word, a3: Word) returns (x0: Word, x1: Word, x2: Word, x3: Word, x4: Word)
    ensures Quad(x1, x4, x3, x2) == Substitute(INVERSE_SBOX[2], Quad(a0, a1, a2, a3))
  {
    x0, x1, x2, x3 := a0, a1, a2, a3;
    x2 := Xor(x2, x1); x4 := x3; x3 := Not(x3); x3 := Or(x3, x2); x2 := Xor(x2, x4);
    x4 := Xor(x4, x0); x3 := Xor(x3, x1); x1 := Or(x1, x2); x2 := Xor(x2, x0); x1 := Xor(x1, x4);
    x4 := Or(x4, x3); x2 := Xor(x2, x3); x4 := Xor(x4, x2); x2 := And(x2, x1); x2 := Xor(x2, x3);
    x3 := Xor(x3, x4); x4 := Xor(x4, x0);
    SameBits(Quad(x1, x4, x3, x2), Quad(a0, a1, a2, a3), INVERSE_SBOX[2]);
  }

  method SI3(a0: Word, a1: Word, a2: Word, a3: Word) returns (x0: Word, x1: Word, x2: Word, x3: Word, x4: Word)
    ensures Quad(x2, x0, x4, x3) == Substitute(INVERSE_SBOX[3], Quad(a0, a1, a2, a3))
  {
    x0, x1, x2, x3 := a0, a1, a2, a3;
    x2 := Xor(x2, x1); x4 := x1; x1 := And(x1, x2); x1 := Xor(x1, x0); x0 := Or(x0, x4);
    x4 := Xor(x4, x3); x0 := Xor(x0, x3); x3 := Or(x3, x1); x1 := Xor(x1, x2); x1 := Xor(x1, x3);
    x0 := Xor(x0, x2); x2 := Xor(x2, x3); x3 := And(x3, x1); x1 := Xor(x1, x0); x0 := And(x0, x2);
    x4 := Xor(x4, x3); x3 := Xor(x3, x0); x0 := Xor(x0, x1);
    SameBits(Quad(x2, x0, x4, x3), Quad(a0, a1, a2, a3), INVERSE_SBOX[3]);
  }

  method SI4(a0: Word, a1: Word, a2: Word, a3: Word) returns (x0: Word, x1: Word, x2: Word, x3: Word, x4: Word)
    ensures Quad(x0, x2, x4, x3) == Substitute(INVERSE_SBOX[4], Quad(a0, a1, a2, a3))
  {
    x0, x1, x2, x3 := a0, a1, a2, a3;
    x2 := Xor(x2, x3); x4 := x0; x0 := And(x0, x1); x0 := Xor(x0, x2); x2 := Or(x2, x3);
    x4 := Not(x4); x1 := Xor(x1, x0); x0 := Xor(x0, x2); x2 := And(x2, x4); x2 := Xor(x2, x0);
    x0 := Or(x0, x4); x0 := Xor(x0, x3); x3 := And(x3, x2); x4 := Xor(x4, x3); x3 := Xor(x3, x1);
    x1 := And(x1, x0); x4 := Xor(x4, x1); x0 := Xor(x0, x3);
    SameBits(Quad(x0, x2, x4, x3), Quad(a0, a1, a2, a3), INVERSE_SBOX[4]);
  }

  method SI5(a0: Word, a1: Word, a2: Word, a3: Word) returns (x0: Word, x1: Word, x2: Word, x3: Word, x4: Word)
    ensures Quad(x1, x4, x0, x2) == Substitute(INVERSE_SBOX[5], Quad(a0, a1, a2, a3))
  {
    x0, x1, x2, x3 := a0, a1, a2, a3;
    x4 := x1; x1 := Or(x1, x2); x2 := Xor(x2, x4); x1 := Xor(x1, x3); x3 := And(x3, x4);
    x2 := Xor(x2, x3); x3 := Or(x3, x0); x0 := Not(x0); x3 := Xor(x3, x2); x2 := Or(x2, x0);
    x4 := Xor(x4, x1); x2 := Xor(x2, x4); x4 := And(x4, x0); x0 := Xor(x0, x1); x1 := Xor(x1, x3);
    x0 := And(x0, x2); x2 := Xor(x2, x3); x0 := Xor(x0, x2); x2 := Xor(x2, x4); x4 := Xor(x4, x3);
    SameBits(Quad(x1, x4, x0, x2), Quad(a0, a1, a2, a3), INVERSE_SBOX[5]);
  }

  method SI6(a0: Word, a1: Word, a2: Word, a3: Word) returns (x0: Word, x1: Word, x2: Word, x3: Word, x4: Word)
    ensures Quad(x2, x4, x3, x0) == Substitute(INVERSE_SBOX[6], Quad(a0, a1, a2, a3))
  {
    x0, x1, x2, x3 := a0, a1, a2, a3;
    x0 := Xor(x0, x2); x4 := x0; x0 := And(x0, x3); x2 := Xor(x2, x3); x0 := Xor(x0, x2);
    x3 := Xor(x3, x1); x2 := Or(x2, x4); x2 := Xor(x2, x3); x3 := And(x3, x0); x0 := Not(x0);
    x3 := Xor(x3, x1); x1 := And(x1, x2); x4 := Xor(x4, x0); x3 := Xor(x3, x4); x4 := Xor(x4, x2);
    x0 := Xor(x0, x1); x2 := Xor(x2, x0);
    SameBits(Quad(x2, x4, x3, x0), Quad(a0, a1, a2, a3), INVERSE_SBOX[6]);
  }

  method SI7(a0: Word, a1: Word, a2: Word, a3: Word) returns (x0: Word, x1: Word, x2: Word, x3: Word, x4: Word)
    ensures Quad(x1, x3, x0, x4) == Substitute(INVERSE_SBOX[7], Quad(a0, a1, a2, a3))
  {
    x0, x1, x2, x3 := a0, a1, a2, a3;
    x4 := x3; x3 := And(x3, x0); x0 := Xor(x0, x2); x2 := Or(x2, x4); x4 := Xor(x4, x1);
    x0 := Not(x0); x1 := Or(x1, x3); x4 := Xor(x4, x0); x0 := And(x0, x2); x0 := Xor(x0, x1);
    x1 := And(x1, x2); x3 := Xor(x3, x2); x4 := Xor(x4, x3); x2 := And(x2, x3); x3 := Or(x3, x0);
    x1 := Xor(x1, x4); x3 := Xor(x3, x4); x4 := And(x4, x0); x4 := Xor(x4, x2);
    SameBits(Quad(x1, x3, x0, x4), Quad(a0, a1, a2, a3), INVERSE_SBOX[7]);
  }

  // ---- encrypt and decrypt, line by line

  lemma AfterStep(k: Schedule, p: Quad, r: nat)
    requires r < 31
    ensures |SBOX[r % 8]| == 16 && After(k, p, r + 1) ==
      AddKey(Linear(Substitute(SBOX[r % 8], After(k, p, r))), k, r + 1)
  {
    BoxInverse(r % 8, 0);
    assert Box(r) == SBOX[r % 8];
    hide Substitute, AddKey, Linear;
  }

  lemma BeforeStep(k: Schedule, c: Quad, r: nat)
    requires r < 31
    ensures |INVERSE_SBOX[r % 8]| == 16
    ensures Before(k, c, r) == Substitute(INVERSE_SBOX[r % 8], InverseLinear(AddKey(Before(k, c, r + 1), k, r + 1)))
  {
    BoxInverse(r % 8, 0);
    assert InverseBox(r) == INVERSE_SBOX[r % 8];
    hide Substitute, AddKey, InverseLinear;
  }

  /** Rounds 0 to 7 of encrypt. */
  method EncryptFrom0(k: Schedule, ghost p: Quad, a0: Word, a1: Word, a2: Word, a3: Word, a4: Word)
    returns (r0: Word, r1: Word, r2: Word, r3: Word, r4: Word)
    requires Quad(a0, a1, a2, a3) == After(k, p, 0)
    ensures Quad(r2, r0, r4, r3) == After(k, p, 8)
  {
    hide Substitute, AddKey, Linear, InverseLinear, After, Before, Cipher;
    r0, r1, r2, r3, r4 := a0, a1, a2, a3, a4;
    AfterStep(k, p, 0);
    r0, r1, r2, r3, r4 := S0(r0, r1, r2, r3);
    r2, r1, r3, r0, r4 := LK(r2, r1, r3, r0, k, 1);
    AfterStep(k, p, 1);
    r2, r1, r3, r0, r4 := S1(r2, r1, r3, r0);
    r4, r3, r0, r2, r1 := LK(r4, r3, r0, r2, k, 2);
    AfterStep(k, p, 2);
    r4, r3, r0, r2, r1 := S2(r4, r3, r0, r2);
    r1, r3, r4, r2, r0 := LK(r1, r3, r4, r2, k, 3);
    AfterStep(k, p, 3);
    r1, r3, r4, r2, r0 := S3(r1, r3, r4, r2);
    r2, r0, r3, r1, r4 := LK(r2, r0, r3, r1, k, 4);
    AfterStep(k, p, 4);
    r2, r0, r3, r1, r4 := S4(r2, r0, r3, r1);
    r0, r3, r1, r4, r2 := LK(r0, r3, r1, r4, k, 5);
    AfterStep(k, p, 5);
    r0, r3, r1, r4, r2 := S5(r0, r3, r1, r4);
    r2, r0, r3, r4, r1 := LK(r2, r0, r3, r4, k, 6);
    AfterStep(k, p, 6);
    r2, r0, r3, r4, r1 := S6(r2, r0, r3, r4);
    r3, r1, r0, r4, r2 := LK(r3, r1, r0, r4, k, 7);
    AfterStep(k, p, 7);
    r3, r1, r0, r4, r2 := S7(r3, r1, r0, r4);
    r2, r0, r4, r3, r1 := LK(r2, r0, r4, r3, k, 8);
  }

  /** Rounds 8 to 15 of encrypt. */
  method EncryptFrom8(k: Schedule, ghost p: Quad, a0: Word, a1: Word, a2: Word, a3: Word, a4: Word)
    returns (r0: Word, r1: Word, r2: Word, r3: Word, r4: Word)
    requires Quad(a2, a0, a4, a3) == After(k, p, 8)
    ensures Quad(r4, r2, r1, r3) == After(k, p, 16)
  {
    hide Substitute, AddKey, Linear, InverseLinear, After, Before, Cipher;
    r0, r1, r2, r3, r4 := a0, a1, a2, a3, a4;
    AfterStep(k, p, 8);
    r2, r0, r4, r3, r1 := S0(r2, r0, r4, r3);
    r4, r0, r3, r2, r1 := LK(r4, r0, r3, r2, k, 9);
    AfterStep(k, p, 9);
    r4, r0, r3, r2, r1 := S1(r4, r0, r3, r2);
    r1, r3, r2, r4, r0 := LK(r1, r3, r2, r4, k, 10);
    AfterStep(k, p, 10);
    r1, r3, r2, r4, r0 := S2(r1, r3, r2, r4);
    r0, r3, r1, r4, r2 := LK(r0, r3, r1, r4, k, 11);
    AfterStep(k, p, 11);
    r0, r3, r1, r4, r2 := S3(r0, r3, r1, r4);
    r4, r2, r3, r0, r1 := LK(r4, r2, r3, r0, k, 12);
    AfterStep(k, p, 12);
    r4, r2, r3, r0, r1 := S4(r4, r2, r3, r0);
    r2, r3, r0, r1, r4 := LK(r2, r3, r0, r1, k, 13);
    AfterStep(k, p, 13);
    r2, r3, r0, r1, r4 := S5(r2, r3, r0, r1);
    r4, r2, r3, r1, r0 := LK(r4, r2, r3, r1, k, 14);
    AfterStep(k, p, 14);
    r4, r2, r3, r1, r0 := S6(r4, r2, r3, r1);
    r3, r0, r2, r1, r4 := LK(r3, r0, r2, r1, k, 15);
    AfterStep(k, p, 15);
    r3, r0, r2, r1, r4 := S7(r3, r0, r2, r1);
    r4, r2, r1, r3, r0 := LK(r4, r2, r1, r3, k, 16);
  }

  /** Rounds 16 to 23 of encrypt. */
  method EncryptFrom16(k: Schedule, ghost p: Quad, a0: Word, a1: Word, a2: Word, a3: Word, a4: Word)
    returns (r0: Word, r1: Word, r2: Word, r3: Word, r4: Word)
    requires Quad(a4, a2, a1, a3) == After(k, p, 16)
    ensures Quad(r1, r4, r0, r3) == After(k, p, 24)
  {
    hide Substitute, AddKey, Linear, InverseLinear, After, Before, Cipher;
    r0, r1, r2, r3, r4 := a0, a1, a2, a3, a4;
    AfterStep(k, p, 16);
    r4, r2, r1, r3, r0 := S0(r4, r2, r1, r3);
    r1, r2, r3, r4, r0 := LK(r1, r2, r3, r4, k, 17);
    AfterStep(k, p, 17);
    r1, r2, r3, r4, r0 := S1(r1, r2, r3, r4);
    r0, r3, r4, r1, r2 := LK(r0, r3, r4, r1, k, 18);
    AfterStep(k, p, 18);
    r0, r3, r4, r1, r2 := S2(r0, r3, r4, r1);
    r2, r3, r0, r1, r4 := LK(r2, r3, r0, r1, k, 19);
    AfterStep(k, p, 19);
    r2, r3, r0, r1, r4 := S3(r2, r3, r0, r1);
    r1, r4, r3, r2, r0 := LK(r1, r4, r3, r2, k, 20);
    AfterStep(k, p, 20);
    r1, r4, r3, r2, r0 := S4(r1, r4, r3, r2);
    r4, r3, r2, r0, r1 := LK(r4, r3, r2, r0, k, 21);
    AfterStep(k, p, 21);
    r4, r3, r2, r0, r1 := S5(r4, r3, r2, r0);
    r1, r4, r3, r0, r2 := LK(r1, r4, r3, r0, k, 22);
    AfterStep(k, p, 22);
    r1, r4, r3, r0, r2 := S6(r1, r4, r3, r0);
    r3, r2, r4, r0, r1 := LK(r3, r2, r4, r0, k, 23);
    AfterStep(k, p, 23);
    r3, r2, r4, r0, r1 := S7(r3, r2, r4, r0);
    r1, r4, r0, r3, r2 := LK(r1, r4, r0, r3, k, 24);
  }

  /** Rounds 24 to 31 of encrypt. */
  method EncryptFrom24(k: Schedule, ghost p: Quad, a0: Word, a1: Word, a2: Word, a3: Word, a4: Word)
    returns (r0: Word, r1: Word, r2: Word, r3: Word, r4: Word)
    requires Quad(a1, a4, a0, a3) == After(k, p, 24)
    ensures Quad(r0, r1, r2, r3) == Cipher(k, p)
  {
    CipherEnd(k, p);
    hide Substitute, AddKey, Linear, InverseLinear, After, Before, Cipher;
    r0, r1, r2, r3, r4 := a0, a1, a2, a3, a4;
    AfterStep(k, p, 24);
    r1, r4, r0, r3, r2 := S0(r1, r4, r0, r3);
    r0, r4, r3, r1, r2 := LK(r0, r4, r3, r1, k, 25);
    AfterStep(k, p, 25);
    r0, r4, r3, r1, r2 := S1(r0, r4, r3, r1);
    r2, r3, r1, r0, r4 := LK(r2, r3, r1, r0, k, 26);
    AfterStep(k, p, 26);
    r2, r3, r1, r0, r4 := S2(r2, r3, r1, r0);
    r4, r3, r2, r0, r1 := LK(r4, r3, r2, r0, k, 27);
    AfterStep(k, p, 27);
    r4, r3, r2, r0, r1 := S3(r4, r3, r2, r0);
    r0, r1, r3, r4, r2 := LK(r0, r1, r3, r4, k, 28);
    AfterStep(k, p, 28);
    r0, r1, r3, r4, r2 := S4(r0, r1, r3, r4);
    r1, r3, r4, r2, r0 := LK(r1, r3, r4, r2, k, 29);
    AfterStep(k, p, 29);
    r1, r3, r4, r2, r0 := S5(r1, r3, r4, r2);
    r0, r1, r3, r2, r4 := LK(r0, r1, r3, r2, k, 30);
    AfterStep(k, p, 30);
    r0, r1, r3, r2, r4 := S6(r0, r1, r3, r2);
    r3, r4, r1, r2, r0 := LK(r3, r4, r1, r2, k, 31);
    r3, r4, r1, r2, r0 := S7(r3, r4, r1, r2);
    r0, r1, r2, r3 := K(r0, r1, r2, r3, k, 32);
  }

  lemma {:induction false} CipherEnd(k: Schedule, p: Quad)
    ensures |SBOX[7]| == 16 && Cipher(k, p) == AddKey(Substitute(SBOX[7], After(k, p, 31)), k, 32)
  {
    BoxInverse(7, 0);
    assert Box(31) == SBOX[7];
    hide Substitute, AddKey, After;
  }

  method Encrypt(k: Schedule, s: Quad) returns (d: Quad)
    ensures d == Cipher(k, s)
  {
    assert After(k, s, 0) == AddKey(s, k, 0);
    hide After, AddKey, Cipher;
    var r0, r1, r2, r3, r4 := s.w0, s.w1, s.w2, s.w3, s.w0;
    r0, r1, r2, r3 := K(r0, r1, r2, r3, k, 0);
    r0, r1, r2, r3, r4 := EncryptFrom0(k, s, r0, r1, r2, r3, r4);
    r0, r1, r2, r3, r4 := EncryptFrom8(k, s, r0, r1, r2, r3, r4);
    r0, r1, r2, r3, r4 := EncryptFrom16(k, s, r0, r1, r2, r3, r4);
    r0, r1, r2, r3, r4 := EncryptFrom24(k, s, r0, r1, r2, r3, r4);
    d := Quad(r0, r1, r2, r3);
  }

  /** Rounds 31 down to 24 of decrypt. */
  method DecryptFrom31(k: Schedule, ghost c: Quad, a0: Word, a1: Word, a2: Word, a3: Word, a4: Word)
    returns (r0: Word, r1: Word, r2: Word, r3: Word, r4: Word)
    requires Quad(a0, a1, a2, a3) == AddKey(c, k, 32)
    ensures Quad(r4, r2, r0, r1) == InverseLinear(AddKey(Before(k, c, 24), k, 24))
  {
    hide Substitute, AddKey, Linear, InverseLinear, After, Before, Cipher;
    r0, r1, r2, r3, r4 := a0, a1, a2, a3, a4;
    BeforeEnd(k, c);
    r0, r1, r2, r3, r4 := SI7(r0, r1, r2, r3);
    r1, r3, r0, r4, r2 := KL(r1, r3, r0, r4, k, 31);
    BeforeStep(k, c, 30);
    r1, r3, r0, r4, r2 := SI6(r1, r3, r0, r4);
    r0, r2, r4, r1, r3 := KL(r0, r2, r4, r1, k, 30);
    BeforeStep(k, c, 29);
    r0, r2, r4, r1, r3 := SI5(r0, r2, r4, r1);
    r2, r3, r0, r4, r1 := KL(r2, r3, r0, r4, k, 29);
    BeforeStep(k, c, 28);
    r2, r3, r0, r4, r1 := SI4(r2, r3, r0, r4);
    r2, r0, r1, r4, r3 := KL(r2, r0, r1, r4, k, 28);
    BeforeStep(k, c, 27);
    r2, r0, r1, r4, r3 := SI3(r2, r0, r1, r4);
    r1, r2, r3, r4, r0 := KL(r1, r2, r3, r4, k, 27);
    BeforeStep(k, c, 26);
    r1, r2, r3, r4, r0 := SI2(r1, r2, r3, r4);
    r2, r0, r4, r3, r1 := KL(r2, r0, r4, r3, k, 26);
    BeforeStep(k, c, 25);
    r2, r0, r4, r3, r1 := SI1(r2, r0, r4, r3);
    r1, r0, r4, r3, r2 := KL(r1, r0, r4, r3, k, 25);
    BeforeStep(k, c, 24);
    r1, r0, r4, r3, r2 := SI0(r1, r0, r4, r3);
    r4, r2, r0, r1, r3 := KL(r4, r2, r0, r1, k, 24);
  }

  /** Rounds 23 down to 16 of decrypt. */
  method DecryptFrom23(k: Schedule, ghost c: Quad, a0: Word, a1: Word, a2: Word, a3: Word, a4: Word)
    returns (r0: Word, r1: Word, r2: Word, r3: Word, r4: Word)
    requires Quad(a4, a2, a0, a1) == InverseLinear(AddKey(Before(k, c, 24), k, 24))
    ensures Quad(r3, r0, r4, r2) == InverseLinear(AddKey(Before(k, c, 16), k, 16))
  {
    hide Substitute, AddKey, Linear, InverseLinear, After, Before, Cipher;
    r0, r1, r2, r3, r4 := a0, a1, a2, a3, a4;
    BeforeStep(k, c, 23);
    r4, r2, r0, r1, r3 := SI7(r4, r2, r0, r1);
    r2, r1, r4, r3, r0 := KL(r2, r1, r4, r3, k, 23);
    BeforeStep(k, c, 22);
    r2, r1, r4, r3, r0 := SI6(r2, r1, r4, r3);
    r4, r0, r3, r2, r1 := KL(r4, r0, r3, r2, k, 22);
    BeforeStep(k, c, 21);
    r4, r0, r3, r2, r1 := SI5(r4, r0, r3, r2);
    r0, r1, r4, r3, r2 := KL(r0, r1, r4, r3, k, 21);
    BeforeStep(k, c, 20);
    r0, r1, r4, r3, r2 := SI4(r0, r1, r4, r3);
    r0, r4, r2, r3, r1 := KL(r0, r4, r2, r3, k, 20);
    BeforeStep(k, c, 19);
    r0, r4, r2, r3, r1 := SI3(r0, r4, r2, r3);
    r2, r0, r1, r3, r4 := KL(r2, r0, r1, r3, k, 19);
    BeforeStep(k, c, 18);
    r2, r0, r1, r3, r4 := SI2(r2, r0, r1, r3);
    r0, r4, r3, r1, r2 := KL(r0, r4, r3, r1, k, 18);
    BeforeStep(k, c, 17);
    r0, r4, r3, r1, r2 := SI1(r0, r4, r3, r1);
    r2, r4, r3, r1, r0 := KL(r2, r4, r3, r1, k, 17);
    BeforeStep(k, c, 16);
    r2, r4, r3, r1, r0 := SI0(r2, r4, r3, r1);
    r3, r0, r4, r2, r1 := KL(r3, r0, r4, r2, k, 16);
  }

  /** Rounds 15 down to 8 of decrypt. */
  method DecryptFrom15(k: Schedule, ghost c: Quad, a0: Word, a1: Word, a2: Word, a3: Word, a4: Word)
    returns (r0: Word, r1: Word, r2: Word, r3: Word, r4: Word)
    requires Quad(a3, a0, a4, a2) == InverseLinear(AddKey(Before(k, c, 16), k, 16))
    ensures Quad(r1, r4, r3, r0) == InverseLinear(AddKey(Before(k, c, 8), k, 8))
  {
    hide Substitute, AddKey, Linear, InverseLinear, After, Before, Cipher;
    r0, r1, r2, r3, r4 := a0, a1, a2, a3, a4;
    BeforeStep(k, c, 15);
    r3, r0, r4, r2, r1 := SI7(r3, r0, r4, r2);
    r0, r2, r3, r1, r4 := KL(r0, r2, r3, r1, k, 15);
    BeforeStep(k, c, 14);
    r0, r2, r3, r1, r4 := SI6(r0, r2, r3, r1);
    r3, r4, r1, r0, r2 := KL(r3, r4, r1, r0, k, 14);
    BeforeStep(k, c, 13);
    r3, r4, r1, r0, r2 := SI5(r3, r4, r1, r0);
    r4, r2, r3, r1, r0 := KL(r4, r2, r3, r1, k, 13);
    BeforeStep(k, c, 12);
    r4, r2, r3, r1, r0 := SI4(r4, r2, r3, r1);
    r4, r3, r0, r1, r2 := KL(r4, r3, r0, r1, k, 12);
    BeforeStep(k, c, 11);
    r4, r3, r0, r1, r2 := SI3(r4, r3, r0, r1);
    r0, r4, r2, r1, r3 := KL(r0, r4, r2, r1, k, 11);
    BeforeStep(k, c, 10);
    r0, r4, r2, r1, r3 := SI2(r0, r4, r2, r1);
    r4, r3, r1, r2, r0 := KL(r4, r3, r1, r2, k, 10);
    BeforeStep(k, c, 9);
    r4, r3, r1, r2, r0 := SI1(r4, r3, r1, r2);
    r0, r3, r1, r2, r4 := KL(r0, r3, r1, r2, k, 9);
    BeforeStep(k, c, 8);
    r0, r3, r1, r2, r4 := SI0(r0, r3, r1, r2);
    r1, r4, r3, r0, r2 := KL(r1, r4, r3, r0, k, 8);
  }

  /** Rounds 7 down to 0 of decrypt. */
  method DecryptFrom7(k: Schedule, ghost c: Quad, a0: Word, a1: Word, a2: Word, a3: Word, a4: Word)
    returns (r0: Word, r1: Word, r2: Word, r3: Word, r4: Word)
    requires Quad(a1, a4, a3, a0) == InverseLinear(AddKey(Before(k, c, 8), k, 8))
    ensures Quad(r2, r3, r1, r4) == InverseCipher(k, c)
  {
    hide Substitute, AddKey, Linear, InverseLinear, After, Before, Cipher;
    r0, r1, r2, r3, r4 := a0, a1, a2, a3, a4;
    BeforeStep(k, c, 7);
    r1, r4, r3, r0, r2 := SI7(r1, r4, r3, r0);
    r4, r0, r1, r2, r3 := KL(r4, r0, r1, r2, k, 7);
    BeforeStep(k, c, 6);
    r4, r0, r1, r2, r3 := SI6(r4, r0, r1, r2);
    r1, r3, r2, r4, r0 := KL(r1, r3, r2, r4, k, 6);
    BeforeStep(k, c, 5);
    r1, r3, r2, r4, r0 := SI5(r1, r3, r2, r4);
    r3, r0, r1, r2, r4 := KL(r3, r0, r1, r2, k, 5);
    BeforeStep(k, c, 4);
    r3, r0, r1, r2, r4 := SI4(r3, r0, r1, r2);
    r3, r1, r4, r2, r0 := KL(r3, r1, r4, r2, k, 4);
    BeforeStep(k, c, 3);
    r3, r1, r4, r2, r0 := SI3(r3, r1, r4, r2);
    r4, r3, r0, r2, r1 := KL(r4, r3, r0, r2, k, 3);
    BeforeStep(k, c, 2);
    r4, r3, r0, r2, r1 := SI2(r4, r3, r0, r2);
    r3, r1, r2, r0, r4 := KL(r3, r1, r2, r0, k, 2);
    BeforeStep(k, c, 1);
    r3, r1, r2, r0, r4 := SI1(r3, r1, r2, r0);
    r4, r1, r2, r0, r3 := KL(r4, r1, r2, r0, k, 1);
    BeforeStep(k, c, 0);
    r4, r1, r2, r0, r3 := SI0(r4, r1, r2, r0);
    r2, r3, r1, r4 := K(r2, r3, r1, r4, k, 0);
  }

  lemma {:induction false} BeforeEnd(k: Schedule, c: Quad)
    ensures |INVERSE_SBOX[7]| == 16 && Before(k, c, 31) == Substitute(INVERSE_SBOX[7], AddKey(c, k, 32))
  {
    BoxInverse(7, 0);
    assert InverseBox(31) == INVERSE_SBOX[7];
    hide Substitute, AddKey;
  }

  method Decrypt(k: Schedule, s: Quad) returns (d: Quad)
    ensures d == InverseCipher(k, s)
  {
    hide Before, AddKey, InverseCipher, InverseLinear;
    var r0, r1, r2, r3, r4 := s.w0, s.w1, s.w2, s.w3, s.w0;
    r0, r1, r2, r3 := K(r0, r1, r2, r3, k, 32);
    r0, r1, r2, r3, r4 := DecryptFrom31(k, s, r0, r1, r2, r3, r4);
    r0, r1, r2, r3, r4 := DecryptFrom23(k, s, r0, r1, r2, r3, r4);
    r0, r1, r2, r3, r4 := DecryptFrom15(k, s, r0, r1, r2, r3, r4);
    r0, r1, r2, r3, r4 := DecryptFrom7(k, s, r0, r1, r2, r3, r4);
    d := Quad(r2, r3, r1, r4);
  }

  // ---- blocks of bytes

  /** le32_to_cpu of word n. */
  function ReadWord(b: seq<bv8>, n: nat): Word
    requires 4 * n + 4 <= |b|
  {
    seq(32, i requires 0 <= i < 32 => BitCodec.Bit(b[4 * n + i / 8], i % 8))
  }

  function ReadText(b: seq<bv8>): Quad
    requires |b| >= 16
  {
    Quad(ReadWord(b, 0), ReadWord(b, 1), ReadWord(b, 2), ReadWord(b, 3))
  }

  /** Byte k of a word, least significant first. */
  function ByteOf(x: Word, k: nat): bv8
    requires k < 4
  {
    BitCodec.FromBits(seq(8, j requires 0 <= j < 8 => x[8 * k + j]))
  }

  /** cpu_to_le32: the word is written so that it reads back. */
  method StoreWord(out: array<bv8>, n: nat, x: Word)
    requires 4 * n + 4 <= out.Length
    modifies out
    ensures ReadWord(out[..], n) == x
    ensures forall i :: 0 <= i < out.Length && !(4 * n <= i < 4 * n + 4) ==> out[i] == old(out[i])
  {
    hide ByteOf;
    out[4 * n] := ByteOf(x, 0);
    out[4 * n + 1] := ByteOf(x, 1);
    out[4 * n + 2] := ByteOf(x, 2);
    out[4 * n + 3] := ByteOf(x, 3);
    WordBack(out[..], n, x);
  }

  lemma WordBack(b: seq<bv8>, n: nat, x: Word)
    requires 4 * n + 4 <= |b| && b[4 * n] == ByteOf(x, 0) && b[4 * n + 1] == ByteOf(x, 1)
    requires b[4 * n + 2] == ByteOf(x, 2) && b[4 * n + 3] == ByteOf(x, 3)
    ensures ReadWord(b, n) == x
  {
    hide ByteOf;
    forall i | 0 <= i < 32
      ensures BitCodec.Bit(b[4 * n + i / 8], i % 8) == x[i]
    {
      ByteBit(x, i / 8, i % 8);
    }
  }

  lemma ByteBit(x: Word, k: nat, j: nat)
    requires k < 4 && j < 8
    ensures BitCodec.Bit(ByteOf(x, k), j) == x[8 * k + j]
  {
    BitCodec.BitFrom(seq(8, j requires 0 <= j < 8 => x[8 * k + j]), j);
    hide BitCodec.Bit, BitCodec.FromBits;
  }

  /** Blocks that read as the same words are the same bytes. */
  lemma SameText(a: seq<bv8>, b: seq<bv8>)
    requires |a| >= 16 && |b| >= 16 && ReadText(a) == ReadText(b)
    ensures forall i :: 0 <= i < 16 ==> a[i] == b[i]
  {
    hide ReadWord;
    forall i | 0 <= i < 16
      ensures a[i] == b[i]
    {
      SameByte(a, b, i / 4, i % 4);
    }
  }

  lemma SameByte(a: seq<bv8>, b: seq<bv8>, n: nat, k: nat)
    requires 4 * n + 4 <= |a| && 4 * n + 4 <= |b| && ReadWord(a, n) == ReadWord(b, n) && k < 4
    ensures a[4 * n + k] == b[4 * n + k]
  {
    hide BitCodec.Bit;
    var x, y := a[4 * n + k], b[4 * n + k];
    forall j | 0 <= j < 8
      ensures BitCodec.Bit(x, j) == BitCodec.Bit(y, j)
    {
      assert ReadWord(a, n)[8 * k + j] == ReadWord(b, n)[8 * k + j];
    }
    BitCodec.SameBits(x, y);
  }

  method WriteText(out: array<bv8>, q: Quad)
    requires out.Length >= 16
    modifies out
    ensures ReadText(out[..]) == q && out[16..] == old(out[16..])
  {
    StoreWord(out, 0, q.w0);
    StoreWord(out, 1, q.w1);
    StoreWord(out, 2, q.w2);
    StoreWord(out, 3, q.w3);
  }

  /** encrypt, from bytes to bytes. */
  method EncryptBlock(k: Schedule, dst: array<bv8>, src: array<bv8>)
    requires dst.Length >= 16 && src.Length >= 16
    modifies dst
    ensures ReadText(dst[..]) == Cipher(k, ReadText(old(src[..]))) && dst[16..] == old(dst[16..])
  {
    hide ReadWord, Cipher;
    var d := Encrypt(k, ReadText(src[..]));
    WriteText(dst, d);
  }

  /** decrypt, from bytes to bytes. */
  method DecryptBlock(k: Schedule, dst: array<bv8>, src: array<bv8>)
    requires dst.Length >= 16 && src.Length >= 16
    modifies dst
    ensures ReadText(dst[..]) == InverseCipher(k, ReadText(old(src[..]))) && dst[16..] == old(dst[16..])
  {
    hide ReadWord, InverseCipher;
    var d := Decrypt(k, ReadText(src[..]));
    WriteText(dst, d);
  }

  /** A block encrypted and decrypted in place has its bytes back, for every schedule. */
  method EncryptDecrypt(k: Schedule, block: array<bv8>)
    requires block.Length >= 16
    modifies block
    ensures block[..] == old(block[..])
  {
    hide ReadText, Cipher, InverseCipher;
    ghost var was := block[..];
    EncryptBlock(k, block, block);
    DecryptBlock(k, block, block);
    CipherInverse(k, ReadText(was));
    SameText(was, block[..]);
    forall i | 16 <= i < block.Length
      ensures block[i] == was[i]
    {
      assert block[16..][i - 16] == was[16..][i - 16];
    }
  }
}
