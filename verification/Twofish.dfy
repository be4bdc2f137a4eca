/**
  twofish.c: a Feistel network with one-bit rotations over key-dependent S-boxes, which may be any
  four tables. Bytes and words are those of module AesTables.
*/
module Twofish {
  import T = AesTables

  /** struct twofish_ctx: S-boxes, whitening words and round subkeys. */
  datatype Context = Context(s: seq<seq<bv32>>, w: seq<bv32>, k: seq<bv32>)

  predicate Shape(ctx: Context)
  {
    |ctx.s| == 4 && |ctx.s[0]| == |ctx.s[1]| == |ctx.s[2]| == |ctx.s[3]| == 256 && |ctx.w| == 8 && |ctx.k| == 32
  }

  /** The four words of the text. */
  datatype Text = Text(a: bv32, b: bv32, c: bv32, d: bv32)

  function Plus(x: bv32, y: bv32): bv32
  {
    x + y
  }

  /** y + (x + k), as an encryption round adds them up. */
  function SumEnc(y: bv32, x: bv32, k: bv32): bv32
  {
    y + (x + k)
  }

  /** (y + x) + k, as a decryption round does. */
  function SumDec(y: bv32, x: bv32, k: bv32): bv32
  {
    (y + x) + k
  }

  lemma SumsAgree(y: bv32, x: bv32, k: bv32)
    ensures SumDec(y, x, k) == SumEnc(y, x, k)
  {
  }

  function Xor(x: bv32, y: bv32): bv32
  {
    x ^ y
  }

  function Right1(x: bv32): bv32
  {
    (x >> 1) + (x << 31)
  }

  function Left1(x: bv32): bv32
  {
    (x << 1) + (x >> 31)
  }

  function Look(t: seq<bv32>, x: bv32, n: nat): bv32
    requires |t| == 256 && n < 4
  {
    T.IndexRange(T.Byte(x, n));
    t[T.Index(T.Byte(x, n))]
  }

  function G1(ctx: Context, a: bv32): bv32
    requires Shape(ctx)
  {
    Four(Look(ctx.s[0], a, 0), Look(ctx.s[1], a, 1), Look(ctx.s[2], a, 2), Look(ctx.s[3], a, 3))
  }

  function Four(a: bv32, b: bv32, c: bv32, d: bv32): bv32
  {
    a ^ b ^ c ^ d
  }

  function G2(ctx: Context, b: bv32): bv32
    requires Shape(ctx)
  {
    Four(Look(ctx.s[1], b, 0), Look(ctx.s[2], b, 1), Look(ctx.s[3], b, 2), Look(ctx.s[0], b, 3))
  }

  // ---- the Feistel function and one round

  /** The two outputs of the round function for round n: the pseudo-Hadamard transform of g, with the subkeys. */
  function F0(ctx: Context, n: nat, a: bv32, b: bv32): bv32
    requires Shape(ctx) && n < 16
  {
    Plus(Plus(G1(ctx, a), G2(ctx, b)), ctx.k[2 * n])
  }

  function F1(ctx: Context, n: nat, a: bv32, b: bv32): bv32
    requires Shape(ctx) && n < 16
  {
    SumEnc(G2(ctx, b), Plus(G1(ctx, a), G2(ctx, b)), ctx.k[2 * n + 1])
  }

  lemma RotateBack(x: bv32)
    ensures Right1(Left1(x)) == x && Left1(Right1(x)) == x
  {
  }

  lemma XorTwice(x: bv32, y: bv32)
    ensures Xor(Xor(x, y), y) == x
  {
  }

  /** ENCROUND. */
  method EncRound(ctx: Context, n: nat, a: bv32, b: bv32, c: bv32, d: bv32) returns (c': bv32, d': bv32)
    requires Shape(ctx) && n < 16
    ensures c' == Right1(Xor(c, F0(ctx, n, a, b))) && d' == Xor(Left1(d), F1(ctx, n, a, b))
  {
    hide G1, G2, Plus, SumEnc, Xor, Right1, Left1;
    var x, y := G1(ctx, a), G2(ctx, b);
    x := Plus(x, y);
    y := SumEnc(y, x, ctx.k[2 * n + 1]);
    c' := Xor(c, Plus(x, ctx.k[2 * n]));
    c' := Right1(c');
    d' := Xor(Left1(d), y);
  }

  /** DECROUND. */
  method DecRound(ctx: Context, n: nat, a: bv32, b: bv32, c: bv32, d: bv32) returns (c': bv32, d': bv32)
    requires Shape(ctx) && n < 16
    ensures c' == Xor(Left1(c), F0(ctx, n, a, b)) && d' == Right1(Xor(d, F1(ctx, n, a, b)))
  {
    hide G1, G2, Plus, SumEnc, SumDec, Xor, Right1, Left1;
    var x, y := G1(ctx, a), G2(ctx, b);
    x := Plus(x, y);
    SumsAgree(y, x, ctx.k[2 * n + 1]);
    d' := Xor(d, SumDec(y, x, ctx.k[2 * n + 1]));
    d' := Right1(d');
    c' := Left1(c);
    c' := Xor(c', Plus(x, ctx.k[2 * n]));
  }

  // ---- the network

  /** A Feistel round on the pair (c, d), keyed by the pair (a, b). */
  function Round(ctx: Context, n: nat, t: Text): Text
    requires Shape(ctx) && n < 16
  {
    Text(t.a, t.b, Right1(Xor(t.c, F0(ctx, n, t.a, t.b))), Xor(Left1(t.d), F1(ctx, n, t.a, t.b)))
  }

  function InvRound(ctx: Context, n: nat, t: Text): Text
    requires Shape(ctx) && n < 16
  {
    Text(t.a, t.b, Xor(Left1(t.c), F0(ctx, n, t.a, t.b)), Right1(Xor(t.d, F1(ctx, n, t.a, t.b))))
  }

  function Swap(t: Text): Text
  {
    Text(t.c, t.d, t.a, t.b)
  }

  lemma RoundUndone(ctx: Context, n: nat, t: Text)
    requires Shape(ctx) && n < 16
    ensures InvRound(ctx, n, Round(ctx, n, t)) == t
  {
    hide F0, F1, Xor, Right1, Left1;
    RotateBack(Xor(t.c, F0(ctx, n, t.a, t.b)));
    XorTwice(t.c, F0(ctx, n, t.a, t.b));
    XorTwice(Left1(t.d), F1(ctx, n, t.a, t.b));
    RotateBack(t.d);
  }

  /** The text after n of the sixteen rounds, with a swap after each. */
  function Rounds(ctx: Context, t: Text, n: nat): Text
    requires Shape(ctx) && n <= 16
  {
    if n == 0 then t else Swap(Round(ctx, n - 1, Rounds(ctx, t, n - 1)))
  }

  /** The way back from round 16 to round n. */
  function InvRounds(ctx: Context, t: Text, n: nat): Text
    requires Shape(ctx) && n <= 16
    decreases 16 - n
  {
    if n == 16 then t else InvRound(ctx, n, Swap(InvRounds(ctx, t, n + 1)))
  }

  lemma {:induction false} RoundsUndone(ctx: Context, t: Text, n: nat)
    requires Shape(ctx) && n <= 16
    ensures InvRounds(ctx, Rounds(ctx, t, 16), n) == Rounds(ctx, t, n)
    decreases 16 - n
  {
    hide Round, InvRound;
    if n < 16 {
      RoundsUndone(ctx, t, n + 1);
      RoundUndone(ctx, n, Rounds(ctx, t, n));
    }
  }

  function Whiten(ctx: Context, t: Text, m: nat): Text
    requires Shape(ctx) && m + 4 <= 8
  {
    Text(Xor(t.a, ctx.w[m]), Xor(t.b, ctx.w[m + 1]), Xor(t.c, ctx.w[m + 2]), Xor(t.d, ctx.w[m + 3]))
  }

  lemma WhitenTwice(ctx: Context, t: Text, m: nat)
    requires Shape(ctx) && m + 4 <= 8
    ensures Whiten(ctx, Whiten(ctx, t, m), m) == t
  {
    hide Xor;
    XorTwice(t.a, ctx.w[m]);
    XorTwice(t.b, ctx.w[m + 1]);
    XorTwice(t.c, ctx.w[m + 2]);
    XorTwice(t.d, ctx.w[m + 3]);
  }

  /** The words of the ciphertext: the last swap is undone by the order in which they are written. */
  function Cipher(ctx: Context, t: Text): Text
    requires Shape(ctx)
  {
    Whiten(ctx, Swap(Rounds(ctx, Whiten(ctx, t, 0), 16)), 4)
  }

  function InvCipher(ctx: Context, t: Text): Text
    requires Shape(ctx)
  {
    Whiten(ctx, InvRounds(ctx, Swap(Whiten(ctx, t, 4)), 0), 0)
  }

  /** For every S-boxes, subkeys and block, decryption undoes encryption. */
  lemma CipherUndone(ctx: Context, t: Text)
    requires Shape(ctx)
    ensures InvCipher(ctx, Cipher(ctx, t)) == t
  {
    var u := Whiten(ctx, t, 0);
    WhitenTwice(ctx, Swap(Rounds(ctx, u, 16)), 4);
    WhitenTwice(ctx, t, 0);
    RoundsUndone(ctx, u, 0);
    hide Whiten;
  }

  // ---- what the definitions say, in the terms of the Twofish paper

  /** g takes S-box i for byte i, and the second word goes through g rotated left by eight bits. */
  lemma GIs(ctx: Context, a: bv32)
    requires Shape(ctx)
    ensures G1(ctx, a) == Four(Look(ctx.s[0], a, 0), Look(ctx.s[1], a, 1), Look(ctx.s[2], a, 2), Look(ctx.s[3], a, 3))
    ensures G2(ctx, a) == G1(ctx, Left8(a))
  {
    hide T.Byte, Left8, Four;
    RotatedBytes(a);
    var r := Left8(a);
    FourTerms(Look(ctx.s[0], r, 0), Look(ctx.s[1], r, 1), Look(ctx.s[2], r, 2), Look(ctx.s[3], r, 3));
  }

  function Left8(x: bv32): bv32
  {
    (x << 8) | (x >> 24)
  }

  lemma RotatedBytes(a: bv32)
    ensures T.Byte(Left8(a), 0) == T.Byte(a, 3) && T.Byte(Left8(a), 1) == T.Byte(a, 0)
    ensures T.Byte(Left8(a), 2) == T.Byte(a, 1) && T.Byte(Left8(a), 3) == T.Byte(a, 2)
  {
  }

  lemma FourTerms(a: bv32, b: bv32, c: bv32, d: bv32)
    ensures Four(a, b, c, d) == Four(b, c, d, a) == a ^ b ^ c ^ d
  {
  }

  /** Both values of g, added up as SumsAre says, and the two subkeys of the round. */
  lemma FIs(ctx: Context, n: nat, a: bv32, b: bv32)
    requires Shape(ctx) && n < 16
    ensures
      var t0, t1 := G1(ctx, a), G1(ctx, Left8(b));
      && F0(ctx, n, a, b) == Plus(Plus(t0, t1), ctx.k[2 * n])
      && F1(ctx, n, a, b) == SumEnc(t1, Plus(t0, t1), ctx.k[2 * n + 1])
  {
    hide G1, G2, Left8, Plus, SumEnc;
    GIs(ctx, b);
  }

  /** The pseudo-Hadamard transform: x + y and x + 2y, modulo 2^32. */
  lemma SumsAre(x: bv32, y: bv32, k: bv32)
    ensures Plus(x, y) == x + y && SumEnc(x, y, k) == x + (y + k) && y + ((x + y) + k) == x + 2 * y + k
  {
  }

  /** Four tables of 256 words, eight whitening words and thirty-two subkeys, whatever they hold. */
  lemma AnyContext(s0: seq<bv32>, s1: seq<bv32>, s2: seq<bv32>, s3: seq<bv32>, w: seq<bv32>, k: seq<bv32>)
    requires |s0| == |s1| == |s2| == |s3| == 256 && |w| == 8 && |k| == 32
    ensures Shape(Context([s0, s1, s2, s3], w, k))
  {
  }

  lemma RotationsAre(x: bv32)
    ensures Right1(x) == (x >> 1) | (x << 31) && Left1(x) == (x << 1) | (x >> 31)
  {
  }

  /**
    One round: the right half, rotated by one bit before or after, takes the values of F, and the halves
    change places.
  */
  lemma {:induction false} RoundsAre(ctx: Context, t: Text, n: nat)
    requires Shape(ctx) && n < 16
    ensures Rounds(ctx, t, 0) == t
    ensures
      var r := Rounds(ctx, t, n);
      Rounds(ctx, t, n + 1) ==
        Text(Right1(Xor(r.c, F0(ctx, n, r.a, r.b))), Xor(Left1(r.d), F1(ctx, n, r.a, r.b)), r.a, r.b)
  {
    hide F0, F1, Right1, Left1, Xor;
  }

  /** Sixteen rounds between the whitening words 0 to 3 and 4 to 7; the last exchange of the halves is undone. */
  lemma {:induction false} CipherIs(ctx: Context, t: Text)
    requires Shape(ctx)
    ensures
      var r := Rounds(ctx, Text(Xor(t.a, ctx.w[0]), Xor(t.b, ctx.w[1]), Xor(t.c, ctx.w[2]), Xor(t.d, ctx.w[3])), 16);
      Cipher(ctx, t) == Text(Xor(r.c, ctx.w[4]), Xor(r.d, ctx.w[5]), Xor(r.a, ctx.w[6]), Xor(r.b, ctx.w[7]))
  {
    hide Rounds, Xor;
  }

  /** A block is four words of four bytes, the least significant byte first. */
  lemma TextIs(s: seq<bv8>, n: nat)
    requires |s| >= 16 && n < 4
    ensures ReadText(s).a == ReadWord(s, 0) && ReadText(s).b == ReadWord(s, 1)
    ensures ReadText(s).c == ReadWord(s, 2) && ReadText(s).d == ReadWord(s, 3)
    ensures ReadWord(s, n) == (s[4 * n] as bv32) | ((s[4 * n + 1] as bv32) << 8)
                              | ((s[4 * n + 2] as bv32) << 16) | ((s[4 * n + 3] as bv32) << 24)
  {
  }

  // ---- cycles

  /** ENCCYCLE: two rounds, the second with the pairs exchanged instead of swapped. */
  method EncCycle(ctx: Context, n: nat, ghost t: Text, a: bv32, b: bv32, c: bv32, d: bv32)
    returns (a': bv32, b': bv32, c': bv32, d': bv32)
    requires Shape(ctx) && n < 8 && Text(a, b, c, d) == Rounds(ctx, t, 2 * n)
    ensures Text(a', b', c', d') == Rounds(ctx, t, 2 * n + 2)
  {
    hide F0, F1, Xor, Right1, Left1;
    c', d' := EncRound(ctx, 2 * n, a, b, c, d);
    assert Rounds(ctx, t, 2 * n + 1) == Text(c', d', a, b);
    a', b' := EncRound(ctx, 2 * n + 1, c', d', a, b);
  }

  /** DECCYCLE. */
  method DecCycle(ctx: Context, n: nat, ghost t: Text, a: bv32, b: bv32, c: bv32, d: bv32)
    returns (a': bv32, b': bv32, c': bv32, d': bv32)
    requires Shape(ctx) && n < 8 && Text(a, b, c, d) == InvRounds(ctx, t, 2 * n + 2)
    ensures Text(a', b', c', d') == InvRounds(ctx, t, 2 * n)
  {
    hide F0, F1, Xor, Right1, Left1;
    a', b' := DecRound(ctx, 2 * n + 1, c, d, a, b);
    assert InvRounds(ctx, t, 2 * n + 1) == Text(c, d, a', b');
    c', d' := DecRound(ctx, 2 * n, a', b', c, d);
  }

  // ---- blocks of bytes

  function ReadWord(s: seq<bv8>, n: nat): bv32
    requires 4 * n + 4 <= |s|
  {
    T.Word(s[4 * n], s[4 * n + 1], s[4 * n + 2], s[4 * n + 3])
  }

  function ReadText(s: seq<bv8>): Text
    requires |s| >= 16
  {
    Text(ReadWord(s, 0), ReadWord(s, 1), ReadWord(s, 2), ReadWord(s, 3))
  }

  /** INPACK: the bytes are combined by exclusive or, which no two of them share a bit for. */
  method InPack(src: array<bv8>, n: nat, w: bv32) returns (x: bv32)
    requires 4 * n + 4 <= src.Length
    ensures x == Xor(ReadWord(src[..], n), w)
  {
    var b0, b1, b2, b3 := src[4 * n], src[4 * n + 1], src[4 * n + 2], src[4 * n + 3];
    PackedByXor(b0, b1, b2, b3);
    hide T.Word;
    x := ((b0 as bv32) ^ ((b1 as bv32) << 8) ^ ((b2 as bv32) << 16) ^ ((b3 as bv32) << 24)) ^ w;
  }

  lemma PackedByXor(b0: bv8, b1: bv8, b2: bv8, b3: bv8)
    ensures (b0 as bv32) ^ ((b1 as bv32) << 8) ^ ((b2 as bv32) << 16) ^ ((b3 as bv32) << 24) == T.Word(b0, b1, b2, b3)
  {
  }

  /** OUTUNPACK. */
  method OutUnpack(out: array<bv8>, n: nat, x: bv32, w: bv32)
    requires 4 * n + 4 <= out.Length
    modifies out
    ensures ReadWord(out[..], n) == Xor(x, w)
    ensures forall i :: 0 <= i < out.Length && !(4 * n <= i < 4 * n + 4) ==> out[i] == old(out[i])
  {
    var y := Xor(x, w);
    T.WordColumn(y);
    hide T.Word, T.Byte, Xor;
    out[4 * n], out[4 * n + 1], out[4 * n + 2], out[4 * n + 3] := T.Byte(y, 0), T.Byte(y, 1), T.Byte(y, 2),
      T.Byte(y, 3);
  }

  /** twofish_encrypt; the source and the destination may be the same. */
  method Encrypt(ctx: Context, out: array<bv8>, src: array<bv8>)
    requires Shape(ctx) && out.Length >= 16 && src.Length >= 16
    modifies out
    ensures ReadText(out[..]) == Cipher(ctx, ReadText(old(src[..]))) && out[16..] == old(out[16..])
  {
    hide Xor, Rounds, T.Word;
    ghost var t := Whiten(ctx, ReadText(src[..]), 0);
    RoundsStart(ctx, t);
    var a := InPack(src, 0, ctx.w[0]);
    var b := InPack(src, 1, ctx.w[1]);
    var c := InPack(src, 2, ctx.w[2]);
    var d := InPack(src, 3, ctx.w[3]);
    a, b, c, d := EncCycle(ctx, 0, t, a, b, c, d);
    a, b, c, d := EncCycle(ctx, 1, t, a, b, c, d);
    a, b, c, d := EncCycle(ctx, 2, t, a, b, c, d);
    a, b, c, d := EncCycle(ctx, 3, t, a, b, c, d);
    a, b, c, d := EncCycle(ctx, 4, t, a, b, c, d);
    a, b, c, d := EncCycle(ctx, 5, t, a, b, c, d);
    a, b, c, d := EncCycle(ctx, 6, t, a, b, c, d);
    a, b, c, d := EncCycle(ctx, 7, t, a, b, c, d);
    WriteText(ctx, out, c, d, a, b, 4);
  }

  lemma {:induction false} RoundsStart(ctx: Context, t: Text)
    requires Shape(ctx)
    ensures Rounds(ctx, t, 0) == t && InvRounds(ctx, t, 16) == t
  {
  }

  method WriteText(ctx: Context, out: array<bv8>, a: bv32, b: bv32, c: bv32, d: bv32, m: nat)
    requires Shape(ctx) && out.Length >= 16 && m + 4 <= 8
    modifies out
    ensures ReadText(out[..]) == Whiten(ctx, Text(a, b, c, d), m) && out[16..] == old(out[16..])
  {
    hide Xor, T.Word;
    OutUnpack(out, 0, a, ctx.w[m]);
    OutUnpack(out, 1, b, ctx.w[m + 1]);
    OutUnpack(out, 2, c, ctx.w[m + 2]);
    OutUnpack(out, 3, d, ctx.w[m + 3]);
  }

  /** twofish_decrypt. */
  method Decrypt(ctx: Context, out: array<bv8>, src: array<bv8>)
    requires Shape(ctx) && out.Length >= 16 && src.Length >= 16
    modifies out
    ensures ReadText(out[..]) == InvCipher(ctx, ReadText(old(src[..]))) && out[16..] == old(out[16..])
  {
    hide Xor, InvRounds, T.Word;
    ghost var t := Swap(Whiten(ctx, ReadText(src[..]), 4));
    RoundsStart(ctx, t);
    var c := InPack(src, 0, ctx.w[4]);
    var d := InPack(src, 1, ctx.w[5]);
    var a := InPack(src, 2, ctx.w[6]);
    var b := InPack(src, 3, ctx.w[7]);
    a, b, c, d := DecCycle(ctx, 7, t, a, b, c, d);
    a, b, c, d := DecCycle(ctx, 6, t, a, b, c, d);
    a, b, c, d := DecCycle(ctx, 5, t, a, b, c, d);
    a, b, c, d := DecCycle(ctx, 4, t, a, b, c, d);
    a, b, c, d := DecCycle(ctx, 3, t, a, b, c, d);
    a, b, c, d := DecCycle(ctx, 2, t, a, b, c, d);
    a, b, c, d := DecCycle(ctx, 1, t, a, b, c, d);
    a, b, c, d := DecCycle(ctx, 0, t, a, b, c, d);
    WriteText(ctx, out, a, b, c, d, 0);
  }

  lemma SameBytes(b0: bv8, b1: bv8, b2: bv8, b3: bv8, c0: bv8, c1: bv8, c2: bv8, c3: bv8)
    requires T.Word(b0, b1, b2, b3) == T.Word(c0, c1, c2, c3)
    ensures b0 == c0 && b1 == c1 && b2 == c2 && b3 == c3
  {
    hide T.Word, T.Column;
    T.ColumnWord(b0, b1, b2, b3);
    T.ColumnWord(c0, c1, c2, c3);
  }

  lemma SameText(s: seq<bv8>, t: seq<bv8>)
    requires |s| >= 16 && |t| >= 16 && ReadText(s) == ReadText(t)
    ensures s[..16] == t[..16]
  {
    hide T.Word;
    forall n | 0 <= n < 4
      ensures s[4 * n] == t[4 * n] && s[4 * n + 1] == t[4 * n + 1] && s[4 * n + 2] == t[4 * n + 2] &&
        s[4 * n + 3] == t[4 * n + 3]
    {
      assert ReadWord(s, n) == ReadWord(t, n);
      SameBytes(s[4 * n], s[4 * n + 1], s[4 * n + 2], s[4 * n + 3], t[4 * n], t[4 * n + 1], t[4 * n + 2], t[4 * n + 3]);
    }
    forall i | 0 <= i < 16
      ensures s[i] == t[i]
    {
      var n := i / 4;
      assert i == 4 * n || i == 4 * n + 1 || i == 4 * n + 2 || i == 4 * n + 3;
    }
  }

  /** Encrypting a block in place and decrypting it in place gives the block back, byte for byte. */
  method EncryptDecrypt(ctx: Context, block: array<bv8>)
    requires Shape(ctx) && block.Length >= 16
    modifies block
    ensures block[..] == old(block[..])
  {
    hide Cipher, InvCipher, ReadText;
    ghost var was := block[..];
    Encrypt(ctx, block, block);
    Decrypt(ctx, block, block);
    CipherUndone(ctx, ReadText(was));
    SameText(block[..], was);
    assert block[..] == block[..16] + block[16..] && was == was[..16] + was[16..];
  }
}
