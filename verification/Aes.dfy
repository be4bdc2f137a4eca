/**
  aes.c: the context, aes_set_key, aes_encrypt and aes_decrypt. The schedule is the key expansion
  of FIPS 197, the two block functions are its cipher (section 5.1) and its equivalent inverse
  cipher (section 5.3.5), and so decryption undoes encryption.
*/
module Aes {
  import opened GaloisField
  import opened AesSpec
  import opened AesTables
  import opened AesRounds
  import opened AesKey

  // ---- blocks as bytes and as words

  /** u32_in: four bytes as a little-endian word. */
  function WordAt(s: seq<bv8>, i: nat): bv32
    requires i + 4 <= |s|
  {
    Word(s[i], s[i + 1], s[i + 2], s[i + 3])
  }

  function ColumnAt(s: seq<bv8>, i: nat): Col
    requires i + 4 <= |s|
  {
    Col(s[i], s[i + 1], s[i + 2], s[i + 3])
  }

  /** The state filled column by column from sixteen bytes (section 3.4 of FIPS 197). */
  function BlockState(s: seq<bv8>): State
    requires |s| >= 16
  {
    State(ColumnAt(s, 0), ColumnAt(s, 4), ColumnAt(s, 8), ColumnAt(s, 12))
  }

  /** The words of a key of whole words. */
  function KeyColumns(s: seq<bv8>): seq<Col>
  {
    seq(|s| / 4, i requires 0 <= i < |s| / 4 => ColumnAt(s, 4 * i))
  }

  lemma WordAtColumn(s: seq<bv8>, i: nat)
    requires i + 4 <= |s|
    ensures Column(WordAt(s, i)) == ColumnAt(s, i)
  {
    ColumnWord(s[i], s[i + 1], s[i + 2], s[i + 3]);
  }

  /** u32_out. */
  method StoreWord(out: array<bv8>, at: nat, x: bv32)
    requires at + 4 <= out.Length
    modifies out
    ensures ColumnAt(out[..], at) == Column(x)
    ensures forall i :: 0 <= i < out.Length && !(at <= i < at + 4) ==> out[i] == old(out[i])
  {
    hide Byte;
    out[at], out[at + 1], out[at + 2], out[at + 3] := Byte(x, 0), Byte(x, 1), Byte(x, 2), Byte(x, 3);
  }

  method StoreBlock(out: array<bv8>, b: array<bv32>)
    requires out.Length >= 16 && b.Length == 4 && Apart(out, {b})
    modifies out
    ensures BlockState(out[..]) == WordsState(b[..]) && out[16..] == old(out[16..])
  {
    hide Column;
    StoreWord(out, 0, b[0]);
    StoreWord(out, 4, b[1]);
    StoreWord(out, 8, b[2]);
    StoreWord(out, 12, b[3]);
  }

  /** The block plus a round key, as the first lines of both block functions load it. */
  method LoadBlock(src: array<bv8>, k: array<bv32>, kp: nat, b: array<bv32>)
    requires src.Length >= 16 && kp + 4 <= k.Length && b.Length == 4 && b != k && Apart(src, {b})
    modifies b
    ensures WordsState(b[..]) == AddRoundKey(BlockState(src[..]), KeyState(k[..], kp))
  {
    hide Column, AddCol, Xor32, Word;
    b[0] := Load(src, 0, k[kp]);
    b[1] := Load(src, 4, k[kp + 1]);
    b[2] := Load(src, 8, k[kp + 2]);
    b[3] := Load(src, 12, k[kp + 3]);
  }

  method Load(src: array<bv8>, at: nat, k: bv32) returns (x: bv32)
    requires at + 4 <= src.Length
    ensures Column(x) == AddCol(ColumnAt(src[..], at), Column(k))
  {
    hide Column, AddCol, Xor32;
    WordAtColumn(src[..], at);
    ColumnXor(WordAt(src[..], at), k);
    x := Xor32(Word(src[at], src[at + 1], src[at + 2], src[at + 3]), k);
  }

  predicate KeyLength(n: nat)
  {
    n == 16 || n == 24 || n == 32
  }

  /** The words D must hold below word n: the first round key as it is, the others through InvMixColumn. */
  ghost predicate InvertedUpTo(d: seq<bv32>, key: seq<Col>, n: nat)
  {
    && KeySize(|key|) && n <= |d|
    && forall i :: 0 <= i < n ==> Column(d[i]) == if i < 4 then KeyWord(key, i) else InvMixColumn(KeyWord(key, i))
  }

  class Context {
    const tables: Tables
    var keyLength: nat
    const E: array<bv32>
    const D: array<bv32>

    ghost predicate Shape()
    {
      && tables.Shape() && E.Length == 64 && D.Length == 60 && E != D
      && E != tables.rco && D != tables.rco
    }

    /** The context holds the schedules of a key. */
    ghost predicate Scheduled(key: seq<bv8>)
      reads this, E, D, tables.rco, tables.fl, tables.ft, tables.il, tables.it
    {
      && Shape() && tables.Built() && KeyLength(|key|) && keyLength == |key|
      && ExpandedUpTo(E[..], KeyColumns(key), |key| + 28)
      && InvertedUpTo(D[..], KeyColumns(key), |key| + 24)
    }

    constructor (t: Tables)
      requires t.Shape()
      ensures Shape() && tables == t && fresh(E) && fresh(D)
    {
      tables := t;
      keyLength := 0;
      E := new bv32[64];
      D := new bv32[60];
    }

    /** aes_set_key up to the inverse schedule. */
    method ExpandKey(inKey: seq<bv8>)
      requires Shape() && tables.Built() && KeyLength(|inKey|)
      modifies E
      ensures ExpandedUpTo(E[..], KeyColumns(inKey), |inKey| + 28)
    {
      hide Column, KeyWord, Word, Tables.Built, WordAt;
      ghost var key := KeyColumns(inKey);
      var nk := |inKey| / 4;
      LoadKey(inKey, nk);
      var t := E[nk - 1];
      assert E[..][nk - 1] == t;
      if nk == 4 {
        for i := 0 to 10
          invariant ExpandedUpTo(E[..], key, 4 * i + 4) && Column(t) == KeyWord(key, 4 * i + 3)
        {
          t := Loop4(tables, E, key, i, t);
        }
      } else if nk == 6 {
        for i := 0 to 8
          invariant ExpandedUpTo(E[..], key, 6 * i + 6) && Column(t) == KeyWord(key, 6 * i + 5)
        {
          t := Loop6(tables, E, key, i, t);
        }
      } else {
        for i := 0 to 7
          invariant ExpandedUpTo(E[..], key, 8 * i + 8) && Column(t) == KeyWord(key, 8 * i + 7)
        {
          t := Loop8(tables, E, key, i, t);
        }
      }
    }

    method LoadKey(inKey: seq<bv8>, nk: nat)
      requires Shape() && KeyLength(|inKey|) && nk == |inKey| / 4
      modifies E
      ensures ExpandedUpTo(E[..], KeyColumns(inKey), nk)
    {
      hide Column, Word, WordAt;
      for i := 0 to nk
        invariant ExpandedUpTo(E[..], KeyColumns(inKey), i)
      {
        WordAtColumn(inKey, 4 * i);
        E[i] := WordAt(inKey, 4 * i);
      }
    }

    /** The last loop of aes_set_key. */
    method InvertKey(ghost key: seq<Col>, n: nat)
      requires Shape() && 4 <= n <= 56 && ExpandedUpTo(E[..], key, n)
      modifies D
      ensures InvertedUpTo(D[..], key, n)
    {
      hide Column, KeyWord, ImixCol, InvMixColumn;
      ghost var e := E[..];
      D[0], D[1], D[2], D[3] := E[0], E[1], E[2], E[3];
      assert e[0] == E[0] && e[1] == E[1] && e[2] == E[2] && e[3] == E[3];
      for i := 4 to n
        invariant E[..] == e && InvertedUpTo(D[..], key, i)
      {
        assert e[i] == E[i];
        ImixIsInvMixColumn(E[i]);
        D[i] := ImixCol(E[i]);
      }
    }

    /** aes_set_key: a key of any other length is refused and nothing changes. */
    method SetKey(inKey: seq<bv8>) returns (ok: bool)
      requires Shape() && tables.Built()
      modifies this, E, D
      ensures ok <==> KeyLength(|inKey|)
      ensures ok ==> Scheduled(inKey)
      ensures !ok ==> keyLength == old(keyLength) && E[..] == old(E[..]) && D[..] == old(D[..])
    {
      hide ExpandedUpTo, InvertedUpTo, Tables.Built;
      if |inKey| != 16 && |inKey| != 24 && |inKey| != 32 {
        return false;
      }
      keyLength := |inKey|;
      ExpandKey(inKey);
      ghost var e := E[..];
      ExpandedLess(e, KeyColumns(inKey), |inKey| + 28, |inKey| + 24);
      InvertKey(KeyColumns(inKey), |inKey| + 24);
      assert E[..] == e;
      ok := true;
    }

    /** f_nround on the encryption schedule, leaving the key pointer at the next round key. */
    method EncryptRound(ghost key: seq<bv8>, ghost block: State, ghost r: nat,
                        bo: array<bv32>, bi: array<bv32>, kp: nat) returns (next: nat)
      requires Scheduled(key) && bo.Length == bi.Length == 4 && bo != bi && bo !in {E, D, tables.rco}
      requires kp == 4 * r + 4 && kp + 4 <= |key| + 28
      requires WordsState(bi[..]) == AfterRound(KeyColumns(key), block, r)
      modifies bo
      ensures WordsState(bo[..]) == AfterRound(KeyColumns(key), block, r + 1) && next == kp + 4
    {
      hide TableUpTo, ExpandedUpTo, InvertedUpTo, WordsState, KeyState, AddRoundKey, SubShift, MixColumns, RoundKey,
        KeyColumns, RconUpTo;
      KeyColumnsSize(key);
      ForwardWords(tables.ft, ForwardRound, bo, bi, E, kp);
      ForwardKey(E[..], KeyColumns(key), |key| + 28, r + 1);
      next := kp + 4;
    }

    /** The ten rounds that every key length has. */
    method EncryptTen(ghost key: seq<bv8>, ghost block: State, ghost r: nat, b0: array<bv32>, b1: array<bv32>, kp: nat)
      requires Scheduled(key) && b0.Length == b1.Length == 4 && b0 != b1
      requires b0 !in {E, D, tables.rco} && b1 !in {E, D, tables.rco}
      requires kp == 4 * r + 4 && 4 * r + 16 == |key| && WordsState(b0[..]) == AfterRound(KeyColumns(key), block, r)
      modifies b0, b1
      ensures WordsState(b0[..]) == Cipher(KeyColumns(key), block)
    {
      hide ExpandedUpTo, InvertedUpTo, WordsState, KeyState, AddRoundKey, SubShift, InvSubShift, RoundKey, KeyColumns,
        BlockState, AfterRound, TableUpTo, RconUpTo;
      KeyColumnsSize(key);
      var next := kp;
      next := EncryptRound(key, block, r, b1, b0, next);
      next := EncryptRound(key, block, r + 1, b0, b1, next);
      next := EncryptRound(key, block, r + 2, b1, b0, next);
      next := EncryptRound(key, block, r + 3, b0, b1, next);
      next := EncryptRound(key, block, r + 4, b1, b0, next);
      next := EncryptRound(key, block, r + 5, b0, b1, next);
      next := EncryptRound(key, block, r + 6, b1, b0, next);
      next := EncryptRound(key, block, r + 7, b0, b1, next);
      next := EncryptRound(key, block, r + 8, b1, b0, next);
      ForwardWords(tables.fl, ForwardLast, b0, b1, E, next);
      ForwardKey(E[..], KeyColumns(key), |key| + 28, r + 10);
    }

    /** aes_encrypt. */
    method Encrypt(ghost key: seq<bv8>, out: array<bv8>, src: array<bv8>)
      requires Scheduled(key) && out.Length >= 16 && src.Length >= 16
      modifies out
      ensures BlockState(out[..]) == Cipher(KeyColumns(key), BlockState(old(src[..])))
      ensures out[16..] == old(out[16..])
    {
      hide ExpandedUpTo, InvertedUpTo, WordsState, KeyState, AddRoundKey, SubShift, RoundKey, KeyColumns, BlockState,
        AfterRound, Cipher, TableUpTo, RconUpTo;
      KeyColumnsSize(key);
      ghost var block := BlockState(src[..]);
      ghost var r := 0;
      var b0, b1 := new bv32[4], new bv32[4];
      LoadBlock(src, E, 0, b0);
      ForwardKey(E[..], KeyColumns(key), |key| + 28, 0);
      AfterRoundStart(KeyColumns(key), block);
      var kp := 4;
      if keyLength > 24 {
        kp := EncryptRound(key, block, 0, b1, b0, kp);
        kp := EncryptRound(key, block, 1, b0, b1, kp);
        r := 2;
      }
      if keyLength > 16 {
        kp := EncryptRound(key, block, r, b1, b0, kp);
        kp := EncryptRound(key, block, r + 1, b0, b1, kp);
        r := r + 2;
      }
      EncryptTen(key, block, r, b0, b1, kp);
      StoreBlock(out, b0);
    }

    /** i_nround on the decryption schedule, moving the key pointer down. */
    method DecryptRound(ghost key: seq<bv8>, ghost block: State, ghost n: nat,
                        bo: array<bv32>, bi: array<bv32>, kp: nat) returns (next: nat)
      requires Scheduled(key) && bo.Length == bi.Length == 4 && bo != bi && bo !in {E, D, tables.rco}
      requires kp >= 4 && kp + 4 * n == |key| + 20
      requires WordsState(bi[..]) == AfterInvRound(KeyColumns(key), block, n)
      modifies bo
      ensures WordsState(bo[..]) == AfterInvRound(KeyColumns(key), block, n + 1) && next == kp - 4
    {
      hide TableUpTo, ExpandedUpTo, InvertedUpTo, WordsState, KeyState, AddRoundKey, InvSubShift, InvMixColumns,
        InvRoundKey, KeyColumns, RconUpTo;
      KeyColumnsSize(key);
      InverseWords(tables.it, InverseRound, bo, bi, D, kp);
      InverseKey(D[..], KeyColumns(key), |key| + 24, |key| / 4 + 5 - n);
      next := kp - 4;
    }

    /** The ten rounds that every key length has. */
    method DecryptTen(ghost key: seq<bv8>, ghost block: State, ghost n: nat, b0: array<bv32>, b1: array<bv32>, kp: nat)
      requires Scheduled(key) && b0.Length == b1.Length == 4 && b0 != b1
      requires b0 !in {E, D, tables.rco} && b1 !in {E, D, tables.rco}
      requires kp == 36 && 4 * n + 16 == |key| && WordsState(b0[..]) == AfterInvRound(KeyColumns(key), block, n)
      modifies b0, b1
      ensures WordsState(b0[..]) == EqInvCipher(KeyColumns(key), block)
    {
      hide ExpandedUpTo, InvertedUpTo, WordsState, KeyState, AddRoundKey, SubShift, InvSubShift, RoundKey, KeyColumns,
        BlockState, AfterInvRound, TableUpTo, RconUpTo;
      KeyColumnsSize(key);
      var next := kp;
      next := DecryptRound(key, block, n, b1, b0, next);
      next := DecryptRound(key, block, n + 1, b0, b1, next);
      next := DecryptRound(key, block, n + 2, b1, b0, next);
      next := DecryptRound(key, block, n + 3, b0, b1, next);
      next := DecryptRound(key, block, n + 4, b1, b0, next);
      next := DecryptRound(key, block, n + 5, b0, b1, next);
      next := DecryptRound(key, block, n + 6, b1, b0, next);
      next := DecryptRound(key, block, n + 7, b0, b1, next);
      next := DecryptRound(key, block, n + 8, b1, b0, next);
      InverseWords(tables.il, InverseLast, b0, b1, D, next);
      InverseKey(D[..], KeyColumns(key), |key| + 24, 0);
    }

    /** aes_decrypt. */
    method Decrypt(ghost key: seq<bv8>, out: array<bv8>, src: array<bv8>)
      requires Scheduled(key) && out.Length >= 16 && src.Length >= 16
      modifies out
      ensures BlockState(out[..]) == EqInvCipher(KeyColumns(key), BlockState(old(src[..])))
      ensures out[16..] == old(out[16..])
    {
      hide ExpandedUpTo, InvertedUpTo, WordsState, KeyState, AddRoundKey, InvSubShift, RoundKey, KeyColumns,
        BlockState, AfterInvRound, EqInvCipher, TableUpTo, RconUpTo;
      KeyColumnsSize(key);
      ghost var block := BlockState(src[..]);
      ghost var n := 0;
      var b0, b1 := new bv32[4], new bv32[4];
      LoadBlock(src, E, keyLength + 24, b0);
      ForwardKey(E[..], KeyColumns(key), |key| + 28, Rounds(|key| / 4));
      AfterInvRoundStart(KeyColumns(key), block);
      var kp := keyLength + 20;
      if keyLength > 24 {
        kp := DecryptRound(key, block, 0, b1, b0, kp);
        kp := DecryptRound(key, block, 1, b0, b1, kp);
        n := 2;
      }
      if keyLength > 16 {
        kp := DecryptRound(key, block, n, b1, b0, kp);
        kp := DecryptRound(key, block, n + 1, b0, b1, kp);
        n := n + 2;
      }
      DecryptTen(key, block, n, b0, b1, kp);
      StoreBlock(out, b0);
    }
  }

  lemma ExpandedLess(e: seq<bv32>, key: seq<Col>, m: nat, n: nat)
    requires ExpandedUpTo(e, key, m) && n <= m
    ensures ExpandedUpTo(e, key, n)
  {
  }

  lemma KeyColumnsSize(key: seq<bv8>)
    ensures |KeyColumns(key)| == |key| / 4
  {
  }

  lemma ForwardKey(e: seq<bv32>, key: seq<Col>, n: nat, r: nat)
    requires ExpandedUpTo(e, key, n) && 4 * r + 4 <= n
    ensures KeyState(e, 4 * r) == RoundKey(key, r)
  {
    hide Column, KeyWord;
  }

  lemma InverseKey(d: seq<bv32>, key: seq<Col>, n: nat, r: nat)
    requires InvertedUpTo(d, key, n) && 4 * r + 4 <= n && n == 4 * Rounds(|key|)
    ensures KeyState(d, 4 * r) == InvRoundKey(key, r)
  {
    hide Column, KeyWord, InvMixColumn;
  }

  lemma {:induction false} AfterRoundStart(key: seq<Col>, block: State)
    requires KeySize(|key|)
    ensures AfterRound(key, block, 0) == AddRoundKey(block, RoundKey(key, 0))
  {
  }

  lemma {:induction false} AfterInvRoundStart(key: seq<Col>, block: State)
    requires KeySize(|key|)
    ensures AfterInvRound(key, block, 0) == AddRoundKey(block, RoundKey(key, Rounds(|key|)))
  {
  }

  lemma BlockStateBytes(s: seq<bv8>, t: seq<bv8>)
    requires |s| >= 16 && |t| >= 16 && BlockState(s) == BlockState(t)
    ensures s[..16] == t[..16]
  {
    assert s[0] == t[0] && s[1] == t[1] && s[2] == t[2] && s[3] == t[3];
    assert s[4] == t[4] && s[5] == t[5] && s[6] == t[6] && s[7] == t[7];
    assert s[8] == t[8] && s[9] == t[9] && s[10] == t[10] && s[11] == t[11];
    assert s[12] == t[12] && s[13] == t[13] && s[14] == t[14] && s[15] == t[15];
  }

  /** For every key of 16, 24 or 32 bytes and every block, decrypting what was encrypted gives the block back. */
  method EncryptDecrypt(ctx: Context, key: seq<bv8>, src: array<bv8>, mid: array<bv8>, out: array<bv8>)
    returns (ok: bool)
    requires ctx.Shape() && ctx.tables.Built() && src.Length >= 16 && mid.Length >= 16 && out.Length >= 16
    requires Apart(mid, {ctx.E, ctx.D, ctx.tables.rco}) && Apart(src, {ctx.E, ctx.D}) &&
      Apart(mid, {ctx, ctx.tables.fl, ctx.tables.ft, ctx.tables.il, ctx.tables.it})
    modifies ctx, ctx.E, ctx.D, mid, out
    ensures ok <==> KeyLength(|key|)
    ensures ok ==> out[..16] == old(src[..16])
  {
    hide Cipher, EqInvCipher, BlockState, KeyColumns;
    ghost var was := src[..];
    ok := ctx.SetKey(key);
    if !ok {
      return;
    }
    assert src[..] == was;
    ctx.Encrypt(key, mid, src);
    ctx.Decrypt(key, out, mid);
    InverseCipher(KeyColumns(key), BlockState(was));
    BlockStateBytes(out[..], was);
  }
}
