/**
  Block modes over scatterlists (kernel/linux/crypto/cipher.c).

  The block cipher is any length-keeping function on blocks.  A pointer is an array and an offset,
  so that the choice between working in the mapped page and in a scratch block, and the aliasing it
  brings, is explicit.
*/
module CipherModes {
  import opened ScatterWalk

  type BlockFn = seq<Byte> -> seq<Byte>

  datatype Mode = Ecb | CbcEncrypt | CbcDecrypt

  datatype Status = Done | BadBlockLen

  ghost predicate OnBlocks(f: BlockFn, bs: nat)
  {
    forall b :: |b| == bs ==> |f(b)| == bs
  }

  function Xor(a: seq<Byte>, b: seq<Byte>): (r: seq<Byte>)
    requires |a| == |b|
    ensures |r| == |a|
    ensures forall i :: 0 <= i < |r| ==> r[i] == a[i] ^ b[i]
  {
    seq(|a|, i requires 0 <= i < |a| => a[i] ^ b[i])
  }

  lemma XorCancels(a: seq<Byte>, b: seq<Byte>)
    requires |a| == |b|
    ensures Xor(Xor(a, b), b) == a && Xor(a, b) == Xor(b, a)
  {
  }

  /** What one block becomes under a mode with chaining value iv. */
  ghost function OutBlock(mode: Mode, f: BlockFn, iv: seq<Byte>, x: seq<Byte>): (r: seq<Byte>)
    requires |iv| == |x| && OnBlocks(f, |x|)
    ensures |r| == |x|
  {
    match mode
    case Ecb => f(x)
    case CbcEncrypt => f(Xor(iv, x))
    case CbcDecrypt => Xor(f(x), iv)
  }

  /** The chaining value after that block. */
  ghost function NextIv(mode: Mode, f: BlockFn, iv: seq<Byte>, x: seq<Byte>): (r: seq<Byte>)
    requires |iv| == |x| && OnBlocks(f, |x|)
    ensures |r| == |x|
  {
    match mode
    case Ecb => iv
    case CbcEncrypt => OutBlock(mode, f, iv, x)
    case CbcDecrypt => x
  }

  /** The whole blocks of a byte string. */
  ghost function Blocks(s: seq<Byte>, bs: nat): (r: seq<seq<Byte>>)
    requires bs > 0
    ensures forall j :: 0 <= j < |r| ==> |r[j]| == bs
    decreases |s|
  {
    if |s| < bs then [] else [s[..bs]] + Blocks(s[bs..], bs)
  }

  /** They are as many as there is room for, one after the other. */
  lemma {:induction false} BlocksAre(s: seq<Byte>, bs: nat, j: nat)
    requires bs > 0
    ensures |Blocks(s, bs)| == |s| / bs
    ensures j < |s| / bs ==> 0 <= j * bs <= j * bs + bs <= |s| && Blocks(s, bs)[j] == s[j * bs..j * bs + bs]
    decreases |s|
  {
    if |s| < bs {
      SmallQuotient(|s|, bs);
    } else {
      OneLess(|s|, bs);
      if 0 < j < |s| / bs {
        BlocksAre(s[bs..], bs, j - 1);
        assert (j - 1) * bs + bs == j * bs;
        assert s[bs..][(j - 1) * bs..(j - 1) * bs + bs] == s[j * bs..j * bs + bs];
      } else {
        BlocksAre(s[bs..], bs, 0);
      }
    }
  }

  lemma SmallQuotient(n: nat, bs: nat)
    requires n < bs
    ensures n / bs == 0
  {
  }

  lemma OneLess(n: nat, bs: nat)
    requires n >= bs > 0
    ensures (n - bs) / bs == n / bs - 1 && n / bs >= 1
  {
    var q, r := (n - bs) / bs, (n - bs) % bs;
    assert n == (q + 1) * bs + r;
    QuotientOf(n, bs, q + 1, r);
  }

  lemma QuotientOf(n: nat, bs: nat, q: nat, r: nat)
    requires bs > 0 && n == q * bs + r && r < bs
    ensures n / bs == q
  {
    Apart(n / bs, n % bs, q, r, bs);
  }

  lemma Apart(p: nat, s: nat, q: nat, r: nat, bs: nat)
    requires s < bs && r < bs && p * bs + s == q * bs + r
    ensures p == q
  {
    if p < q {
      Mono(p + 1, q, bs);
    } else if q < p {
      Mono(q + 1, p, bs);
    }
  }

  lemma {:induction false} Mono(a: nat, b: nat, c: nat)
    requires 0 < a <= b
    ensures a * c <= b * c && a * c == (a - 1) * c + c
  {
    assert (b - a) * c >= 0;
  }

  /** out and iv' are what processing the whole blocks of x from chaining value iv gives. */
  ghost predicate Chained(mode: Mode, f: BlockFn, bs: nat, iv: seq<Byte>, x: seq<Byte>,
                          out: seq<Byte>, iv': seq<Byte>)
    requires bs > 0 && |iv| == bs && OnBlocks(f, bs)
    decreases |x|
  {
    && |out| == |x| && |iv'| == bs
    && if |x| < bs then x == [] && iv' == iv
       else
         && out[..bs] == OutBlock(mode, f, iv, x[..bs])
         && Chained(mode, f, bs, NextIv(mode, f, iv, x[..bs]), x[bs..], out[bs..], iv')
  }

  lemma AppendSlices(a: seq<Byte>, b: seq<Byte>, n: nat)
    requires n <= |a|
    ensures (a + b)[..n] == a[..n] && (a + b)[n..] == a[n..] + b
  {
  }

  /** Chaining composes: a call that starts from the chaining value left by another continues it. */
  lemma {:induction false} ChainedAppend(mode: Mode, f: BlockFn, bs: nat, iv: seq<Byte>, x: seq<Byte>, out: seq<Byte>,
                       iv1: seq<Byte>, y: seq<Byte>, outY: seq<Byte>, iv2: seq<Byte>)
    requires bs > 0 && |iv| == bs && OnBlocks(f, bs)
    requires Chained(mode, f, bs, iv, x, out, iv1)
    requires Chained(mode, f, bs, iv1, y, outY, iv2)
    ensures Chained(mode, f, bs, iv, x + y, out + outY, iv2)
    decreases |x|
  {
    if |x| < bs {
      assert x + y == y && out + outY == outY;
    } else {
      hide OutBlock, NextIv, OnBlocks;
      var next := NextIv(mode, f, iv, x[..bs]);
      ChainedAppend(mode, f, bs, next, x[bs..], out[bs..], iv1, y, outY, iv2);
      AppendSlices(x, y, bs);
      AppendSlices(out, outY, bs);
    }
  }

  /** The result of chaining is unique, so one long call and two split calls agree byte for byte. */
  lemma {:induction false} ChainedUnique(mode: Mode, f: BlockFn, bs: nat, iv: seq<Byte>, x: seq<Byte>,
                       out1: seq<Byte>, iv1: seq<Byte>, out2: seq<Byte>, iv2: seq<Byte>)
    requires bs > 0 && |iv| == bs && OnBlocks(f, bs)
    requires Chained(mode, f, bs, iv, x, out1, iv1)
    requires Chained(mode, f, bs, iv, x, out2, iv2)
    ensures out1 == out2 && iv1 == iv2
    decreases |x|
  {
    if |x| >= bs {
      var next := NextIv(mode, f, iv, x[..bs]);
      ChainedUnique(mode, f, bs, next, x[bs..], out1[bs..], iv1, out2[bs..], iv2);
      assert out1 == out1[..bs] + out1[bs..];
      assert out2 == out2[..bs] + out2[bs..];
    }
  }

  /** C_(j-1), where C_0 of the standard is the IV; the blocks of c are C_1, C_2 and so on. */
  ghost function Prev(iv: seq<Byte>, c: seq<seq<Byte>>, j: nat): (r: seq<Byte>)
    requires j <= |c|
  {
    if j == 0 then iv else c[j - 1]
  }

  ghost predicate Multiple(n: nat, bs: nat)
    requires bs > 0
  {
    n == 0 || (n >= bs && Multiple(n - bs, bs))
  }

  lemma {:induction false} MultipleOf(q: nat, bs: nat)
    requires bs > 0
    ensures Multiple(q * bs, bs)
  {
    if q > 0 {
      MultipleOf(q - 1, bs);
      assert q * bs == (q - 1) * bs + bs;
    }
  }

  /** Byte strings made of whole blocks. */
  ghost predicate WholeBlocks(s: seq<Byte>, bs: nat)
    requires bs > 0
    decreases |s|
  {
    if |s| < bs then s == [] else WholeBlocks(s[bs..], bs)
  }

  /** Section 6.2 of NIST SP 800-38A: C_j = CIPH(P_j xor C_(j-1)), with C_0 the IV. */
  ghost predicate NistCbcEncryption(f: BlockFn, iv: seq<Byte>, p: seq<seq<Byte>>, c: seq<seq<Byte>>)
  {
    |c| == |p| && forall j :: 0 <= j < |p| ==> EncryptedAt(f, iv, p, c, j)
  }

  ghost predicate EncryptedAt(f: BlockFn, iv: seq<Byte>, p: seq<seq<Byte>>, c: seq<seq<Byte>>, j: nat)
  {
    j < |p| && j < |c| && |p[j]| == |Prev(iv, c, j)| && c[j] == f(Xor(p[j], Prev(iv, c, j)))
  }

  /** Section 6.2 of NIST SP 800-38A: P_j = CIPHINV(C_j) xor C_(j-1), with C_0 the IV. */
  ghost predicate NistCbcDecryption(f: BlockFn, iv: seq<Byte>, c: seq<seq<Byte>>, p: seq<seq<Byte>>)
  {
    |c| == |p| && forall j :: 0 <= j < |c| ==> DecryptedAt(f, iv, c, p, j)
  }

  ghost predicate DecryptedAt(f: BlockFn, iv: seq<Byte>, c: seq<seq<Byte>>, p: seq<seq<Byte>>, j: nat)
  {
    j < |p| && j < |c| && |f(c[j])| == |Prev(iv, c, j)| && p[j] == Xor(f(c[j]), Prev(iv, c, j))
  }

  lemma PrevCons(iv: seq<Byte>, c0: seq<Byte>, c: seq<seq<Byte>>, j: nat)
    requires 0 < j <= |c| + 1
    ensures Prev(iv, [c0] + c, j) == Prev(c0, c, j - 1)
  {
  }

  lemma NistEncryptionCons(f: BlockFn, iv: seq<Byte>, p0: seq<Byte>, p: seq<seq<Byte>>, c0: seq<Byte>,
                           c: seq<seq<Byte>>)
    requires |p0| == |iv| && c0 == f(Xor(p0, iv)) && NistCbcEncryption(f, c0, p, c)
    ensures NistCbcEncryption(f, iv, [p0] + p, [c0] + c)
  {
    hide Xor, Prev;
    var ps, cs := [p0] + p, [c0] + c;
    forall j | 0 <= j < |ps|
      ensures EncryptedAt(f, iv, ps, cs, j)
    {
      if j > 0 {
        PrevCons(iv, c0, c, j);
        assert EncryptedAt(f, c0, p, c, j - 1);
      } else {
        PrevFirst(iv, cs);
      }
    }
  }

  lemma PrevFirst(iv: seq<Byte>, c: seq<seq<Byte>>)
    ensures Prev(iv, c, 0) == iv
  {
  }

  lemma NistDecryptionCons(f: BlockFn, iv: seq<Byte>, c0: seq<Byte>, c: seq<seq<Byte>>, p0: seq<Byte>,
                           p: seq<seq<Byte>>)
    requires |f(c0)| == |iv| && p0 == Xor(f(c0), iv) && NistCbcDecryption(f, c0, c, p)
    ensures NistCbcDecryption(f, iv, [c0] + c, [p0] + p)
  {
    hide Xor, Prev;
    var ps, cs := [p0] + p, [c0] + c;
    forall j | 0 <= j < |cs|
      ensures DecryptedAt(f, iv, cs, ps, j)
    {
      if j > 0 {
        PrevCons(iv, c0, c, j);
        assert DecryptedAt(f, c0, c, p, j - 1);
      } else {
        PrevFirst(iv, cs);
      }
    }
  }

  /** The chaining the code performs is the CBC encryption of the standard, and leaves the last ciphertext block. */
  lemma {:induction false} ChainedIsNistEncryption(f: BlockFn, bs: nat, iv: seq<Byte>, p: seq<Byte>, c: seq<Byte>,
                                                   iv': seq<Byte>)
    requires bs > 0 && |iv| == bs && OnBlocks(f, bs)
    requires Chained(CbcEncrypt, f, bs, iv, p, c, iv')
    ensures WholeBlocks(p, bs) && WholeBlocks(c, bs)
    ensures NistCbcEncryption(f, iv, Blocks(p, bs), Blocks(c, bs))
    ensures iv' == if p == [] then iv else c[|c| - bs..]
    decreases |p|
  {
    if p != [] {
      ChainedIsNistEncryption(f, bs, c[..bs], p[bs..], c[bs..], iv');
      XorCancels(iv, p[..bs]);
      NistEncryptionCons(f, iv, p[..bs], Blocks(p[bs..], bs), c[..bs], Blocks(c[bs..], bs));
    }
  }

  /** The same for decryption. */
  lemma {:induction false} ChainedIsNistDecryption(f: BlockFn, bs: nat, iv: seq<Byte>, c: seq<Byte>, p: seq<Byte>,
                                                   iv': seq<Byte>)
    requires bs > 0 && |iv| == bs && OnBlocks(f, bs)
    requires Chained(CbcDecrypt, f, bs, iv, c, p, iv')
    ensures WholeBlocks(p, bs) && WholeBlocks(c, bs)
    ensures NistCbcDecryption(f, iv, Blocks(c, bs), Blocks(p, bs))
    ensures iv' == if c == [] then iv else c[|c| - bs..]
    decreases |c|
  {
    if c != [] {
      ChainedIsNistDecryption(f, bs, c[..bs], c[bs..], p[bs..], iv');
      NistDecryptionCons(f, iv, c[..bs], Blocks(c[bs..], bs), p[..bs], Blocks(p[bs..], bs));
    }
  }

  lemma {:induction false} BlocksInjective(p: seq<Byte>, q: seq<Byte>, bs: nat)
    requires bs > 0 && WholeBlocks(p, bs) && WholeBlocks(q, bs)
    requires Blocks(p, bs) == Blocks(q, bs)
    ensures p == q
    decreases |p|
  {
    if |p| >= bs {
      assert Blocks(p, bs)[0] == Blocks(q, bs)[0];
      assert Blocks(p, bs)[1..] == Blocks(q, bs)[1..];
      BlocksInjective(p[bs..], q[bs..], bs);
      assert p == p[..bs] + p[bs..] && q == q[..bs] + q[bs..];
    }
  }

  lemma {:induction false} WholeIfMultiple(s: seq<Byte>, bs: nat)
    requires bs > 0 && Multiple(|s|, bs)
    ensures WholeBlocks(s, bs)
    decreases |s|
  {
    if |s| >= bs {
      WholeIfMultiple(s[bs..], bs);
    }
  }

  lemma {:induction false} ModWhole(s: seq<Byte>, bs: nat)
    requires bs > 0 && |s| % bs == 0
    ensures WholeBlocks(s, bs)
  {
    var q := |s| / bs;
    assert |s| == q * bs + |s| % bs;
    MultipleOf(q, bs);
    WholeIfMultiple(s, bs);
  }

  /** CBC decryption with the inverse cipher undoes CBC encryption under the same IV. */
  lemma {:induction false} CbcRoundTrip(f: BlockFn, g: BlockFn, bs: nat, iv: seq<Byte>, p: seq<Byte>, c: seq<Byte>,
                                        q: seq<Byte>)
    requires bs > 0 && |iv| == bs && OnBlocks(f, bs) && OnBlocks(g, bs)
    requires forall b :: |b| == bs ==> g(f(b)) == b
    requires |p| == |q| && |p| % bs == 0
    requires NistCbcEncryption(f, iv, Blocks(p, bs), Blocks(c, bs))
    requires NistCbcDecryption(g, iv, Blocks(c, bs), Blocks(q, bs))
    ensures q == p
  {
    var ps, cs, qs := Blocks(p, bs), Blocks(c, bs), Blocks(q, bs);
    hide Xor, Blocks;
    forall j | 0 <= j < |ps|
      ensures qs[j] == ps[j]
    {
      assert EncryptedAt(f, iv, ps, cs, j) && DecryptedAt(g, iv, cs, qs, j);
      var x := Xor(ps[j], Prev(iv, cs, j));
      assert g(f(x)) == x;
      XorCancels(ps[j], Prev(iv, cs, j));
    }
    ModWhole(p, bs);
    ModWhole(q, bs);
    BlocksInjective(p, q, bs);
  }

  /** Write a block through a pointer. */
  method Store(dst: array<Byte>, d: nat, b: seq<Byte>)
    requires d + |b| <= dst.Length
    modifies dst
    ensures dst[..] == Put(old(dst[..]), d, b)
  {
    var k := 0;
    while k < |b|
      invariant 0 <= k <= |b|
      invariant forall i :: 0 <= i < k ==> dst[d + i] == b[i]
      invariant forall i :: 0 <= i < dst.Length && !(d <= i < d + k) ==> dst[i] == old(dst[i])
    {
      dst[d + k] := b[k];
      k := k + 1;
    }
    PutAll(old(dst[..]), dst[..], d, b);
  }

  /** xor_64 and xor_128: a ^= b over one block. */
  method XorInto(a: array<Byte>, ao: nat, b: array<Byte>, bo: nat, n: nat)
    requires a != b && ao + n <= a.Length && bo + n <= b.Length
    modifies a
    ensures a[..] == Put(old(a[..]), ao, Xor(old(a[ao..ao + n]), b[bo..bo + n]))
  {
    ghost var x := Xor(a[ao..ao + n], b[bo..bo + n]);
    var k := 0;
    while k < n
      invariant 0 <= k <= n
      invariant forall i :: 0 <= i < k ==> a[ao + i] == x[i]
      invariant forall i :: 0 <= i < a.Length && !(ao <= i < ao + k) ==> a[i] == old(a[i])
    {
      a[ao + k] := a[ao + k] ^ b[bo + k];
      k := k + 1;
    }
    PutAll(old(a[..]), a[..], ao, x);
  }

  lemma PutAll(s: seq<Byte>, t: seq<Byte>, o: nat, b: seq<Byte>)
    requires |s| == |t| && o + |b| <= |s|
    requires forall i :: 0 <= i < |b| ==> t[o + i] == b[i]
    requires forall i :: 0 <= i < |s| && !(o <= i < o + |b|) ==> t[i] == s[i]
    ensures t == Put(s, o, b)
  {
    forall i | 0 <= i < |s|
      ensures t[i] == Put(s, o, b)[i]
    {
      if o <= i < o + |b| {
        assert t[o + (i - o)] == b[i - o];
      }
    }
  }

  lemma PutWhole(s: seq<Byte>, b: seq<Byte>)
    requires |s| == |b|
    ensures Put(s, 0, b) == b
  {
  }

  lemma PutTwice(s: seq<Byte>, o: nat, b: seq<Byte>, c: seq<Byte>)
    requires o + |b| <= |s| && |b| == |c|
    ensures Put(Put(s, o, b), o, c) == Put(s, o, c)
  {
  }

  lemma PutElsewhere(s: seq<Byte>, o: nat, b: seq<Byte>, from: nat, n: nat)
    requires o + |b| <= |s| && from + n <= |s|
    requires from + n <= o || o + |b| <= from
    ensures Put(s, o, b)[from..from + n] == s[from..from + n]
  {
  }

  method EcbProcess(f: BlockFn, dst: array<Byte>, d: nat, src: array<Byte>, s: nat, bs: nat)
    requires OnBlocks(f, bs) && d + bs <= dst.Length && s + bs <= src.Length
    modifies dst
    ensures dst[..] == Put(old(dst[..]), d, f(old(src[s..s + bs])))
  {
    Store(dst, d, f(src[s..s + bs]));
  }

  method CbcProcessEncrypt(f: BlockFn, dst: array<Byte>, d: nat, src: array<Byte>, s: nat, iv: array<Byte>, bs: nat)
    requires iv.Length == bs && OnBlocks(f, bs)
    requires d + bs <= dst.Length && s + bs <= src.Length
    requires iv != dst && iv != src
    modifies dst, iv
    ensures dst[..] == Put(old(dst[..]), d, f(Xor(old(iv[..]), old(src[s..s + bs]))))
    ensures iv[..] == f(Xor(old(iv[..]), old(src[s..s + bs])))
  {
    ghost var x, iv0 := src[s..s + bs], iv[..];
    assert iv[0..bs] == iv0;
    hide Xor, Put;
    XorInto(iv, 0, src, s, bs);
    PutWhole(iv0, Xor(iv0, x));
    Store(dst, d, f(iv[..]));
    Memcpy(iv, 0, dst, d, bs);
    PutWhole(Xor(iv0, x), f(Xor(iv0, x)));
  }

  /** Decryption decrypts into a stack block when dst and src are the same pointer. */
  method CbcProcessDecrypt(f: BlockFn, dst: array<Byte>, d: nat, src: array<Byte>, s: nat,
                           iv: array<Byte>, bs: nat, inPlace: bool)
    requires iv.Length == bs && OnBlocks(f, bs)
    requires d + bs <= dst.Length && s + bs <= src.Length
    requires iv != dst && iv != src
    requires inPlace <==> dst == src && d == s
    requires dst == src && d != s ==> d + bs <= s || s + bs <= d
    modifies dst, iv
    ensures dst[..] == Put(old(dst[..]), d, Xor(f(old(src[s..s + bs])), old(iv[..])))
    ensures iv[..] == old(src[s..s + bs])
  {
    if inPlace {
      DecryptInPlace(f, dst, d, iv, bs);
    } else {
      DecryptApart(f, dst, d, src, s, iv, bs);
    }
  }

  method DecryptInPlace(f: BlockFn, dst: array<Byte>, d: nat, iv: array<Byte>, bs: nat)
    requires iv.Length == bs && OnBlocks(f, bs) && d + bs <= dst.Length && iv != dst
    modifies dst, iv
    ensures dst[..] == Put(old(dst[..]), d, Xor(f(old(dst[d..d + bs])), old(iv[..])))
    ensures iv[..] == old(dst[d..d + bs])
  {
    ghost var x, iv0 := dst[d..d + bs], iv[..];
    assert |f(x)| == bs;
    hide Put, Xor, OnBlocks;
    var stack := StackBlock(f(dst[d..d + bs]), iv);
    Memcpy(iv, 0, dst, d, bs);
    Store(dst, d, stack[..]);
    PutWhole(iv0, x);
  }

  /** The block on the stack: the deciphered text with the chaining value added. */
  method StackBlock(b: seq<Byte>, iv: array<Byte>) returns (stack: array<Byte>)
    requires |b| == iv.Length
    ensures fresh(stack) && stack[..] == Xor(b, iv[..])
  {
    hide Put, Xor;
    stack := new Byte[|b|];
    ghost var was := stack[..];
    assert iv[0..|b|] == iv[..];
    Store(stack, 0, b);
    PutWhole(was, b);
    assert stack[0..|b|] == b;
    XorInto(stack, 0, iv, 0, |b|);
    PutWhole(b, Xor(b, iv[..]));
  }

  method DecryptApart(f: BlockFn, dst: array<Byte>, d: nat, src: array<Byte>, s: nat, iv: array<Byte>, bs: nat)
    requires iv.Length == bs && OnBlocks(f, bs)
    requires d + bs <= dst.Length && s + bs <= src.Length && iv != dst && iv != src
    requires dst == src ==> d + bs <= s || s + bs <= d
    modifies dst, iv
    ensures dst[..] == Put(old(dst[..]), d, Xor(f(old(src[s..s + bs])), old(iv[..])))
    ensures iv[..] == old(src[s..s + bs])
  {
    ghost var x, iv0, dst0 := src[s..s + bs], iv[..], dst[..];
    assert iv[0..bs] == iv0 && |f(x)| == bs;
    hide Put, Xor, OnBlocks;
    DecryptTo(f, dst, d, src, s, iv, bs);
    ghost var out := Xor(f(x), iv0);
    if dst == src {
      PutElsewhere(dst0, d, out, s, bs);
    }
    assert src[s..s + bs] == x;
    Memcpy(iv, 0, src, s, bs);
    PutWhole(iv0, x);
  }

  method DecryptTo(f: BlockFn, dst: array<Byte>, d: nat, src: array<Byte>, s: nat, iv: array<Byte>, bs: nat)
    requires iv.Length == bs && OnBlocks(f, bs) && d + bs <= dst.Length && s + bs <= src.Length && iv != dst
    modifies dst
    ensures |f(old(src[s..s + bs]))| == bs && dst[..] == Put(old(dst[..]), d, Xor(f(old(src[s..s + bs])), iv[..]))
  {
    ghost var x, iv0, dst0 := src[s..s + bs], iv[..], dst[..];
    assert iv[0..bs] == iv0 && |f(x)| == bs;
    hide Put, Xor, OnBlocks;
    Store(dst, d, f(src[s..s + bs]));
    ghost var dst1 := dst[..];
    assert dst1[d..d + bs] == f(x);
    assert dst[d..d + bs] == dst1[d..d + bs];
    XorInto(dst, d, iv, 0, bs);
    PutTwice(dst0, d, f(x), Xor(f(x), iv0));
  }

  /**
    The process function of a mode.  dst and src are the same pointer exactly when inPlace is set,
    and otherwise do not overlap; the chaining value is kept in iv.
  */
  method Process(mode: Mode, f: BlockFn, dst: array<Byte>, d: nat, src: array<Byte>, s: nat,
                 iv: array<Byte>, bs: nat, inPlace: bool)
    requires bs > 0 && iv.Length == bs && OnBlocks(f, bs)
    requires d + bs <= dst.Length && s + bs <= src.Length
    requires iv != dst && iv != src
    requires inPlace <==> dst == src && d == s
    requires dst == src && d != s ==> d + bs <= s || s + bs <= d
    modifies dst, iv
    ensures dst[..] == Put(old(dst[..]), d, OutBlock(mode, f, old(iv[..]), old(src[s..s + bs])))
    ensures iv[..] == NextIv(mode, f, old(iv[..]), old(src[s..s + bs]))
  {
    hide Put, Xor;
    match mode {
      case Ecb => EcbProcess(f, dst, d, src, s, bs);
      case CbcEncrypt => CbcProcessEncrypt(f, dst, d, src, s, iv, bs);
      case CbcDecrypt => CbcProcessDecrypt(f, dst, d, src, s, iv, bs, inPlace);
    }
  }

  /** Source and destination may share a byte only where they are at the same position. */
  ghost predicate Aligned(src: seq<nat>, dst: seq<nat>)
  {
    forall i, j :: 0 <= i < |src| && 0 <= j < |dst| && src[i] == dst[j] ==> i == j
  }

  lemma FilledIsGather(now: seq<Byte>, before: seq<Byte>, mem: seq<Byte>, addrs: seq<nat>, n: nat)
    requires Filled(now, before, 0, mem, addrs, n)
    requires Within(addrs, |mem|)
    ensures now[0..n] == Gather(mem, addrs[..n])
  {
  }

  lemma PutIsSpread(mem: seq<Byte>, a: nat, o: seq<Byte>, addrs: seq<nat>)
    requires a + |o| <= |mem| && |o| <= |addrs| && addrs[..|o|] == Range(a, |o|)
    ensures Spread(Put(mem, a, o), mem, addrs, o, 0, |o|)
  {
    var n := |o|;
    forall i | 0 <= i < n
      ensures addrs[i] == a + i
    {
      assert addrs[..n][i] == Range(a, n)[i];
    }
    forall x | 0 <= x < |mem| && x !in addrs[..n]
      ensures Put(mem, a, o)[x] == mem[x]
    {
      RangeHas(a, n, x);
    }
  }

  lemma SpreadBlock(now: seq<Byte>, before: seq<Byte>, addrs: seq<nat>, buf: seq<Byte>, o: seq<Byte>)
    requires |o| <= |buf| && buf[0..|o|] == o && Spread(now, before, addrs, buf, 0, |o|)
    ensures Spread(now, before, addrs, o, 0, |o|)
  {
    assert forall i :: 0 <= i < |o| ==> buf[i] == buf[0..|o|][i];
  }

  /** When the whole block lies in the page, the mapped address is where its bytes are. */
  lemma DirectRange(w: Walk, size: nat, n: nat)
    requires w.Valid(size) && w.Mapped() && n <= w.lenThisPage
    ensures n <= |w.Rest()| && w.Rest()[..n] == Range(w.data, n) && w.data + n <= size
  {
  }

  lemma GatherRange(mem: seq<Byte>, a: nat, n: nat)
    requires a + n <= |mem|
    ensures Gather(mem, Range(a, n)) == mem[a..a + n]
  {
  }

  /** Two mapped walks inside their pages are at the same address exactly when page and offset agree. */
  lemma SameBuf(v: Walk, w: Walk, size: nat, n: nat)
    requires v.Valid(size) && v.Mapped() && w.Valid(size) && w.Mapped()
    requires 0 < n <= v.lenThisPage && n <= w.lenThisPage
    ensures v.data == w.data <==> v.page == w.page && v.offset == w.offset
  {
    assert v.offset < PAGE_SIZE && w.offset < PAGE_SIZE;
  }

  lemma ApartOrSame(a: nat, b: nat, n: nat)
    requires Aligned(Range(a, n), Range(b, n))
    ensures a == b || a + n <= b || b + n <= a
  {
    var ra, rb := Range(a, n), Range(b, n);
    assert a <= b < a + n ==> ra[b - a] == rb[0];
    assert b <= a < b + n ==> ra[0] == rb[a - b];
  }

  /** A pointer whichbuf may return: the mapped block itself, or the scratch block. */
  ghost predicate Pointer(w: Walk, mem: array<Byte>, buf: array<Byte>, o: nat, tmp: array<Byte>, bs: nat)
    reads w
  {
    if buf == mem then o == w.data && bs <= w.lenThisPage else buf == tmp && o == 0
  }

  /** The two scatterwalk_whichbuf calls and scatterwalk_samebuf. */
  method PickBuffers(mem: array<Byte>, walkIn: Walk, walkOut: Walk, tmpSrc: array<Byte>, tmpDst: array<Byte>, bs: nat)
    returns (src: array<Byte>, s: nat, dst: array<Byte>, d: nat, inPlace: bool)
    requires bs > 0 && mem != tmpSrc && mem != tmpDst && tmpSrc != tmpDst && tmpDst.Length == bs
    requires walkIn.Valid(mem.Length) && walkOut.Valid(mem.Length) && walkIn.Mapped() && walkOut.Mapped()
    requires bs <= |walkIn.Rest()| && bs <= |walkOut.Rest()|
    requires Aligned(walkIn.Rest()[..bs], walkOut.Rest()[..bs])
    ensures Pointer(walkIn, mem, src, s, tmpSrc, bs) && Pointer(walkOut, mem, dst, d, tmpDst, bs)
    ensures d + bs <= dst.Length
    ensures inPlace <==> dst == src && d == s
    ensures dst == src && d != s ==> d + bs <= s || s + bs <= d
  {
    src, s, dst, d := tmpSrc, 0, tmpDst, 0;
    if walkIn.Direct(bs) {
      src, s := mem, walkIn.data;
    }
    if walkOut.Direct(bs) {
      dst, d := mem, walkOut.data;
    }
    inPlace := walkIn.page == walkOut.page && walkIn.offset == walkOut.offset && src == mem && dst == mem;
    if src == mem && dst == mem {
      DirectRange(walkIn, mem.Length, bs);
      DirectRange(walkOut, mem.Length, bs);
      SameBuf(walkIn, walkOut, mem.Length, bs);
      ApartOrSame(walkIn.data, walkOut.data, bs);
    }
  }

  /** Bring the next input block to the chosen pointer. */
  method FetchBlock(mem: array<Byte>, walkIn: Walk, src: array<Byte>, s: nat, tmpSrc: array<Byte>, bs: nat)
    requires bs > 0 && tmpSrc.Length == bs && mem != tmpSrc
    requires walkIn.Valid(mem.Length) && walkIn.Mapped() && bs <= |walkIn.Rest()|
    requires Pointer(walkIn, mem, src, s, tmpSrc, bs)
    requires Within(walkIn.Rest(), mem.Length)
    modifies walkIn, tmpSrc
    ensures walkIn.Valid(mem.Length) && walkIn.Rest() == old(walkIn.Rest())[bs..]
    ensures s + bs <= src.Length && src[s..s + bs] == old(Gather(mem[..], walkIn.Rest()[..bs]))
  {
    ghost var ra, m0, tmp0 := walkIn.Rest(), mem[..], tmpSrc[..];
    if src == mem {
      DirectRange(walkIn, mem.Length, bs);
      GatherRange(m0, walkIn.data, bs);
    }
    hide Filled, Gather, Range;
    walkIn.CopyChunks(mem, src, s, bs, false);
    if src != mem {
      FilledIsGather(tmpSrc[..], tmp0, m0, ra, bs);
    }
  }

  /** Take the processed block o from the chosen pointer to its place in memory and finish with the output walk. */
  method StoreBlock(mem: array<Byte>, walkOut: Walk, dst: array<Byte>, d: nat, tmpDst: array<Byte>, bs: nat,
                    more: bool, ghost m0: seq<Byte>, ghost o: seq<Byte>)
    requires bs > 0 && tmpDst.Length == bs && mem != tmpDst && |o| == bs && mem.Length == |m0|
    requires walkOut.Valid(mem.Length) && walkOut.Mapped() && bs <= |walkOut.Rest()|
    requires more ==> bs < |walkOut.Rest()|
    requires Pointer(walkOut, mem, dst, d, tmpDst, bs) && Distinct(walkOut.Rest()[..bs])
    requires d + bs <= dst.Length
    requires if dst == mem then mem[..] == Put(m0, d, o) else mem[..] == m0 && tmpDst[0..bs] == o
    modifies walkOut, mem
    ensures walkOut.Valid(mem.Length) && walkOut.Rest() == old(walkOut.Rest())[bs..] && (more ==> walkOut.Ready())
    ensures Spread(mem[..], m0, old(walkOut.Rest()), o, 0, bs)
  {
    ghost var rb := walkOut.Rest();
    if dst == mem {
      DirectRange(walkOut, mem.Length, bs);
    }
    hide Spread, Put, Range, Distinct;
    walkOut.CopyChunks(mem, dst, d, bs, true);
    if dst == mem {
      PutIsSpread(m0, d, o, rb);
    } else {
      SpreadBlock(mem[..], m0, rb, tmpDst[..], o);
    }
    walkOut.Done(more, mem.Length);
  }

  /** Fetch a block, process it into dst and finish with the input walk. */
  method ProcessBlock(mode: Mode, f: BlockFn, mem: array<Byte>, walkIn: Walk, src: array<Byte>, s: nat,
                      dst: array<Byte>, d: nat, inPlace: bool, tmpSrc: array<Byte>, iv: array<Byte>, bs: nat,
                        more: bool)
    requires bs > 0 && iv.Length == tmpSrc.Length == bs && OnBlocks(f, bs)
    requires mem != iv && mem != tmpSrc && iv != tmpSrc && dst != tmpSrc && iv != dst && d + bs <= dst.Length
    requires walkIn.Valid(mem.Length) && walkIn.Mapped() && bs <= |walkIn.Rest()|
    requires more ==> bs < |walkIn.Rest()|
    requires Pointer(walkIn, mem, src, s, tmpSrc, bs)
    requires inPlace <==> dst == src && d == s
    requires dst == src && d != s ==> d + bs <= s || s + bs <= d
    requires Within(walkIn.Rest(), mem.Length)
    modifies walkIn, tmpSrc, dst, iv
    ensures walkIn.Valid(mem.Length) && walkIn.Rest() == old(walkIn.Rest())[bs..] && (more ==> walkIn.Ready())
    ensures dst[..] == Put(old(dst[..]), d, OutBlock(mode, f, old(iv[..]), old(Gather(mem[..], walkIn.Rest()[..bs]))))
    ensures iv[..] == NextIv(mode, f, old(iv[..]), old(Gather(mem[..], walkIn.Rest()[..bs])))
  {
    hide Put, OutBlock, NextIv, Gather, Range, Walk.Rest;
    FetchBlock(mem, walkIn, src, s, tmpSrc, bs);
    Process(mode, f, dst, d, src, s, iv, bs, inPlace);
    walkIn.Done(more, mem.Length);
  }

  /** One pass of the loop in crypt: one block from the input walk through prfn to the output walk. */
  method CryptBlock(mode: Mode, f: BlockFn, mem: array<Byte>, walkIn: Walk, walkOut: Walk,
                    tmpSrc: array<Byte>, tmpDst: array<Byte>, iv: array<Byte>, bs: nat, more: bool)
    requires bs > 0 && iv.Length == tmpSrc.Length == tmpDst.Length == bs && OnBlocks(f, bs)
    requires mem != iv && mem != tmpSrc && mem != tmpDst && iv != tmpSrc && iv != tmpDst && tmpSrc != tmpDst
    requires walkIn != walkOut && walkIn.Valid(mem.Length) && walkOut.Valid(mem.Length)
    requires bs <= |walkIn.Rest()| && bs <= |walkOut.Rest()|
    requires more ==> bs < |walkIn.Rest()| && bs < |walkOut.Rest()|
    requires Aligned(walkIn.Rest()[..bs], walkOut.Rest()[..bs]) && Distinct(walkOut.Rest()[..bs])
    requires Within(walkIn.Rest(), mem.Length)
    modifies mem, walkIn, walkOut, tmpSrc, tmpDst, iv
    ensures walkIn.Valid(mem.Length) && walkIn.Rest() == old(walkIn.Rest())[bs..] && (more ==> walkIn.Ready())
    ensures walkOut.Valid(mem.Length) && walkOut.Rest() == old(walkOut.Rest())[bs..] && (more ==> walkOut.Ready())
    ensures Spread(mem[..], old(mem[..]), old(walkOut.Rest()),
                   OutBlock(mode, f, old(iv[..]), old(Gather(mem[..], walkIn.Rest()[..bs]))), 0, bs)
    ensures iv[..] == NextIv(mode, f, old(iv[..]), old(Gather(mem[..], walkIn.Rest()[..bs])))
  {
    ghost var ra, rb, m0, iv0 := walkIn.Rest(), walkOut.Rest(), mem[..], iv[..];
    ghost var x := Gather(m0, ra[..bs]);
    hide Spread, Put, Aligned, Distinct, OutBlock, NextIv, Gather, Range, Walk.Rest, OnBlocks, Fits;
    walkIn.Map(mem.Length);
    walkOut.Map(mem.Length);
    var src, s, dst, d, inPlace := PickBuffers(mem, walkIn, walkOut, tmpSrc, tmpDst, bs);
    ProcessBlock(mode, f, mem, walkIn, src, s, dst, d, inPlace, tmpSrc, iv, bs, more);
    StoreBlock(mem, walkOut, dst, d, tmpDst, bs, more, m0, OutBlock(mode, f, iv0, x));
  }

  lemma SpreadAppend(m2: seq<Byte>, m1: seq<Byte>, m0: seq<Byte>, addrs: seq<nat>, out: seq<Byte>, o: seq<Byte>,
                     total: nat)
    requires |out| + |o| <= total <= |addrs| && Distinct(addrs[..total])
    requires Spread(m1, m0, addrs, out, 0, |out|)
    requires Spread(m2, m1, addrs[|out|..], o, 0, |o|)
    ensures Spread(m2, m0, addrs, out + o, 0, |out| + |o|)
  {
    var k, n := |out|, |o|;
    assert addrs[k..][..n] == addrs[..total][k..k + n];
    forall i | 0 <= i < k + n
      ensures addrs[i] < |m2| && m2[addrs[i]] == (out + o)[i]
    {
      if i >= k {
        assert addrs[i] == addrs[k..][i - k];
      } else {
        assert addrs[i] == addrs[..total][i];
        assert addrs[i] !in addrs[k..][..n];
      }
    }
    forall a | 0 <= a < |m2| && a !in addrs[..k + n]
      ensures m2[a] == m0[a]
    {
      assert addrs[..k + n] == addrs[..k] + addrs[k..][..n];
    }
  }

  /** Output written so far has not disturbed the input still to be read. */
  lemma InputStillThere(m1: seq<Byte>, m0: seq<Byte>, src: seq<nat>, dst: seq<nat>, out: seq<Byte>, bs: nat, total: nat)
    requires |out| + bs <= total <= |src| && total <= |dst|
    requires Aligned(src[..total], dst[..total]) && Spread(m1, m0, dst, out, 0, |out|)
    requires Within(src, |m0|)
    ensures Gather(m1, src[|out|..][..bs]) == Gather(m0, src[..total])[|out|..|out| + bs]
  {
    var k := |out|;
    forall i | 0 <= i < bs
      ensures m1[src[k..][..bs][i]] == m0[src[..total][k + i]]
    {
      assert src[k..][..bs][i] == src[..total][k + i];
      assert src[k + i] !in dst[..k] by {
        assert dst[..k] == dst[..total][..k];
      }
    }
  }

  lemma {:induction false} ChainedOne(mode: Mode, f: BlockFn, bs: nat, iv: seq<Byte>, x: seq<Byte>)
    requires bs > 0 && |iv| == bs == |x| && OnBlocks(f, bs)
    ensures Chained(mode, f, bs, iv, x, OutBlock(mode, f, iv, x), NextIv(mode, f, iv, x))
  {
    var o := OutBlock(mode, f, iv, x);
    assert x[..bs] == x && x[bs..] == [] && o[..bs] == o && o[bs..] == [];
  }

  /** The next block of p continues the chain. */
  lemma {:induction false} ChainedNext(mode: Mode, f: BlockFn, bs: nat, iv0: seq<Byte>, p: seq<Byte>, k: nat,
                                       out: seq<Byte>, iv1: seq<Byte>, x: seq<Byte>)
    requires bs > 0 && |iv0| == |iv1| == bs && OnBlocks(f, bs) && k + bs <= |p| && x == p[k..k + bs]
    requires Chained(mode, f, bs, iv0, p[..k], out, iv1)
    ensures Chained(mode, f, bs, iv0, p[..k + bs], out + OutBlock(mode, f, iv1, x), NextIv(mode, f, iv1, x))
  {
    hide Chained, NextIv, OutBlock, OnBlocks;
    ChainedOne(mode, f, bs, iv1, x);
    ChainedAppend(mode, f, bs, iv0, p[..k], out, iv1, x, OutBlock(mode, f, iv1, x), NextIv(mode, f, iv1, x));
    assert p[..k] + x == p[..k + bs];
  }

  lemma SliceAligned(src: seq<nat>, dst: seq<nat>, total: nat, k: nat, bs: nat)
    requires k + bs <= total <= |src| && total <= |dst|
    requires Aligned(src[..total], dst[..total]) && Distinct(dst[..total])
    ensures Aligned(src[k..][..bs], dst[k..][..bs]) && Distinct(dst[k..][..bs])
  {
    forall i, j | 0 <= i < bs && 0 <= j < bs && src[k..][..bs][i] == dst[k..][..bs][j]
      ensures i == j
    {
      assert src[..total][k + i] == dst[..total][k + j];
    }
    forall i, j | 0 <= i < j < bs
      ensures dst[k..][..bs][i] != dst[k..][..bs][j]
    {
      assert dst[..total][k + i] != dst[..total][k + j];
    }
  }

  /** The state of the loop in crypt after k bytes: what memory and the chaining value have become. */
  ghost predicate Progress(mode: Mode, f: BlockFn, bs: nat, m0: seq<Byte>, iv0: seq<Byte>, src: seq<nat>, dst: seq<nat>,
                           total: nat, k: nat, m: seq<Byte>, iv: seq<Byte>, out: seq<Byte>)
  {
    && bs > 0 && |iv0| == |iv| == bs && OnBlocks(f, bs)
    && total <= |src| && total <= |dst| && Within(src, |m0|) && |m| == |m0|
    && Aligned(src[..total], dst[..total]) && Distinct(dst[..total])
    && |out| == k <= total && Spread(m, m0, dst, out, 0, k)
    && Chained(mode, f, bs, iv0, Gather(m0, src[..total])[..k], out, iv)
  }

  /** Processing one more block makes one more block of progress. */
  lemma ProgressStep(mode: Mode, f: BlockFn, bs: nat, m0: seq<Byte>, iv0: seq<Byte>, src: seq<nat>, dst: seq<nat>,
                     total: nat, k: nat, m1: seq<Byte>, iv1: seq<Byte>, out: seq<Byte>, m2: seq<Byte>, iv2: seq<Byte>)
    requires Progress(mode, f, bs, m0, iv0, src, dst, total, k, m1, iv1, out) && k + bs <= total
    requires Within(src[k..][..bs], |m1|)
    requires Spread(m2, m1, dst[k..], OutBlock(mode, f, iv1, Gather(m1, src[k..][..bs])), 0, bs)
    requires iv2 == NextIv(mode, f, iv1, Gather(m1, src[k..][..bs]))
    ensures Progress(mode, f, bs, m0, iv0, src, dst, total, k + bs, m2, iv2,
                     out + OutBlock(mode, f, iv1, Gather(m1, src[k..][..bs])))
  {
    var p, x := Gather(m0, src[..total]), Gather(m1, src[k..][..bs]);
    var o := OutBlock(mode, f, iv1, x);
    hide Spread, Chained, Gather, NextIv, Aligned, Distinct, OutBlock, OnBlocks;
    InputStillThere(m1, m0, src, dst, out, bs, total);
    hide Within;
    SpreadAppend(m2, m1, m0, dst, out, o, total);
    ChainedNext(mode, f, bs, iv0, p, k, out, iv1, x);
  }

  /** What crypt is called on: lists inside memory, long enough, written bytes distinct, sharing only in step. */
  ghost predicate Callable(size: nat, dst: seq<Sg>, src: seq<Sg>, nbytes: nat)
  {
    && Fits(src, size) && Fits(dst, size)
    && nbytes <= |Addrs(src)| && nbytes <= |Addrs(dst)|
    && Aligned(Addrs(src)[..nbytes], Addrs(dst)[..nbytes]) && Distinct(Addrs(dst)[..nbytes])
  }

  /** The bytes a list names, read from memory. */
  ghost function Text(mem: seq<Byte>, list: seq<Sg>, nbytes: nat): (r: seq<Byte>)
    requires Fits(list, |mem|) && nbytes <= |Addrs(list)|
    ensures |r| == nbytes
  {
    AddrsInside(list, |mem|);
    Gather(mem, Addrs(list)[..nbytes])
  }

  /** The buffers of crypt and where the two walks stand after k bytes. */
  ghost predicate Walking(mem: array<Byte>, walkIn: Walk, walkOut: Walk, tmpSrc: array<Byte>, tmpDst: array<Byte>,
                          iv: array<Byte>, bs: nat, sa: seq<nat>, da: seq<nat>, k: nat)
    reads walkIn, walkOut
  {
    && iv.Length == tmpSrc.Length == tmpDst.Length == bs
    && mem != iv && mem != tmpSrc && mem != tmpDst && iv != tmpSrc && iv != tmpDst && tmpSrc != tmpDst
    && walkIn != walkOut && walkIn.Valid(mem.Length) && walkOut.Valid(mem.Length)
    && k <= |sa| && k <= |da| && walkIn.Rest() == sa[k..] && walkOut.Rest() == da[k..]
  }

  /** One block, as progress. */
  method CryptStep(mode: Mode, f: BlockFn, mem: array<Byte>, walkIn: Walk, walkOut: Walk,
                   tmpSrc: array<Byte>, tmpDst: array<Byte>, iv: array<Byte>, bs: nat, more: bool,
                   ghost total: nat, ghost k: nat, ghost sa: seq<nat>, ghost da: seq<nat>,
                   ghost m0: seq<Byte>, ghost iv0: seq<Byte>, ghost out: seq<Byte>)
    returns (ghost out': seq<Byte>)
    requires Walking(mem, walkIn, walkOut, tmpSrc, tmpDst, iv, bs, sa, da, k)
    requires k + bs <= total && (more ==> k + bs < total)
    requires Progress(mode, f, bs, m0, iv0, sa, da, total, k, mem[..], iv[..], out)
    modifies mem, walkIn, walkOut, tmpSrc, tmpDst, iv
    ensures Walking(mem, walkIn, walkOut, tmpSrc, tmpDst, iv, bs, sa, da, k + bs)
    ensures Progress(mode, f, bs, m0, iv0, sa, da, total, k + bs, mem[..], iv[..], out')
  {
    ghost var m1, iv1 := mem[..], iv[..];
    WithinSlice(sa, mem.Length, k, bs);
    hide Spread, Chained, Addrs, Walk.Rest, Gather, OutBlock, NextIv, Aligned, Distinct, Range, Put, OnBlocks;
    SliceAligned(sa, da, total, k, bs);
    DropDrop(sa, k, bs);
    DropDrop(da, k, bs);
    CryptBlock(mode, f, mem, walkIn, walkOut, tmpSrc, tmpDst, iv, bs, more);
    ProgressStep(mode, f, bs, m0, iv0, sa, da, total, k, m1, iv1, out, mem[..], iv[..]);
    out' := out + OutBlock(mode, f, iv1, Gather(m1, sa[k..][..bs]));
  }

  /** The for loop of crypt. */
  method CryptLoop(mode: Mode, f: BlockFn, mem: array<Byte>, walkIn: Walk, walkOut: Walk,
                   tmpSrc: array<Byte>, tmpDst: array<Byte>, nbytes: nat, iv: array<Byte>, bs: nat,
                   ghost sa: seq<nat>, ghost da: seq<nat>, ghost m0: seq<Byte>, ghost iv0: seq<Byte>)
    returns (ghost out: seq<Byte>)
    requires bs > 0 && Multiple(nbytes, bs)
    requires Walking(mem, walkIn, walkOut, tmpSrc, tmpDst, iv, bs, sa, da, 0)
    requires Progress(mode, f, bs, m0, iv0, sa, da, nbytes, 0, mem[..], iv[..], [])
    modifies mem, walkIn, walkOut, tmpSrc, tmpDst, iv
    ensures Progress(mode, f, bs, m0, iv0, sa, da, nbytes, nbytes, mem[..], iv[..], out)
  {
    var left := nbytes;
    out := [];
    hide Progress, Walking;
    while left != 0
      invariant 0 <= left <= nbytes && Multiple(left, bs)
      invariant Walking(mem, walkIn, walkOut, tmpSrc, tmpDst, iv, bs, sa, da, nbytes - left)
      invariant Progress(mode, f, bs, m0, iv0, sa, da, nbytes, nbytes - left, mem[..], iv[..], out)
      decreases left
    {
      left := left - bs;
      out := CryptStep(mode, f, mem, walkIn, walkOut, tmpSrc, tmpDst, iv, bs, left != 0,
                       nbytes, nbytes - left - bs, sa, da, m0, iv0, out);
    }
  }

  /** crypt once the length has been checked: start both walks, then the loop. */
  method CryptAll(mode: Mode, f: BlockFn, mem: array<Byte>, dst: seq<Sg>, src: seq<Sg>, nbytes: nat,
                  iv: array<Byte>, bs: nat)
    requires bs > 0 && iv.Length == bs && OnBlocks(f, bs) && mem != iv
    requires nbytes > 0 && Multiple(nbytes, bs) && Callable(mem.Length, dst, src, nbytes)
    modifies mem, iv
    ensures Chained(mode, f, bs, old(iv[..]), old(Text(mem[..], src, nbytes)), Text(mem[..], dst, nbytes), iv[..])
    ensures Untouched(mem[..], old(mem[..]), dst, nbytes)
  {
    ghost var sa, da, m0, iv0 := Addrs(src), Addrs(dst), mem[..], iv[..];
    AddrsInside(src, mem.Length);
    ProgressStart(mode, f, bs, m0, iv0, sa, da, nbytes);
    hide Progress, Chained, Text, Aligned, Distinct, Untouched, Fits;
    var tmpSrc, tmpDst := new Byte[bs], new Byte[bs];
    var walkIn := new Walk(src, mem.Length);
    var walkOut := new Walk(dst, mem.Length);
    assert sa[0..] == sa && da[0..] == da;
    ghost var out := CryptLoop(mode, f, mem, walkIn, walkOut, tmpSrc, tmpDst, nbytes, iv, bs, sa, da, m0, iv0);
    ProgressDone(mode, f, bs, m0, iv0, src, dst, nbytes, mem[..], iv[..], out);
  }

  /** Memory outside the first n bytes of the list is what it was. */
  ghost predicate Untouched(now: seq<Byte>, before: seq<Byte>, list: seq<Sg>, n: nat)
    requires |now| == |before| && n <= |Addrs(list)|
  {
    forall a :: 0 <= a < |now| && a !in Addrs(list)[..n] ==> now[a] == before[a]
  }

  lemma {:induction false} UntouchedIs(now: seq<Byte>, before: seq<Byte>, list: seq<Sg>, n: nat, a: nat)
    requires |now| == |before| && n <= |Addrs(list)| && Untouched(now, before, list, n)
    requires a < |now| && a !in Addrs(list)[..n]
    ensures now[a] == before[a]
  {
  }

  /** crypt: every whole block of src, in order, through prfn to dst. */
  method Crypt(mode: Mode, f: BlockFn, mem: array<Byte>, dst: seq<Sg>, src: seq<Sg>, nbytes: nat,
               iv: array<Byte>, bs: nat)
    returns (status: Status)
    requires bs > 0 && iv.Length == bs && OnBlocks(f, bs) && mem != iv
    requires Callable(mem.Length, dst, src, nbytes)
    modifies mem, iv
    ensures status == BadBlockLen <==> nbytes % bs != 0
    ensures status == BadBlockLen ==> mem[..] == old(mem[..]) && iv[..] == old(iv[..])
    ensures status == Done ==>
      Chained(mode, f, bs, old(iv[..]), old(Text(mem[..], src, nbytes)), Text(mem[..], dst, nbytes), iv[..])
    ensures Untouched(mem[..], old(mem[..]), dst, nbytes)
  {
    if nbytes == 0 {
      assert Text(mem[..], src, 0) == [] && Text(mem[..], dst, 0) == [];
      return Done;
    }
    if nbytes % bs != 0 {
      return BadBlockLen;
    }
    MultipleOf(nbytes / bs, bs);
    CryptAll(mode, f, mem, dst, src, nbytes, iv, bs);
    return Done;
  }

  lemma ProgressStart(mode: Mode, f: BlockFn, bs: nat, m0: seq<Byte>, iv0: seq<Byte>, src: seq<nat>, dst: seq<nat>,
                      total: nat)
    requires bs > 0 && |iv0| == bs && OnBlocks(f, bs)
    requires total <= |src| && total <= |dst| && Within(src, |m0|)
    requires Aligned(src[..total], dst[..total]) && Distinct(dst[..total])
    ensures Progress(mode, f, bs, m0, iv0, src, dst, total, 0, m0, iv0, [])
  {
  }

  lemma {:induction false} ProgressDone(mode: Mode, f: BlockFn, bs: nat, m0: seq<Byte>, iv0: seq<Byte>, src: seq<Sg>,
                                        dst: seq<Sg>,
                     total: nat, m: seq<Byte>, iv: seq<Byte>, out: seq<Byte>)
    requires |m| == |m0| && Callable(|m0|, dst, src, total)
    requires Progress(mode, f, bs, m0, iv0, Addrs(src), Addrs(dst), total, total, m, iv, out)
    ensures bs > 0 && |iv0| == bs && OnBlocks(f, bs)
    ensures Chained(mode, f, bs, iv0, Text(m0, src, total), Text(m, dst, total), iv)
    ensures Untouched(m, m0, dst, total)
  {
    var p := Text(m0, src, total);
    assert p[..total] == p;
    assert out == Text(m, dst, total);
  }

  /** Calls in place on one list, and calls between lists that share no byte, are callable. */
  lemma {:induction false} InPlaceOrDisjoint(size: nat, dst: seq<Sg>, src: seq<Sg>, nbytes: nat)
    requires Fits(src, size) && Fits(dst, size) && nbytes <= |Addrs(src)| && nbytes <= |Addrs(dst)|
    requires Distinct(Addrs(dst)[..nbytes])
    requires dst == src || forall i, j :: 0 <= i < nbytes && 0 <= j < nbytes ==>
      Addrs(src)[..nbytes][i] != Addrs(dst)[..nbytes][j]
    ensures Callable(size, dst, src, nbytes)
  {
    var sa, da := Addrs(src)[..nbytes], Addrs(dst)[..nbytes];
    forall i, j | 0 <= i < |sa| && 0 <= j < |da| && sa[i] == da[j]
      ensures i == j
    {
    }
  }

  /** The chaining value left by a call makes two calls one: same bytes, same final chaining value. */
  lemma {:induction false} SplitCallsAgree(mode: Mode, f: BlockFn, bs: nat, iv: seq<Byte>, x: seq<Byte>,
                                           outX: seq<Byte>, iv1: seq<Byte>,
                        y: seq<Byte>, outY: seq<Byte>, iv2: seq<Byte>, out: seq<Byte>, iv': seq<Byte>)
    requires bs > 0 && |iv| == bs && OnBlocks(f, bs)
    requires Chained(mode, f, bs, iv, x, outX, iv1) && Chained(mode, f, bs, iv1, y, outY, iv2)
    requires Chained(mode, f, bs, iv, x + y, out, iv')
    ensures out == outX + outY && iv' == iv2
  {
    ChainedAppend(mode, f, bs, iv, x, outX, iv1, y, outY, iv2);
    ChainedUnique(mode, f, bs, iv, x + y, out, iv', outX + outY, iv2);
  }

  /** Section 6.1 of NIST SP 800-38A: without chaining every block is processed alone, and the iv is not used. */
  lemma {:induction false} ChainedIsNistEcb(f: BlockFn, bs: nat, iv: seq<Byte>, p: seq<Byte>, c: seq<Byte>,
                                            iv': seq<Byte>)
    requires bs > 0 && |iv| == bs && OnBlocks(f, bs)
    requires Chained(Ecb, f, bs, iv, p, c, iv')
    ensures iv' == iv && |Blocks(c, bs)| == |Blocks(p, bs)|
    ensures forall j :: 0 <= j < |Blocks(p, bs)| ==> Blocks(c, bs)[j] == f(Blocks(p, bs)[j])
    decreases |p|
  {
    if p != [] {
      ChainedIsNistEcb(f, bs, iv, p[bs..], c[bs..], iv');
      forall j | 0 <= j < |Blocks(p, bs)|
        ensures Blocks(c, bs)[j] == f(Blocks(p, bs)[j])
      {
        if j > 0 {
          assert Blocks(c, bs)[j] == Blocks(c[bs..], bs)[j - 1] && Blocks(p, bs)[j] == Blocks(p[bs..], bs)[j - 1];
        }
      }
    }
  }

  /** ecb_encrypt, and ecb_decrypt with the decryption function: block j becomes f of block j. */
  method EcbCrypt(f: BlockFn, mem: array<Byte>, dst: seq<Sg>, src: seq<Sg>, nbytes: nat, iv: array<Byte>, bs: nat)
    returns (status: Status)
    requires bs > 0 && iv.Length == bs && OnBlocks(f, bs) && mem != iv
    requires Callable(mem.Length, dst, src, nbytes)
    modifies mem, iv
    ensures status == BadBlockLen <==> nbytes % bs != 0
    ensures status == BadBlockLen ==> mem[..] == old(mem[..])
    ensures status == Done ==>
      var p, c := Blocks(old(Text(mem[..], src, nbytes)), bs), Blocks(Text(mem[..], dst, nbytes), bs);
      |c| == |p| && forall j :: 0 <= j < |p| ==> c[j] == f(p[j])
    ensures iv[..] == old(iv[..])
    ensures Untouched(mem[..], old(mem[..]), dst, nbytes)
  {
    ghost var p, iv0 := Text(mem[..], src, nbytes), iv[..];
    hide Text, Chained, Blocks, Untouched, OnBlocks, Aligned, Distinct, Addrs;
    status := Crypt(Ecb, f, mem, dst, src, nbytes, iv, bs);
    if status == Done {
      ChainedIsNistEcb(f, bs, iv0, p, Text(mem[..], dst, nbytes), iv[..]);
    }
  }

  /** Every block goes through f alone. */
  ghost predicate EachBlock(f: BlockFn, p: seq<seq<Byte>>, c: seq<seq<Byte>>)
  {
    |c| == |p| && forall j :: 0 <= j < |p| ==> c[j] == f(p[j])
  }

  /** The blocks of two texts of whole blocks, one after the other, are those of both: split calls are one call. */
  lemma {:induction false} EcbSplitCalls(f: BlockFn, bs: nat, x: seq<Byte>, outX: seq<Byte>, y: seq<Byte>,
                                         outY: seq<Byte>,
                                         out: seq<Byte>)
    requires bs > 0 && |x| % bs == 0 && |y| % bs == 0 && |outX| == |x| && |outY| == |y| && |out| == |x| + |y|
    requires EachBlock(f, Blocks(x, bs), Blocks(outX, bs)) && EachBlock(f, Blocks(y, bs), Blocks(outY, bs))
    requires EachBlock(f, Blocks(x + y, bs), Blocks(out, bs))
    ensures out == outX + outY
  {
    hide Blocks;
    BlocksAppend(x, y, bs);
    BlocksAppend(outX, outY, bs);
    SumWhole(|x|, |y|, bs);
    assert Blocks(out, bs) == Blocks(outX + outY, bs);
    SameBlocks(out, outX + outY, bs);
  }

  lemma SumWhole(m: nat, n: nat, bs: nat)
    requires bs > 0 && m % bs == 0 && n % bs == 0
    ensures (m + n) / bs == m / bs + n / bs && (m + n) % bs == 0
  {
    var q, r := m / bs, n / bs;
    assert m == q * bs && n == r * bs;
    assert m + n == (q + r) * bs + 0;
    QuotientOf(m + n, bs, q + r, 0);
    assert (m + n) % bs == (m + n) - (q + r) * bs;
  }

  lemma {:induction false} BlocksAppend(x: seq<Byte>, y: seq<Byte>, bs: nat)
    requires bs > 0 && |x| % bs == 0
    ensures Blocks(x + y, bs) == Blocks(x, bs) + Blocks(y, bs)
    decreases |x|
  {
    if |x| < bs {
      assert x == [] && x + y == y;
    } else {
      LessWhole(|x|, bs);
      BlocksAppend(x[bs..], y, bs);
      AppendSlices(x, y, bs);
    }
  }

  lemma LessWhole(n: nat, bs: nat)
    requires bs > 0 && n % bs == 0 && n >= bs
    ensures (n - bs) % bs == 0
  {
    OneLess(n, bs);
    assert n == n / bs * bs;
    assert n - bs == (n / bs - 1) * bs;
  }

  /** A text of whole blocks is given by its blocks. */
  lemma {:induction false} SameBlocks(a: seq<Byte>, b: seq<Byte>, bs: nat)
    requires bs > 0 && |a| == |b| && |a| % bs == 0 && Blocks(a, bs) == Blocks(b, bs)
    ensures a == b
    decreases |a|
  {
    if |a| >= bs {
      LessWhole(|a|, bs);
      assert Blocks(a, bs)[0] == a[..bs] && Blocks(b, bs)[0] == b[..bs];
      assert Blocks(a[bs..], bs) == Blocks(a, bs)[1..] && Blocks(b[bs..], bs) == Blocks(b, bs)[1..];
      SameBlocks(a[bs..], b[bs..], bs);
      assert a == a[..bs] + a[bs..] && b == b[..bs] + b[bs..];
    }
  }

  /** Decrypting with an inverse block function gives back every text of whole blocks. */
  lemma {:induction false} EcbRoundTrip(f: BlockFn, g: BlockFn, bs: nat, p: seq<Byte>, c: seq<Byte>, q: seq<Byte>)
    requires bs > 0 && |p| % bs == 0 && |c| == |q| == |p| && forall b :: |b| == bs ==> g(f(b)) == b
    requires EachBlock(f, Blocks(p, bs), Blocks(c, bs)) && EachBlock(g, Blocks(c, bs), Blocks(q, bs))
    ensures q == p
  {
    hide Blocks, EachBlock;
    BlocksBack(f, g, bs, Blocks(p, bs), Blocks(c, bs), Blocks(q, bs));
    SameBlocks(q, p, bs);
  }

  lemma BlocksBack(f: BlockFn, g: BlockFn, bs: nat, p: seq<seq<Byte>>, c: seq<seq<Byte>>, q: seq<seq<Byte>>)
    requires (forall j :: 0 <= j < |p| ==> |p[j]| == bs) && forall b :: |b| == bs ==> g(f(b)) == b
    requires EachBlock(f, p, c) && EachBlock(g, c, q)
    ensures q == p
  {
    forall j | 0 <= j < |p|
      ensures q[j] == p[j]
    {
      assert g(f(p[j])) == p[j];
    }
  }

  /** The equations of section 6.2 written out, block by block. */
  lemma CbcEquations(f: BlockFn, iv: seq<Byte>, p: seq<seq<Byte>>, c: seq<seq<Byte>>, j: nat)
    requires NistCbcEncryption(f, iv, p, c) && j < |p|
    ensures |c| == |p| && |p[j]| == |if j == 0 then iv else c[j - 1]|
    ensures c[j] == f(Xor(p[j], if j == 0 then iv else c[j - 1]))
  {
    assert EncryptedAt(f, iv, p, c, j);
  }

  lemma CbcInverseEquations(f: BlockFn, iv: seq<Byte>, c: seq<seq<Byte>>, p: seq<seq<Byte>>, j: nat)
    requires NistCbcDecryption(f, iv, c, p) && j < |c|
    ensures |c| == |p| && |f(c[j])| == |if j == 0 then iv else c[j - 1]|
    ensures p[j] == Xor(f(c[j]), if j == 0 then iv else c[j - 1])
  {
    assert DecryptedAt(f, iv, c, p, j);
  }

  /** cbc_encrypt_iv, and cbc_encrypt with the iv of the transform. */
  method CbcEncryptIv(encrypt: BlockFn, mem: array<Byte>, dst: seq<Sg>, src: seq<Sg>, nbytes: nat, iv: array<Byte>,
                      bs: nat)
    returns (status: Status)
    requires bs > 0 && iv.Length == bs && OnBlocks(encrypt, bs) && mem != iv
    requires Callable(mem.Length, dst, src, nbytes)
    modifies mem, iv
    ensures status == BadBlockLen <==> nbytes % bs != 0
    ensures status == BadBlockLen ==> mem[..] == old(mem[..]) && iv[..] == old(iv[..])
    ensures status == Done ==> NistCbcEncryption(encrypt, old(iv[..]),
              Blocks(old(Text(mem[..], src, nbytes)), bs), Blocks(Text(mem[..], dst, nbytes), bs))
    ensures status == Done && nbytes > 0 ==> iv[..] == Text(mem[..], dst, nbytes)[nbytes - bs..]
    ensures Untouched(mem[..], old(mem[..]), dst, nbytes)
  {
    ghost var p, iv0 := Text(mem[..], src, nbytes), iv[..];
    hide Text, Chained, Blocks, NistCbcEncryption, Untouched, OnBlocks, Aligned, Distinct, Addrs;
    status := Crypt(CbcEncrypt, encrypt, mem, dst, src, nbytes, iv, bs);
    if status == Done {
      ChainedIsNistEncryption(encrypt, bs, iv0, p, Text(mem[..], dst, nbytes), iv[..]);
    }
  }

  /** cbc_decrypt_iv, and cbc_decrypt with the iv of the transform. */
  method CbcDecryptIv(decrypt: BlockFn, mem: array<Byte>, dst: seq<Sg>, src: seq<Sg>, nbytes: nat, iv: array<Byte>,
                      bs: nat)
    returns (status: Status)
    requires bs > 0 && iv.Length == bs && OnBlocks(decrypt, bs) && mem != iv
    requires Callable(mem.Length, dst, src, nbytes)
    modifies mem, iv
    ensures status == BadBlockLen <==> nbytes % bs != 0
    ensures status == BadBlockLen ==> mem[..] == old(mem[..]) && iv[..] == old(iv[..])
    ensures status == Done ==> NistCbcDecryption(decrypt, old(iv[..]),
              Blocks(old(Text(mem[..], src, nbytes)), bs), Blocks(Text(mem[..], dst, nbytes), bs))
    ensures status == Done && nbytes > 0 ==> iv[..] == old(Text(mem[..], src, nbytes))[nbytes - bs..]
    ensures Untouched(mem[..], old(mem[..]), dst, nbytes)
  {
    ghost var c, iv0 := Text(mem[..], src, nbytes), iv[..];
    hide Text, Chained, Blocks, NistCbcDecryption, Untouched, OnBlocks, Aligned, Distinct, Addrs;
    status := Crypt(CbcDecrypt, decrypt, mem, dst, src, nbytes, iv, bs);
    if status == Done {
      ChainedIsNistDecryption(decrypt, bs, iv0, c, Text(mem[..], dst, nbytes), iv[..]);
    }
  }
}
