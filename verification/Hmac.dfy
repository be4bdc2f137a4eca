/**
  hmac.c and digest.c: digests over scatterlists and the keyed hash of RFC 2104 built on them. The
  digest algorithm is any whose context absorbs bytes and ends in a function of all of them; MD5 is
  shown to be one.
*/
module Hmac {
  import opened ScatterWalk
  import Merkle
  import Md5

  const IPAD: Byte := 0x36
  const OPAD: Byte := 0x5c

  // ---- section 2 of RFC 2104

  function XorEach(s: seq<Byte>, x: Byte): seq<Byte>
  {
    seq(|s|, i requires 0 <= i < |s| => s[i] ^ x)
  }

  /** The key, hashed if it is longer than a block, and zeroes up to a block. */
  function BlockKey(h: seq<Byte> -> seq<Byte>, size: nat, key: seq<Byte>): seq<Byte>
  {
    var k := if |key| > size then h(key) else key;
    k + if |k| < size then seq(size - |k|, i => 0) else []
  }

  function Rfc2104(h: seq<Byte> -> seq<Byte>, size: nat, key: seq<Byte>, text: seq<Byte>): seq<Byte>
  {
    var k := BlockKey(h, size, key);
    h(XorEach(k, OPAD) + h(XorEach(k, IPAD) + text))
  }

  /**
    Section 2 of RFC 2104 in full: with k the key, or its hash if it is longer than a block, filled up
    with zeroes, the code is the hash of k xor 0x5c in every byte followed by the hash of k xor 0x36 in
    every byte followed by the text.
  */
  lemma Rfc2104Is(h: seq<Byte> -> seq<Byte>, size: nat, key: seq<Byte>, text: seq<Byte>,
                  k: seq<Byte>, inner: seq<Byte>, outer: seq<Byte>)
    requires |k| == |inner| == |outer| == size && |h(key)| <= size
    requires if |key| > size then h(key) <= k else key <= k
    requires forall i :: (if |key| > size then |h(key)| else |key|) <= i < size ==> k[i] == 0
    requires forall i :: 0 <= i < size ==> inner[i] == k[i] ^ 0x36 && outer[i] == k[i] ^ 0x5c
    ensures Rfc2104(h, size, key, text) == h(outer + h(inner + text))
  {
    assert BlockKey(h, size, key) == k;
    assert inner == XorEach(k, IPAD) && outer == XorEach(k, OPAD);
  }

  // ---- the transform

  class Tfm {
    const hash: seq<Byte> -> seq<Byte>
    const blockSize: nat
    const digestSize: nat
    const hmacBlock: array<Byte>
    var absorbed: seq<Byte>

    ghost predicate Valid()
    {
      && digestSize <= blockSize == hmacBlock.Length
      && forall s: seq<Byte> :: |hash(s)| == digestSize
    }

    constructor (h: seq<Byte> -> seq<Byte>, block: nat, digest: nat)
      requires digest <= block && forall s: seq<Byte> :: |h(s)| == digest
      ensures Valid() && hash == h && blockSize == block && digestSize == digest && fresh(hmacBlock)
    {
      hash, blockSize, digestSize := h, block, digest;
      hmacBlock := new Byte[block];
      absorbed := [];
    }

    /** The algorithm's own entries: start, absorb, finish. */
    method Init()
      modifies `absorbed
      ensures absorbed == []
    {
      absorbed := [];
    }

    method Absorb(p: seq<Byte>)
      modifies `absorbed
      ensures absorbed == old(absorbed) + p
    {
      absorbed := absorbed + p;
    }

    method Final(out: array<Byte>)
      requires Valid() && digestSize <= out.Length
      modifies out
      ensures out[..digestSize] == hash(absorbed) && out[digestSize..] == old(out[digestSize..])
    {
      var d := hash(absorbed);
      for i := 0 to digestSize
        invariant forall j :: 0 <= j < i ==> out[j] == d[j]
        invariant forall j :: digestSize <= j < out.Length ==> out[j] == old(out[j])
      {
        out[i] := d[i];
      }
    }

    /** One segment of update, page by page. */
    method UpdateSegment(mem: array<Byte>, s: Sg)
      requires s.offset < PAGE_SIZE && s.page * PAGE_SIZE + s.offset + s.length <= mem.Length
      modifies `absorbed
      ensures absorbed == old(absorbed) + Piece(mem[..], s)
    {
      var pg, offset, l := s.page, s.offset, s.length;
      ghost var first := s.page * PAGE_SIZE + s.offset;
      var again := true;
      while again
        invariant 0 <= pg && 0 <= l <= s.length && 0 <= offset < PAGE_SIZE &&
          (l > 0 ==> pg * PAGE_SIZE + offset == first + (s.length - l))
        invariant again ==> pg * PAGE_SIZE + offset + l <= mem.Length
        invariant absorbed == old(absorbed) + mem[first..first + (s.length - l)]
        invariant !again ==> l == 0
        decreases if again then l + 1 else 0
      {
        var bytes := if l < PAGE_SIZE - offset then l else PAGE_SIZE - offset;
        var p := pg * PAGE_SIZE + offset;
        ghost var done := first + (s.length - l);
        assert mem[first..done + bytes] == mem[first..done] + mem[done..done + bytes];
        Absorb(mem[p..p + bytes]);
        offset, pg, l := 0, pg + 1, l - bytes;
        again := l > 0;
      }
      assert mem[..][first..first + s.length] == mem[first..first + s.length];
    }

    /** One segment of digest, in one piece. */
    method TakeSegment(mem: array<Byte>, s: Sg)
      requires s.page * PAGE_SIZE + s.offset + s.length <= mem.Length
      modifies `absorbed
      ensures absorbed == old(absorbed) + Piece(mem[..], s)
    {
      var p := s.page * PAGE_SIZE + s.offset;
      assert mem[..][p..p + s.length] == mem[p..p + s.length];
      Absorb(mem[p..p + s.length]);
    }

    /** update: the bytes of the segments in order. */
    method Update(mem: array<Byte>, sg: seq<Sg>)
      requires Fits(sg, mem.Length)
      modifies `absorbed
      ensures Within(Addrs(sg), mem.Length) && absorbed == old(absorbed) + Gather(mem[..], Addrs(sg))
    {
      hide Addrs, Gather, Within, Bytes, Piece;
      ghost var text, before := mem[..], absorbed;
      assert sg[0..] == sg;
      for i := 0 to |sg|
        invariant mem[..] == text && absorbed + Bytes(text, sg[i..]) == before + Bytes(text, sg)
      {
        NextSegment(text, sg, i);
        Regroup(absorbed, Piece(text, sg[i]), Bytes(text, sg[i + 1..]));
        UpdateSegment(mem, sg[i]);
      }
      NoSegments(text, sg[|sg|..], absorbed);
      BytesAre(text, sg);
    }

    /** digest: every segment is taken in one piece, the pages of a segment being next to each other. */
    method Digest(mem: array<Byte>, sg: seq<Sg>, out: array<Byte>)
      requires Valid() && Fits(sg, mem.Length) && digestSize <= out.Length
      modifies this, out
      ensures Within(Addrs(sg), mem.Length) && out[..digestSize] == hash(Gather(old(mem[..]), Addrs(sg)))
      ensures absorbed == Gather(old(mem[..]), Addrs(sg))
    {
      hide Addrs, Gather, Within, Bytes, Piece;
      Init();
      Chunks(mem, sg);
      BytesAre(mem[..], sg);
      Final(out);
    }

    method Chunks(mem: array<Byte>, sg: seq<Sg>)
      requires Fits(sg, mem.Length) && absorbed == []
      modifies `absorbed
      ensures absorbed == Bytes(mem[..], sg)
    {
      hide Bytes, Piece;
      ghost var text := mem[..];
      assert sg[0..] == sg;
      Nothing(Bytes(text, sg));
      for i := 0 to |sg|
        invariant mem[..] == text && absorbed + Bytes(text, sg[i..]) == Bytes(text, sg)
      {
        NextSegment(text, sg, i);
        Regroup(absorbed, Piece(text, sg[i]), Bytes(text, sg[i + 1..]));
        TakeSegment(mem, sg[i]);
      }
      NoSegments(text, sg[|sg|..], absorbed);
    }

    /** update with a list of one entry for the first n bytes of a buffer, as the pads are taken. */
    method AbsorbBuffer(buf: array<Byte>, n: nat)
      requires n <= buf.Length
      modifies `absorbed
      ensures absorbed == old(absorbed) + buf[..n]
    {
      OneEntry(buf[..], n);
      hide Addrs, Gather, Within;
      Update(buf, [Sg(0, 0, n)]);
      assert buf[..][..n] == buf[..n];
    }

    /** hash_key: digest with a list of one entry for the key, and the result over the start of the key itself. */
    method HashKey(key: array<Byte>, keylen: nat)
      requires Valid() && digestSize <= key.Length && keylen <= key.Length && key != hmacBlock
      modifies this, key
      ensures key[..digestSize] == hash(old(key[..keylen])) && absorbed == old(key[..keylen])
    {
      OneEntry(key[..], keylen);
      hide Addrs, Gather, Within;
      assert key[..][..keylen] == key[..keylen];
      Digest(key, [Sg(0, 0, keylen)], key);
    }

    /** The pad buffer: the key, zeroes, and a constant in every byte. */
    method Pad(key: array<Byte>, keylen: nat, x: Byte)
      requires Valid() && keylen <= key.Length && keylen <= blockSize && key != hmacBlock
      modifies hmacBlock
      ensures hmacBlock[..] == XorEach(key[..keylen] + seq(blockSize - keylen, i => 0), x)
    {
      forall i | 0 <= i < hmacBlock.Length {
        hmacBlock[i] := 0;
      }
      forall i | 0 <= i < keylen {
        hmacBlock[i] := key[i];
      }
      ghost var k := key[..keylen] + seq(blockSize - keylen, i => 0);
      assert hmacBlock[..] == k;
      for i := 0 to blockSize
        invariant forall j :: 0 <= j < blockSize ==> hmacBlock[j] == if j < i then k[j] ^ x else k[j]
      {
        hmacBlock[i] := hmacBlock[i] ^ x;
      }
    }

    /** The start of both halves: a key longer than a block is replaced by its digest, in place. */
    method Shorten(key: array<Byte>, keylen: nat) returns (len: nat)
      requires Valid() && keylen <= key.Length && key != hmacBlock
      modifies this, key
      ensures len <= blockSize && len <= key.Length
      ensures keylen > blockSize ==> len == digestSize && key[..len] == hash(old(key[..keylen]))
      ensures keylen <= blockSize ==> len == keylen && key[..] == old(key[..]) && absorbed == old(absorbed)
    {
      len := keylen;
      if keylen > blockSize {
        HashKey(key, keylen);
        len := digestSize;
      }
    }

    /** crypto_hmac_init. */
    method HmacInit(key: array<Byte>, keylen: nat) returns (len: nat)
      requires Valid() && keylen <= key.Length && key != hmacBlock
      modifies this, key, hmacBlock
      ensures len <= blockSize && len <= key.Length
      ensures key[..len] + seq(blockSize - len, i => 0) == BlockKey(hash, blockSize, old(key[..keylen]))
      ensures absorbed == XorEach(BlockKey(hash, blockSize, old(key[..keylen])), IPAD)
    {
      ghost var was := key[..keylen];
      len := Shorten(key, keylen);
      ShortKey(hash, blockSize, was, key[..len]);
      Pad(key, len, IPAD);
      Init();
      AbsorbBuffer(hmacBlock, blockSize);
      assert hmacBlock[..blockSize] == hmacBlock[..];
    }

    /** crypto_hmac_final: the key is no longer than a block now, so it is used as it is. */
    method HmacFinal(key: array<Byte>, keylen: nat, out: array<Byte>)
      requires Valid() && keylen <= key.Length && keylen <= blockSize && key != hmacBlock
      requires digestSize <= out.Length && out != key && out != hmacBlock
      modifies this, key, hmacBlock, out
      ensures key[..] == old(key[..])
      ensures out[..digestSize] == hash(XorEach(old(key[..keylen]) + seq(blockSize - keylen, i => 0), OPAD) +
        hash(old(absorbed)))
    {
      ghost var k, inner := key[..keylen], hash(absorbed);
      var len := Shorten(key, keylen);
      Final(out);
      assert key[..len] == k;
      Pad(key, len, OPAD);
      assert out[..digestSize] == inner;
      Init();
      AbsorbBuffer(hmacBlock, blockSize);
      assert absorbed == hmacBlock[..blockSize] == hmacBlock[..];
      AbsorbBuffer(out, digestSize);
      Final(out);
    }

    /** crypto_hmac: for every key and every scatterlist, the keyed hash of section 2 of RFC 2104. */
    method Hmac(key: array<Byte>, keylen: nat, mem: array<Byte>, sg: seq<Sg>, out: array<Byte>)
      requires Valid() && keylen <= key.Length && key != hmacBlock && Fits(sg, mem.Length) && mem != key &&
        mem != hmacBlock
      requires digestSize <= out.Length && out != key && out != hmacBlock
      modifies this, key, hmacBlock, out
      ensures Within(Addrs(sg), mem.Length)
      ensures out[..digestSize] == Rfc2104(hash, blockSize, old(key[..keylen]), Gather(old(mem[..]), Addrs(sg)))
    {
      ghost var text := mem[..];
      var len := HmacInit(key, keylen);
      assert mem[..] == text;
      Update(mem, sg);
      HmacFinal(key, len, out);
    }
  }

  /** The bytes of a segment. */
  ghost function Piece(mem: seq<Byte>, s: Sg): seq<Byte>
  {
    var a := s.page * PAGE_SIZE + s.offset;
    if a + s.length <= |mem| then mem[a..a + s.length] else []
  }

  /** The bytes of a scatterlist, segment by segment. */
  ghost function Bytes(mem: seq<Byte>, sg: seq<Sg>): seq<Byte>
  {
    if sg == [] then [] else Piece(mem, sg[0]) + Bytes(mem, sg[1..])
  }

  lemma Nothing(s: seq<Byte>)
    ensures [] + s == s
  {
  }

  lemma {:induction false} NoSegments(mem: seq<Byte>, sg: seq<Sg>, s: seq<Byte>)
    requires sg == []
    ensures s + Bytes(mem, sg) == s
  {
  }

  lemma {:induction false} NextSegment(mem: seq<Byte>, sg: seq<Sg>, i: nat)
    requires i < |sg|
    ensures Bytes(mem, sg[i..]) == Piece(mem, sg[i]) + Bytes(mem, sg[i + 1..])
  {
    hide Piece;
    assert sg[i..][0] == sg[i] && sg[i..][1..] == sg[i + 1..];
  }

  lemma Regroup(a: seq<Byte>, b: seq<Byte>, c: seq<Byte>)
    ensures a + (b + c) == (a + b) + c
  {
  }

  /** They are the bytes at its addresses. */
  lemma {:induction false} BytesAre(mem: seq<Byte>, sg: seq<Sg>)
    requires Fits(sg, |mem|)
    ensures Within(Addrs(sg), |mem|) && Bytes(mem, sg) == Gather(mem, Addrs(sg))
  {
    if sg == [] {
      GatherNothing(mem);
    } else {
      BytesAre(mem, sg[1..]);
      FirstFits(sg, |mem|);
      GatherRange(mem, sg[0]);
      var r, a := FirstAddrs(sg), Addrs(sg[1..]);
      hide *;
      assert Addrs(sg) == r + a && Bytes(mem, sg) == Piece(mem, sg[0]) + Bytes(mem, sg[1..]) by {
        Unfolded(mem, sg);
      }
      GatherAppend(mem, r, a);
    }
  }

  ghost function FirstAddrs(sg: seq<Sg>): seq<nat>
    requires sg != []
  {
    Range(sg[0].page * PAGE_SIZE + sg[0].offset, sg[0].length)
  }

  lemma {:induction false} Unfolded(mem: seq<Byte>, sg: seq<Sg>)
    requires sg != []
    ensures Addrs(sg) == FirstAddrs(sg) + Addrs(sg[1..])
    ensures Bytes(mem, sg) == Piece(mem, sg[0]) + Bytes(mem, sg[1..])
  {
  }

  lemma {:induction false} FirstFits(sg: seq<Sg>, size: nat)
    requires Fits(sg, size) && sg != []
    ensures sg[0].page * PAGE_SIZE + sg[0].offset + sg[0].length <= size && Fits(sg[1..], size)
  {
  }

  lemma GatherNothing(mem: seq<Byte>)
    ensures Within([], |mem|) && Gather(mem, []) == []
  {
  }

  lemma GatherAppend(mem: seq<Byte>, a: seq<nat>, b: seq<nat>)
    requires Within(a, |mem|) && Within(b, |mem|)
    ensures Within(a + b, |mem|) && Gather(mem, a + b) == Gather(mem, a) + Gather(mem, b)
  {
  }

  lemma GatherRange(mem: seq<Byte>, s: Sg)
    requires s.page * PAGE_SIZE + s.offset + s.length <= |mem|
    ensures
      var r := Range(s.page * PAGE_SIZE + s.offset, s.length);
      Within(r, |mem|) && Gather(mem, r) == Piece(mem, s)
  {
  }

  /** A list of one entry names the start of a buffer. */
  lemma OneEntry(mem: seq<Byte>, n: nat)
    requires n <= |mem|
    ensures Fits([Sg(0, 0, n)], |mem|)
    ensures Within(Addrs([Sg(0, 0, n)]), |mem|) && Gather(mem, Addrs([Sg(0, 0, n)])) == mem[..n]
  {
    var sg := [Sg(0, 0, n)];
    assert sg[1..] == [];
    assert Addrs(sg) == Range(0, n);
    GatherRange(mem, sg[0]);
  }

  lemma ShortKey(h: seq<Byte> -> seq<Byte>, size: nat, key: seq<Byte>, k: seq<Byte>)
    requires |k| <= size && k == if |key| > size then h(key) else key
    ensures k + seq(size - |k|, i => 0) == BlockKey(h, size, key)
  {
  }

  // ---- MD5 as the digest

  /** What MD5 makes of a whole message. */
  function Md5Hash<S>(f: Merkle.Mix<S>, iv: S, store: S -> seq<Byte>): seq<Byte> -> seq<Byte>
  {
    m => store(Merkle.Fold(f, 64, iv, Md5.RfcPadded(m)))
  }

  /** An MD5 context does for any start, absorb and finish what the transform promises. */
  method Md5Serves<S>(tfm: Tfm, f: Merkle.Mix<S>, iv: S, store: S -> seq<Byte>, pieces: seq<seq<Byte>>,
                      out: array<Byte>)
    returns (digest: seq<Byte>)
    requires tfm.Valid() && tfm.hash == Md5Hash(f, iv, store) && tfm.digestSize <= out.Length
    modifies tfm, out
    ensures digest == out[..tfm.digestSize]
  {
    hide Merkle.Fold, Md5.RfcPadded, Merkle.Tail;
    tfm.Init();
    var ctx := new Md5.Context(f, iv, store);
    for n := 0 to |pieces|
      invariant fresh(ctx) && fresh(ctx.block) && ctx.Valid() && ctx.msg == tfm.absorbed
      invariant ctx.mix == f && ctx.start == iv && ctx.store == store
    {
      tfm.Absorb(pieces[n]);
      ctx.Update(pieces[n]);
    }
    digest := ctx.Final();
    tfm.Final(out);
  }

  /** HMAC-MD5. */
  method HmacMd5<S>(f: Merkle.Mix<S>, iv: S, store: S -> seq<Byte>, key: array<Byte>, keylen: nat, mem: array<Byte>,
                    sg: seq<Sg>, out: array<Byte>)
    requires keylen <= key.Length && Fits(sg, mem.Length) && mem != key && out != key && out.Length >= 16
    requires forall s: S :: |store(s)| == 16
    modifies key, out
    ensures Within(Addrs(sg), mem.Length)
    ensures out[..16] == Rfc2104(Md5Hash(f, iv, store), 64, old(key[..keylen]), Gather(old(mem[..]), Addrs(sg)))
  {
    hide Merkle.Fold, Md5.RfcPadded, Addrs, Gather, Within, Rfc2104;
    forall m: seq<Byte>
      ensures |Md5Hash(f, iv, store)(m)| == 16
    {
      assert |store(Merkle.Fold(f, 64, iv, Md5.RfcPadded(m)))| == 16;
    }
    var tfm := new Tfm(Md5Hash(f, iv, store), 64, 16);
    tfm.Hmac(key, keylen, mem, sg, out);
  }
}
