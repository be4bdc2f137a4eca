/**
  michael_mic.c: the message integrity code Michael, section 8.3.2.3 of IEEE 802.11i-2004, with
  up to three bytes waiting between updates.
*/
module Michael {
  import opened Merkle

  datatype Words = Words(l: bv32, r: bv32)

  function Rotl(x: bv32, n: nat): bv32
    requires n <= 32
  {
    (x << n) | (x >> (32 - n))
  }

  function Rotr(x: bv32, n: nat): bv32
    requires n <= 32
  {
    (x >> n) | (x << (32 - n))
  }

  function Xswap(x: bv32): bv32
  {
    ((x & 0x00ff00ff) << 8) | ((x & 0xff00ff00) >> 8)
  }

  /** One line of michael_block. */
  function Turn(x: Words, u: bv32): Words
  {
    Words(x.l + (x.r ^ u), x.r ^ u)
  }

  /** The block function b of the standard. */
  function Block(x: Words): Words
  {
    var a := Turn(x, Rotl(x.l, 17));
    var b := Turn(a, Xswap(a.l));
    var c := Turn(b, Rotl(b.l, 3));
    Turn(c, Rotr(c.l, 2))
  }

  /** get_le32. */
  function GetLe32(p: seq<Byte>): bv32
    requires |p| >= 4
  {
    (p[0] as bv32) | ((p[1] as bv32) << 8) | ((p[2] as bv32) << 16) | ((p[3] as bv32) << 24)
  }

  /** put_le32. */
  function PutLe32(v: bv32): (p: seq<Byte>)
    ensures |p| == 4
  {
    [(v & 0xff) as bv8, ((v >> 8) & 0xff) as bv8, ((v >> 16) & 0xff) as bv8, ((v >> 24) & 0xff) as bv8]
  }

  lemma PutGet(v: bv32)
    ensures GetLe32(PutLe32(v)) == v
  {
  }

  /** One word of the message. */
  function Mix4(x: Words, p: seq<Byte>): Words
  {
    if |p| < 4 then x else Block(Words(x.l ^ GetLe32(p), x.r))
  }

  /** 0x5a and four to seven zeroes, up to a multiple of four bytes. */
  function Padding(length: nat): seq<Byte>
  {
    [0x5a] + Zeros(7 - length % 4)
  }

  function Code(key: Words, msg: seq<Byte>): Words
  {
    Fold(Mix4, 4, key, msg + Padding(|msg|))
  }

  lemma PaddingMultiple(length: nat)
    ensures (length + |Padding(length)|) % 4 == 0 && 4 <= |Padding(length)| - 1 <= 7
  {
  }

  lemma {:induction false} TailLength4(s: seq<Byte>)
    ensures |Tail(4, s)| == |s| % 4
    decreases |s|
  {
    if |s| >= 4 {
      TailLength4(s[4..]);
    }
  }

  /** The words of michael_final are the tail with 0x5a and zeroes after it. */
  lemma LastWords(a: Byte, b: Byte, c: Byte)
    ensures GetLe32([0x5a, 0, 0, 0]) == 0x5a
    ensures GetLe32([a, 0x5a, 0, 0]) == (a as bv32) | 0x5a00
    ensures GetLe32([a, b, 0x5a, 0]) == (a as bv32) | ((b as bv32) << 8) | 0x5a0000
    ensures GetLe32([a, b, c, 0x5a]) == (a as bv32) | ((b as bv32) << 8) | ((c as bv32) << 16) | 0x5a000000
  {
  }

  lemma NothingXor(x: bv32)
    ensures GetLe32([0, 0, 0, 0]) == 0 && x ^ 0 == x
  {
  }

  class Context {
    const pending: array<Byte>
    var pendingLen: nat
    var w: Words
    ghost var key: Words
    ghost var msg: seq<Byte>

    ghost predicate Valid()
      reads this, pending
    {
      && pending.Length == 4 && w == Fold(Mix4, 4, key, msg)
      && pendingLen == |Tail(4, msg)| < 4 && pending[..pendingLen] == Tail(4, msg)
    }

    constructor ()
      ensures Valid() && msg == [] && fresh(pending)
    {
      pending := new Byte[4];
      pendingLen, w := 0, Words(0, 0);
      key, msg := Words(0, 0), [];
    }

    /** michael_init: pending bytes are forgotten, the words are not. */
    method Init()
      requires pending.Length == 4
      modifies `pendingLen, `msg, `key
      ensures Valid() && pendingLen == 0 && msg == [] && key == w
    {
      pendingLen := 0;
      key, msg := w, [];
    }

    /** michael_setkey. It leaves pending bytes alone, so they become the start of the next message. */
    method SetKey(k: seq<Byte>) returns (ok: bool)
      requires Valid()
      modifies `w, `key, `msg
      ensures Valid() && (ok <==> |k| == 8)
      ensures ok ==> key == w == Words(GetLe32(k[..4]), GetLe32(k[4..])) && msg == pending[..pendingLen]
      ensures !ok ==> w == old(w) && key == old(key) && msg == old(msg)
    {
      if |k| != 8 {
        return false;
      }
      hide GetLe32, Fold, Tail;
      w := Words(GetLe32(k[..4]), GetLe32(k[4..]));
      key, msg := w, pending[..pendingLen];
      FewBytes(key, msg);
      return true;
    }

    method Copy(at: nat, data: seq<Byte>)
      requires pending.Length == 4 && at + |data| <= 4
      modifies pending
      ensures pending[..at] == old(pending[..at]) && pending[at..at + |data|] == data
    {
      for i := 0 to |data|
        invariant forall j :: 0 <= j < at ==> pending[j] == old(pending[j])
        invariant forall j :: 0 <= j < i ==> pending[at + j] == data[j]
      {
        pending[at + i] := data[i];
      }
    }

    /** The word loop of michael_update and what it leaves pending. */
    method Words4(data: seq<Byte>, ghost whole: seq<Byte>)
      requires pending.Length == 4 && pendingLen == 0
      requires Fold(Mix4, 4, key, whole) == Fold(Mix4, 4, w, data) && Tail(4, whole) == Tail(4, data)
      modifies `w, `pendingLen, pending
      ensures w == Fold(Mix4, 4, key, whole) && pendingLen == |Tail(4, whole)| < 4 &&
        pending[..pendingLen] == Tail(4, whole)
    {
      hide Fold, Tail, GetLe32, Block;
      var rest := data;
      while |rest| >= 4
        invariant Fold(Mix4, 4, key, whole) == Fold(Mix4, 4, w, rest) && Tail(4, whole) == Tail(4, rest) &&
          pendingLen == 0
        decreases |rest|
      {
        assert rest == rest[..4] + rest[4..];
        FoldBlock(Mix4, 4, w, rest[..4], rest[4..]);
        w := Block(Words(w.l ^ GetLe32(rest[..4]), w.r));
        rest := rest[4..];
      }
      FoldShort(Mix4, 4, w, rest);
      if |rest| > 0 {
        pendingLen := |rest|;
        Copy(0, rest);
        assert pending[..pendingLen] == rest;
      }
    }

    /** michael_update. */
    method Update(data: seq<Byte>)
      requires Valid()
      modifies this, pending
      ensures Valid() && msg == old(msg) + data && key == old(key)
    {
      hide Fold, Tail, GetLe32, Block;
      Absorb(Mix4, 4, key, msg, data);
      ghost var tail := Tail(4, msg);
      var rest := data;
      if pendingLen != 0 {
        var flen := 4 - pendingLen;
        if flen > |data| {
          flen := |data|;
        }
        Copy(pendingLen, data[..flen]);
        assert pending[..pendingLen + flen] == tail + data[..flen];
        pendingLen := pendingLen + flen;
        rest := data[flen..];
        assert tail + data == (tail + data[..flen]) + rest;
        if pendingLen < 4 {
          assert tail + data == tail + data[..flen];
          FoldShort(Mix4, 4, w, tail + data);
          msg := msg + data;
          return;
        }
        FoldBlock(Mix4, 4, w, tail + data[..flen], rest);
        assert pending[..] == tail + data[..flen];
        w := Block(Words(w.l ^ GetLe32(pending[..]), w.r));
        pendingLen := 0;
      } else {
        assert tail + data == data;
      }
      Words4(rest, msg + data);
      msg := msg + data;
    }

    /** The first half of michael_final: the pending bytes and the mark go into the words. */
    method MixLast()
      requires pending.Length == 4 && pendingLen < 4
      modifies `w
      ensures w == Words(old(w).l ^ GetLe32(pending[..pendingLen] + [0x5a] + Zeros(3 - pendingLen)), old(w).r)
    {
      hide GetLe32;
      ghost var first := pending[..pendingLen] + [0x5a] + Zeros(3 - pendingLen);
      if pendingLen == 0 {
        LastWords(0, 0, 0);
        assert first == [0x5a, 0, 0, 0];
        w := Words(w.l ^ 0x5a, w.r);
      } else if pendingLen == 1 {
        LastWords(pending[0], 0, 0);
        assert first == [pending[0], 0x5a, 0, 0];
        w := Words(w.l ^ ((pending[0] as bv32) | 0x5a00), w.r);
      } else if pendingLen == 2 {
        LastWords(pending[0], pending[1], 0);
        assert first == [pending[0], pending[1], 0x5a, 0];
        w := Words(w.l ^ ((pending[0] as bv32) | ((pending[1] as bv32) << 8) | 0x5a0000), w.r);
      } else {
        LastWords(pending[0], pending[1], pending[2]);
        assert first == [pending[0], pending[1], pending[2], 0x5a];
        var last := (pending[0] as bv32) | ((pending[1] as bv32) << 8) | ((pending[2] as bv32) << 16) | 0x5a000000;
        w := Words(w.l ^ last, w.r);
      }
    }

    /** michael_final. */
    method Final() returns (out: seq<Byte>)
      requires Valid()
      modifies `w
      ensures |out| == 8 && Words(GetLe32(out[..4]), GetLe32(out[4..])) == w == Code(key, msg)
    {
      hide Fold, Tail, GetLe32, Block;
      TailLength4(msg);
      Absorb(Mix4, 4, key, msg, Padding(|msg|));
      ghost var tail := Tail(4, msg);
      LastTwo(w, tail, |msg|, tail + [0x5a] + Zeros(3 - pendingLen));
      MixLast();
      w := Block(w);
      w := Block(w);
      PutGet(w.l);
      PutGet(w.r);
      hide PutLe32;
      out := PutLe32(w.l) + PutLe32(w.r);
      assert out[..4] == PutLe32(w.l) && out[4..] == PutLe32(w.r);
    }
  }

  /** Less than a word is all tail. */
  lemma {:induction false} FewBytes(h: Words, p: seq<Byte>)
    requires |p| < 4
    ensures Fold(Mix4, 4, h, p) == h && Tail(4, p) == p
  {
    hide Mix4;
  }

  /** The tail and the padding are two words, and the second one is zero. */
  lemma {:induction false} LastTwo(h: Words, tail: seq<Byte>, m: nat, first: seq<Byte>)
    requires |tail| == m % 4 && first == tail + [0x5a] + Zeros(3 - m % 4)
    ensures Fold(Mix4, 4, h, tail + Padding(m)) == Block(Block(Words(h.l ^ GetLe32(first), h.r)))
  {
    hide GetLe32, Block;
    var h' := Mix4(h, first);
    assert Zeros(7 - m % 4) == Zeros(3 - m % 4) + Zeros(4);
    assert tail + Padding(m) == first + (Zeros(4) + []);
    FoldBlock(Mix4, 4, h, first, Zeros(4) + []);
    FoldBlock(Mix4, 4, h', Zeros(4), []);
    NothingXor(h'.l);
    assert Zeros(4) == [0, 0, 0, 0];
  }

  /** A message in pieces, however it is cut. */
  method Absorbed(ctx: Context, pieces: seq<seq<Byte>>)
    requires ctx.Valid()
    modifies ctx, ctx.pending
    ensures ctx.Valid() && ctx.msg == old(ctx.msg) + Concat(pieces) && ctx.key == old(ctx.key)
  {
    hide Fold, Tail, GetLe32, Code;
    ghost var key, before := ctx.key, ctx.msg;
    assert before + Concat(pieces[..0]) == before;
    for n := 0 to |pieces|
      invariant ctx.Valid() && ctx.msg == before + Concat(pieces[..n]) && ctx.key == key
    {
      assert pieces[..n + 1][..n] == pieces[..n];
      ctx.Update(pieces[n]);
    }
    assert pieces[..|pieces|] == pieces;
  }

  /** digest: init, the pieces, final. The key is whatever the words hold, and they hold the code afterwards. */
  method Digest(ctx: Context, pieces: seq<seq<Byte>>) returns (out: seq<Byte>)
    requires ctx.pending.Length == 4
    modifies ctx, ctx.pending
    ensures |out| == 8 && Words(GetLe32(out[..4]), GetLe32(out[4..])) == ctx.w == Code(old(ctx.w), Concat(pieces))
  {
    hide Fold, Tail, GetLe32, Code;
    ctx.Init();
    Absorbed(ctx, pieces);
    assert [] + Concat(pieces) == Concat(pieces);
    out := ctx.Final();
  }

  /**
    Two messages after one setkey: the second is not given the code of its own under the key, but one
    under the first code.
  */
  method DigestTwice(ctx: Context, k: seq<Byte>, first: seq<seq<Byte>>, second: seq<seq<Byte>>) returns (out: seq<Byte>)
    requires ctx.Valid() && |k| == 8
    modifies ctx, ctx.pending
    ensures |out| == 8
    ensures
      var key := Words(GetLe32(k[..4]), GetLe32(k[4..]));
      Words(GetLe32(out[..4]), GetLe32(out[4..])) == Code(Code(key, Concat(first)), Concat(second))
  {
    hide Fold, Tail, GetLe32, Code;
    var ok := ctx.SetKey(k);
    var one := Digest(ctx, first);
    out := Digest(ctx, second);
  }

  /** Where init comes: before the key, after it as in digest, or not at all. */
  datatype InitAt = BeforeKey | AfterKey | Never

  /**
    A context with whatever pending bytes gets a key and a message: however the message is cut into
    pieces, the code is that of the message if init came before or after the key, and without it that
    of the pending bytes followed by the message.
  */
  method Mic(ctx: Context, k: seq<Byte>, pieces: seq<seq<Byte>>, init: InitAt) returns (out: seq<Byte>)
    requires ctx.Valid() && |k| == 8
    modifies ctx, ctx.pending
    ensures |out| == 8
    ensures
      var before := if init == Never then old(ctx.pending[..ctx.pendingLen]) else [];
      Words(GetLe32(out[..4]), GetLe32(out[4..])) == Code(Words(GetLe32(k[..4]), GetLe32(k[4..])),
        before + Concat(pieces))
  {
    hide Fold, Tail, GetLe32, Code;
    if init == BeforeKey {
      ctx.Init();
    }
    var ok := ctx.SetKey(k);
    if init == AfterKey {
      assert [] + Concat(pieces) == Concat(pieces);
      out := Digest(ctx, pieces);
    } else {
      Absorbed(ctx, pieces);
      out := ctx.Final();
    }
  }

  // ---- a key set on pending bytes

  lemma First5a00()
    ensures Block(Words(0x5a00, 0x0)) == Words(0x812f4694, 0x276419b1)
  {
    assert Rotl(0x5a00, 17) == 0xb4000000;
    assert Turn(Words(0x5a00, 0x0), 0xb4000000) == Words(0xb4005a00, 0xb4000000);
    assert Xswap(0xb4005a00) == 0xb4005a;
    assert Turn(Words(0xb4005a00, 0xb4000000), 0xb4005a) == Words(0x68b45a5a, 0xb4b4005a);
    assert Rotl(0x68b45a5a, 3) == 0x45a2d2d3;
    assert Turn(Words(0x68b45a5a, 0xb4b4005a), 0x45a2d2d3) == Words(0x59cb2ce3, 0xf116d289);
    assert Rotr(0x59cb2ce3, 2) == 0xd672cb38;
    assert Turn(Words(0x59cb2ce3, 0xf116d289), 0xd672cb38) == Words(0x812f4694, 0x276419b1);
    hide Turn, Rotl, Rotr, Xswap;
  }

  lemma Second5a00()
    ensures Block(Words(0x812f4694, 0x276419b1)) == Words(0x8af889e7, 0xafa44eca)
  {
    assert Rotl(0x812f4694, 17) == 0x8d29025e;
    assert Turn(Words(0x812f4694, 0x276419b1), 0x8d29025e) == Words(0x2b7c6283, 0xaa4d1bef);
    assert Xswap(0x2b7c6283) == 0x7c2b8362;
    assert Turn(Words(0x2b7c6283, 0xaa4d1bef), 0x7c2b8362) == Words(0x1e2fb10, 0xd666988d);
    assert Rotl(0x1e2fb10, 3) == 0xf17d880;
    assert Turn(Words(0x1e2fb10, 0xd666988d), 0xf17d880) == Words(0xdb543b1d, 0xd971400d);
    assert Rotr(0xdb543b1d, 2) == 0x76d50ec7;
    assert Turn(Words(0xdb543b1d, 0xd971400d), 0x76d50ec7) == Words(0x8af889e7, 0xafa44eca);
    hide Turn, Rotl, Rotr, Xswap;
  }

  lemma First5a()
    ensures Block(Words(0x5a, 0x0)) == Words(0xc000134d, 0xeaa1301e)
  {
    assert Rotl(0x5a, 17) == 0xb40000;
    assert Turn(Words(0x5a, 0x0), 0xb40000) == Words(0xb4005a, 0xb40000);
    assert Xswap(0xb4005a) == 0xb4005a00;
    assert Turn(Words(0xb4005a, 0xb40000), 0xb4005a00) == Words(0xb5685a5a, 0xb4b45a00);
    assert Rotl(0xb5685a5a, 3) == 0xab42d2d5;
    assert Turn(Words(0xb5685a5a, 0xb4b45a00), 0xab42d2d5) == Words(0xd55ee32f, 0x1ff688d5);
    assert Rotr(0xd55ee32f, 2) == 0xf557b8cb;
    assert Turn(Words(0xd55ee32f, 0x1ff688d5), 0xf557b8cb) == Words(0xc000134d, 0xeaa1301e);
    hide Turn, Rotl, Rotr, Xswap;
  }

  lemma Second5a()
    ensures Block(Words(0xc000134d, 0xeaa1301e)) == Words(0x1c5c9282, 0xb830d1a1)
  {
    assert Rotl(0xc000134d, 17) == 0x269b8000;
    assert Turn(Words(0xc000134d, 0xeaa1301e), 0x269b8000) == Words(0x8c3ac36b, 0xcc3ab01e);
    assert Xswap(0x8c3ac36b) == 0x3a8c6bc3;
    assert Turn(Words(0x8c3ac36b, 0xcc3ab01e), 0x3a8c6bc3) == Words(0x82f19f48, 0xf6b6dbdd);
    assert Rotl(0x82f19f48, 3) == 0x178cfa44;
    assert Turn(Words(0x82f19f48, 0xf6b6dbdd), 0x178cfa44) == Words(0x642bc0e1, 0xe13a2199);
    assert Rotr(0x642bc0e1, 2) == 0x590af038;
    assert Turn(Words(0x642bc0e1, 0xe13a2199), 0x590af038) == Words(0x1c5c9282, 0xb830d1a1);
    hide Turn, Rotl, Rotr, Xswap;
  }

  /**
    With a zero byte pending and a key of zeros, the empty message gets the code of one zero byte, which
    is another one.
  */
  lemma {:induction false} WrongCode()
    ensures Code(Words(0, 0), [0]) != Code(Words(0, 0), [])
  {
    hide GetLe32, Block, Fold, Mix4;
    var one: seq<Byte>, none: seq<Byte> := [0, 0x5a, 0, 0], [0x5a, 0, 0, 0];
    assert [0] + [0x5a] + Zeros(2) == one && [] + [0x5a] + Zeros(3) == none;
    LastTwo(Words(0, 0), [0], 1, one);
    LastTwo(Words(0, 0), [], 0, none);
    LastWords(0, 0, 0);
    First5a00();
    Second5a00();
    First5a();
    Second5a();
  }
}
