/**
  md5.c around its transformation: the block buffer, the byte count of 64 bits and the padding of
  sections 3.1 and 3.2 of RFC 1321. Blocks are sixty-four bytes; the little-endian words the
  transformation reads are part of the function it is given as.
*/
module Md5 {
  import opened Merkle

  const TWO32 := 0x1_0000_0000
  const TWO29 := 0x2000_0000
  const TWO64 := 0x1_0000_0000_0000_0000

  /** A 32-bit number as four bytes, the least significant first. */
  function LittleEndian32(x: nat): seq<Byte>
  {
    [ByteOf(x), ByteOf(x / 0x100), ByteOf(x / 0x10000), ByteOf(x / 0x1000000)]
  }

  /** The length in bits modulo 2^64, in two words with the low word first. */
  function LengthBytes(length: nat): seq<Byte>
  {
    LittleEndian32(8 * length % TWO64 % TWO32) + LittleEndian32(8 * length % TWO64 / TWO32)
  }

  function Padding(length: nat): seq<Byte>
  {
    [0x80] + Zeros(PadLength(length) - 1) + LengthBytes(length)
  }

  /** Sections 3.1 and 3.2 of RFC 1321. */
  function RfcPadded(msg: seq<Byte>): seq<Byte>
  {
    msg + Padding(|msg|)
  }

  lemma LengthSize(length: nat)
    ensures |LengthBytes(length)| == 8
  {
  }

  lemma PaddedLength(msg: seq<Byte>)
    ensures |RfcPadded(msg)| % 64 == 0
  {
    LengthSize(|msg|);
    PadFits(|msg|);
    hide LengthBytes, PadLength;
    assert |RfcPadded(msg)| == |msg| + PadLength(|msg|) + 8;
  }

  /**
    Sections 3.1 and 3.2 of RFC 1321 in full: the message, a one bit, zeroes, and in the last eight
    bytes its length in bits modulo 2^64 in base 256, the least significant digit first; as long as the
    least multiple of 64 that has room for all of it.
  */
  lemma RfcPaddedIs(msg: seq<Byte>)
    ensures
      var p := RfcPadded(msg);
      && |p| % 64 == 0 && |msg| + 9 <= |p| < |msg| + 9 + 64
      && p[..|msg|] == msg && p[|msg|] == 0x80 && (forall i :: |msg| < i < |p| - 8 ==> p[i] == 0)
      && var n := 8 * |msg| % 0x1_0000_0000_0000_0000;
         p[|p| - 8..] == [Digit(n, 0), Digit(n, 1), Digit(n, 2), Digit(n, 3),
                          Digit(n, 4), Digit(n, 5), Digit(n, 6), Digit(n, 7)]
  {
    PaddedLength(msg);
    LengthSize(|msg|);
    PadFits(|msg|);
    hide LengthBytes, Digit, PadLength;
    var p := RfcPadded(msg);
    assert |p| == |msg| + PadLength(|msg|) + 8;
    assert p[|p| - 8..] == LengthBytes(|msg|);
    LengthDigits(|msg|);
  }

  lemma LengthDigits(length: nat)
    ensures
      var n := 8 * length % TWO64;
      LengthBytes(length) ==
        [Digit(n, 0), Digit(n, 1), Digit(n, 2), Digit(n, 3), Digit(n, 4), Digit(n, 5), Digit(n, 6), Digit(n, 7)]
  {
    hide ByteOf, Digit;
    var x := 8 * length % TWO64;
    var high, low := x / TWO32, x % TWO32;
    assert x == TWO32 * high + low;
    DigitsOfTwo(high, low);
    DigitsOfWord(low);
    DigitsOfWord(high);
  }

  /** The two words md5_final stores, from a count of bytes kept modulo 2^64. */
  lemma LengthWords(m: nat)
    ensures 8 * (m % TWO64) % TWO32 == 8 * m % TWO64 % TWO32
    ensures m % TWO64 / TWO29 % TWO32 == 8 * m % TWO64 / TWO32
  {
    var q, r := m / TWO64, m % TWO64;
    assert m == TWO64 * q + r;
    assert 8 * m == TWO64 * (8 * q) + 8 * r;
    assert 8 * m % TWO64 == 8 * r % TWO64;
    WordsOfCount(r);
  }

  lemma WordsOfCount(r: nat)
    requires r < TWO64
    ensures r / TWO29 % TWO32 == 8 * r % TWO64 / TWO32 && 8 * r % TWO32 == 8 * r % TWO64 % TWO32
  {
    var h, l := r / TWO29, r % TWO29;
    assert r == TWO29 * h + l && 8 * r == TWO32 * h + 8 * l && 8 * l < TWO32;
    var k, g := h / TWO32, h % TWO32;
    assert h == TWO32 * k + g;
    assert 8 * r == TWO64 * k + (TWO32 * g + 8 * l);
    assert TWO32 * g + 8 * l < TWO64;
    assert 8 * r % TWO64 == TWO32 * g + 8 * l;
  }

  lemma CountOf(m: nat, n: nat)
    ensures m % TWO64 % 64 == m % 64 && (m % TWO64 + n) % TWO64 == (m + n) % TWO64
  {
  }

  class Context<S> {
    const mix: Mix<S>
    const start: S
    const store: S -> seq<Byte>
    var hash: S
    const block: array<Byte>
    var byteCount: nat
    ghost var msg: seq<Byte>

    ghost predicate Valid()
      reads this, block
    {
      && block.Length == 64 && hash == Fold(mix, 64, start, msg) && byteCount == |msg| % TWO64
      && |Tail(64, msg)| <= 64 && block[..|Tail(64, msg)|] == Tail(64, msg)
    }

    /** md5_init. */
    constructor (f: Mix<S>, iv: S, digest: S -> seq<Byte>)
      ensures Valid() && msg == [] && mix == f && start == iv && store == digest && fresh(block)
    {
      mix, start, store := f, iv, digest;
      hash, byteCount := iv, 0;
      block := new Byte[64];
      msg := [];
    }

    method Copy(at: nat, data: seq<Byte>)
      requires at + |data| <= block.Length
      modifies block
      ensures block[..at] == old(block[..at]) && block[at..at + |data|] == data
    {
      for i := 0 to |data|
        invariant forall j :: 0 <= j < at ==> block[j] == old(block[j])
        invariant forall j :: 0 <= j < i ==> block[at + j] == data[j]
      {
        block[at + i] := data[i];
      }
    }

    /** The rest of md5_update once the buffer is complete. */
    method Blocks(data: seq<Byte>, avail: nat)
      requires block.Length == 64 && hash == Fold(mix, 64, start, msg) && |Tail(64, msg)| == 64 - avail &&
        0 < avail <= 64
      requires block[..64 - avail] == Tail(64, msg) && avail <= |data|
      modifies `hash, block
      ensures hash == Fold(mix, 64, start, msg + data)
      ensures |Tail(64, msg + data)| < 64 && block[..|Tail(64, msg + data)|] == Tail(64, msg + data)
    {
      hide Fold, Tail;
      ghost var tail := Tail(64, msg);
      Copy(64 - avail, data[..avail]);
      assert block[..] == tail + data[..avail];
      assert tail + data == (tail + data[..avail]) + data[avail..];
      Absorb(mix, 64, start, msg, data);
      FoldBlock(mix, 64, hash, tail + data[..avail], data[avail..]);
      hash := mix(hash, block[..]);
      var rest := data[avail..];
      while |rest| >= 64
        invariant Fold(mix, 64, start, msg + data) == Fold(mix, 64, hash, rest)
        invariant Tail(64, msg + data) == Tail(64, rest)
        decreases |rest|
      {
        Copy(0, rest[..64]);
        assert block[..] == rest[..64] && rest == rest[..64] + rest[64..];
        FoldBlock(mix, 64, hash, rest[..64], rest[64..]);
        hash := mix(hash, block[..]);
        rest := rest[64..];
      }
      FoldShort(mix, 64, hash, rest);
      Copy(0, rest);
      assert block[..|rest|] == rest;
    }

    /** md5_update. */
    method Update(data: seq<Byte>)
      requires Valid()
      modifies this, block
      ensures Valid() && msg == old(msg) + data
    {
      hide Fold, Tail;
      TailLength64(msg);
      CountOf(|msg|, |data|);
      var avail := 64 - byteCount % 64;
      ghost var tail := Tail(64, msg);
      byteCount := (byteCount + |data|) % TWO64;
      if avail > |data| {
        Copy(64 - avail, data);
        Absorb(mix, 64, start, msg, data);
        FoldShort(mix, 64, hash, tail + data);
        assert block[..64 - avail + |data|] == tail + data;
      } else {
        Blocks(data, avail);
      }
      msg := msg + data;
    }

    /** The one bit and the zeroes of md5_final, with a transformation in between if they do not fit. */
    method Pad(offset: nat, ghost tail: seq<Byte>)
      requires block.Length == 64 && |tail| == offset < 64 && block[..offset] == tail
      modifies `hash, block
      ensures offset < 56 ==> hash == old(hash) && block[..56] == tail + [0x80] + Zeros(55 - offset)
      ensures offset >= 56 ==> hash == mix(old(hash), tail + [0x80] + Zeros(63 - offset)) && block[..56] == Zeros(56)
    {
      var padding := 56 - (offset + 1);
      Copy(offset, [0x80]);
      assert block[..offset + 1] == tail + [0x80];
      if padding < 0 {
        Copy(offset + 1, Zeros(padding + 8));
        assert block[..] == tail + [0x80] + Zeros(padding + 8);
        hash := mix(hash, block[..]);
        Copy(0, Zeros(56));
        assert block[..56] == Zeros(56);
      } else {
        Copy(offset + 1, Zeros(padding));
        assert block[..56] == tail + [0x80] + Zeros(padding);
      }
    }

    /** md5_final. */
    method Final() returns (out: seq<Byte>)
      requires Valid()
      modifies this, block
      ensures out == store(Fold(mix, 64, start, RfcPadded(old(msg))))
    {
      hide Fold, Tail, LittleEndian32, Zeros, Padding;
      TailLength64(msg);
      CountOf(|msg|, 0);
      LengthWords(|msg|);
      LengthSize(|msg|);
      var words := LittleEndian32(8 * byteCount % TWO32) + LittleEndian32(byteCount / TWO29 % TWO32);
      assert words == LengthBytes(|msg|);
      hide LengthBytes;
      var offset := byteCount % 64;
      ghost var tail, h0 := Tail(64, msg), hash;
      Absorb(mix, 64, start, msg, Padding(|msg|));
      Pad(offset, tail);
      ghost var head := block[..56];
      Copy(56, words);
      assert block[..] == head + words;
      LastBlocks(mix, h0, tail, |msg|, offset, block[..]);
      hash := mix(hash, block[..]);
      out := store(hash);
    }
  }

  /** The tail and the padding are one block or two. */
  lemma {:induction false} LastBlocks<S>(mix: Mix<S>, h: S, tail: seq<Byte>, m: nat, offset: nat, last: seq<Byte>)
    requires |tail| == offset == m % 64
    requires offset < 56 ==> last == (tail + [0x80] + Zeros(55 - offset)) + LengthBytes(m)
    requires offset >= 56 ==> last == Zeros(56) + LengthBytes(m)
    requires |LengthBytes(m)| == 8
    ensures Fold(mix, 64, h, tail + Padding(m))
            == if offset < 56 then mix(h, last) else mix(mix(h, tail + [0x80] + Zeros(63 - offset)), last)
  {
    hide LengthBytes;
    if offset < 56 {
      assert tail + Padding(m) == last + [];
      FoldBlock(mix, 64, h, last, []);
    } else {
      var first := tail + [0x80] + Zeros(63 - offset);
      assert Zeros(119 - offset) == Zeros(63 - offset) + Zeros(56);
      assert tail + Padding(m) == first + (last + []);
      FoldBlock(mix, 64, h, first, last + []);
      FoldBlock(mix, 64, mix(h, first), last, []);
    }
  }

  /** However a message is cut into pieces, the digest is that of the whole message, padded by RFC 1321. */
  method Digest<S>(f: Mix<S>, iv: S, store: S -> seq<Byte>, pieces: seq<seq<Byte>>) returns (out: seq<Byte>)
    ensures out == store(Fold(f, 64, iv, RfcPadded(Concat(pieces))))
  {
    hide Fold, Tail, RfcPadded;
    var ctx := new Context(f, iv, store);
    for n := 0 to |pieces|
      invariant fresh(ctx) && fresh(ctx.block) && ctx.Valid() && ctx.msg == Concat(pieces[..n])
      invariant ctx.mix == f && ctx.start == iv && ctx.store == store
    {
      assert pieces[..n + 1][..n] == pieces[..n];
      ctx.Update(pieces[n]);
    }
    assert pieces[..|pieces|] == pieces;
    out := ctx.Final();
  }
}
