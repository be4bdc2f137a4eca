/**
  sha256.c around its compression function: buffering, the 64-bit count of bits kept in two
  32-bit words, and the padding of section 5.1.1 of FIPS 180-2.
*/
module Sha256 {
  import opened Merkle

  const TWO32 := 0x1_0000_0000
  const TWO29 := 0x2000_0000

  // ---- the padded message

  /** A 32-bit number as four bytes, the most significant first. */
  function BigEndian32(x: nat): seq<Byte>
  {
    [ByteOf(x / 0x1000000), ByteOf(x / 0x10000), ByteOf(x / 0x100), ByteOf(x)]
  }

  /** A one bit, zeroes, and a count of bits in two words. */
  function Padded(msg: seq<Byte>, high: nat, low: nat): seq<Byte>
  {
    msg + ([0x80] + Zeros(PadLength(|msg|) - 1)) + (BigEndian32(high) + BigEndian32(low))
  }

  /** Section 5.1.1 of FIPS 180-2: the count is the length of the message in bits. */
  function FipsPadded(msg: seq<Byte>): seq<Byte>
  {
    Padded(msg, 8 * |msg| / TWO32 % TWO32, 8 * |msg| % TWO32)
  }

  lemma PaddedLength(msg: seq<Byte>, high: nat, low: nat)
    ensures |Padded(msg, high, low)| % 64 == 0
  {
    PadFits(|msg|);
    hide PadLength;
    assert |Padded(msg, high, low)| == |msg| + PadLength(|msg|) + 8;
  }

  /**
    What a padded message is: the message, a one bit, zeroes, and in the last eight bytes the two words
    as one number in base 256, the most significant digit first; as long as the least multiple of 64
    that has room for all of it.
  */
  lemma PaddedIs(msg: seq<Byte>, high: nat, low: nat)
    requires low < TWO32
    ensures
      var p := Padded(msg, high, low);
      && |p| % 64 == 0 && |msg| + 9 <= |p| < |msg| + 9 + 64
      && p[..|msg|] == msg && p[|msg|] == 0x80 && (forall i :: |msg| < i < |p| - 8 ==> p[i] == 0)
      && var n := TWO32 * high + low;
         p[|p| - 8..] == [Digit(n, 7), Digit(n, 6), Digit(n, 5), Digit(n, 4),
                          Digit(n, 3), Digit(n, 2), Digit(n, 1), Digit(n, 0)]
  {
    PaddedLength(msg, high, low);
    PadFits(|msg|);
    hide BigEndian32, Digit, PadLength;
    var p, bits := Padded(msg, high, low), BigEndian32(high) + BigEndian32(low);
    EightBytes(high, low);
    assert |p| == |msg| + PadLength(|msg|) + 8;
    assert p[|p| - 8..] == bits;
    CountDigits(high, low);
  }

  lemma CountDigits(high: nat, low: nat)
    requires low < TWO32
    ensures
      var n := TWO32 * high + low;
      BigEndian32(high) + BigEndian32(low) ==
        [Digit(n, 7), Digit(n, 6), Digit(n, 5), Digit(n, 4), Digit(n, 3), Digit(n, 2), Digit(n, 1), Digit(n, 0)]
  {
    hide ByteOf, Digit;
    DigitsOfTwo(high, low);
    DigitsOfWord(low);
    DigitsOfWord(high);
  }

  /** Section 5.1.1 of FIPS 180-2, in full: the number is the length in bits modulo 2^64. */
  lemma FipsPaddedIs(msg: seq<Byte>)
    ensures
      var p := FipsPadded(msg);
      && |p| % 64 == 0 && |msg| + 9 <= |p| < |msg| + 9 + 64
      && p[..|msg|] == msg && p[|msg|] == 0x80 && (forall i :: |msg| < i < |p| - 8 ==> p[i] == 0)
      && var n := 8 * |msg| % 0x1_0000_0000_0000_0000;
         p[|p| - 8..] == [Digit(n, 7), Digit(n, 6), Digit(n, 5), Digit(n, 4),
                          Digit(n, 3), Digit(n, 2), Digit(n, 1), Digit(n, 0)]
  {
    hide Padded, Digit;
    PaddedIs(msg, 8 * |msg| / TWO32 % TWO32, 8 * |msg| % TWO32);
    TwoWords(8 * |msg|);
  }

  lemma TwoWords(x: nat)
    ensures TWO32 * (x / TWO32 % TWO32) + x % TWO32 == x % 0x1_0000_0000_0000_0000
  {
    var q, r := x / TWO32, x % TWO32;
    var k, g := q / TWO32, q % TWO32;
    assert x == TWO32 * q + r && q == TWO32 * k + g;
    assert x == 0x1_0000_0000_0000_0000 * k + (TWO32 * g + r);
    assert TWO32 * g + r < 0x1_0000_0000_0000_0000;
  }

  // ---- the count

  /** The low word of the count gives the fill of the buffer. */
  lemma IndexFromCount(m: nat)
    ensures 8 * m % TWO32 / 8 % 64 == m % 64
  {
    var q, r := m / TWO29, m % TWO29;
    assert m == TWO29 * q + r;
    EightTimes(q, r);
    SixtyFour(q, r);
  }

  lemma EightTimes(q: nat, r: nat)
    requires r < TWO29
    ensures 8 * (TWO29 * q + r) % TWO32 == 8 * r
  {
    assert 8 * (TWO29 * q + r) == TWO32 * q + 8 * r;
  }

  lemma SixtyFour(q: nat, r: nat)
    ensures (TWO29 * q + r) % 64 == r % 64 && 8 * r / 8 == r
  {
    assert TWO29 * q + r == 64 * (0x80_0000 * q) + r;
  }

  /** The two words after adding len bytes, as the update code computes them. */
  function AddLow(low: nat, len: nat): nat
  {
    (low + 8 * len % TWO32) % TWO32
  }

  function AddHigh(high: nat, low: nat, len: nat): nat
  {
    if AddLow(low, len) < 8 * len % TWO32 then ((high + 1) % TWO32 + len / TWO29) % TWO32 else high
  }

  /** A carry out of the low word. */
  predicate Carry(low: nat, len: nat)
  {
    low + 8 * len % TWO32 >= TWO32
  }

  lemma LowRight(m: nat, len: nat)
    ensures AddLow(8 * m % TWO32, len) == 8 * (m + len) % TWO32
  {
  }

  /** The high word stays right exactly if the piece is shorter than 2^29 bytes or the low word carries. */
  lemma HighRight(m: nat, len: nat)
    requires len < TWO32
    ensures
      var low, high := 8 * m % TWO32, 8 * m / TWO32 % TWO32;
      AddHigh(high, low, len) == 8 * (m + len) / TWO32 % TWO32 <==> len < TWO29 || Carry(low, len)
  {
    var q, low := 8 * m / TWO32, 8 * m % TWO32;
    var t, u := len / TWO29, 8 * len % TWO32;
    TimesEight(len);
    NewHigh(q, low, t, u);
    CarryTest(low, u);
    Together(q, t);
    assert 8 * (m + len) == (TWO32 * q + low) + (TWO32 * t + u);
  }

  /** A first piece of 2^29 bytes: the count should be 2^32 and is 0. */
  lemma HighWrong()
    ensures AddHigh(0, 0, TWO29) == 0 && AddLow(0, TWO29) == 0 && 8 * TWO29 / TWO32 % TWO32 == 1
  {
    HighRight(0, TWO29);
  }

  lemma TimesEight(len: nat)
    requires len < TWO32
    ensures 8 * len == TWO32 * (len / TWO29) + 8 * len % TWO32 && len / TWO29 < 8
  {
    var t, r := len / TWO29, len % TWO29;
    assert len == TWO29 * t + r;
    assert 8 * len == TWO32 * t + 8 * r;
  }

  lemma NewHigh(q: nat, low: nat, t: nat, u: nat)
    requires low < TWO32 && u < TWO32
    ensures ((TWO32 * q + low) + (TWO32 * t + u)) / TWO32 == q + t + if low + u >= TWO32 then 1 else 0
  {
  }

  lemma CarryTest(low: nat, u: nat)
    requires low < TWO32 && u < TWO32
    ensures (low + u) % TWO32 < u <==> low + u >= TWO32
  {
  }

  lemma Together(q: nat, t: nat)
    requires t < 8
    ensures ((q % TWO32 + 1) % TWO32 + t) % TWO32 == (q + t + 1) % TWO32
    ensures q % TWO32 == (q + t) % TWO32 <==> t == 0
  {
    var k, g := q / TWO32, q % TWO32;
    assert q == TWO32 * k + g;
    Wraps(k, g + t + 1);
    Wraps(k, g + t);
    assert q + t + 1 == TWO32 * k + (g + t + 1) && q + t == TWO32 * k + (g + t);
  }

  lemma Wraps(k: nat, x: nat)
    ensures (TWO32 * k + x) % TWO32 == x % TWO32
  {
  }

  // ---- the block loop

  /** Where the block loop of an update of len bytes after m bytes stops. */
  function LoopEnd(m: nat, len: nat): int
  {
    len - (m + len) % 64
  }

  /** The length is an unsigned int, and the loop counter plus 63 does not wrap before the loop stops. */
  predicate InRange(m: nat, len: nat)
  {
    len < TWO32 && (len < 64 - m % 64 || LoopEnd(m, len) + 63 < TWO32)
  }

  /** Otherwise the loop does not stop there: its test holds although less than a block is left. */
  lemma PastEnd(m: nat, len: nat)
    requires len < TWO32 && !InRange(m, len)
    ensures var i := LoopEnd(m, len); i >= 0 && (i + 63) % TWO32 < len < i + 64
  {
  }

  /** A piece that comes after m bytes and leaves the count right. */
  predicate RightPiece(m: nat, len: nat)
  {
    InRange(m, len) && (len < TWO29 || Carry(8 * m % TWO32, len))
  }

  lemma ShortPiece(m: nat, len: nat)
    requires len < TWO29
    ensures RightPiece(m, len)
  {
  }

  /** i bytes after m bytes, a block begins. */
  predicate BlockStart(m: nat, i: nat)
  {
    (m + i) % 64 == 0
  }

  lemma FirstStart(m: nat)
    ensures BlockStart(m, 64 - m % 64)
  {
  }

  lemma NextStart(m: nat, i: nat)
    requires BlockStart(m, i)
    ensures BlockStart(m, i + 64)
  {
  }

  /** The loop test does not wrap at any place where a block may begin. */
  lemma NoWrap(m: nat, len: nat, i: nat)
    requires InRange(m, len) && 64 - m % 64 <= i <= len && BlockStart(m, i)
    ensures (i + 63) % TWO32 == i + 63
  {
    assert i <= LoopEnd(m, len);
  }

  // ---- the context

  class Context<S> {
    const mix: Mix<S>
    const start: S
    const store: S -> seq<Byte>
    var low: nat
    var high: nat
    var state: S
    const buf: array<Byte>
    ghost var msg: seq<Byte>

    /** The state has absorbed the whole blocks of the message and the buffer holds its tail. */
    ghost predicate Buffered()
      reads this, buf
    {
      && buf.Length == 128 && state == Fold(mix, 64, start, msg)
      && |Tail(64, msg)| <= 64 && buf[..|Tail(64, msg)|] == Tail(64, msg)
    }

    ghost predicate Valid()
      reads this, buf
    {
      Buffered() && low == 8 * |msg| % TWO32
    }

    /** The high word of the count of bits is right too. */
    ghost predicate CountOk()
      reads this
    {
      high == 8 * |msg| / TWO32 % TWO32
    }

    /** sha256_init. */
    constructor (f: Mix<S>, iv: S, digest: S -> seq<Byte>)
      ensures Valid() && CountOk() && msg == [] && mix == f && start == iv && store == digest && fresh(buf)
    {
      mix, start, store := f, iv, digest;
      low, high, state := 0, 0, iv;
      buf := new Byte[128](i => 0);
      msg := [];
    }

    method Reset()
      requires buf.Length == 128
      modifies this, buf
      ensures Valid() && CountOk() && msg == [] && forall i :: 0 <= i < buf.Length ==> buf[i] == 0
    {
      low, high, state := 0, 0, start;
      forall i | 0 <= i < buf.Length {
        buf[i] := 0;
      }
      msg := [];
    }

    method Copy(at: nat, data: seq<Byte>)
      requires at + |data| <= buf.Length
      modifies buf
      ensures buf[..at] == old(buf[..at]) && buf[at..at + |data|] == data
    {
      for i := 0 to |data|
        invariant forall j :: 0 <= j < at ==> buf[j] == old(buf[j])
        invariant forall j :: 0 <= j < i ==> buf[at + j] == data[j]
      {
        buf[at + i] := data[i];
      }
    }

    /** The blocks of an update: the first one completes the buffer, the others are taken from the data. */
    method Absorb(data: seq<Byte>, index: nat) returns (i: nat)
      requires Buffered() && index == |Tail(64, msg)| == |msg| % 64 && |data| >= 64 - index && InRange(|msg|, |data|)
      modifies `state, buf
      ensures i <= |data| < i + 64 && state == Fold(mix, 64, start, msg + data) && data[i..] == Tail(64, msg + data)
    {
      hide Fold, Tail, InRange, BlockStart;
      FirstStart(|msg|);
      var part := 64 - index;
      ghost var tail := Tail(64, msg);
      Copy(index, data[..part]);
      assert buf[..64] == tail + data[..part];
      assert tail + data == (tail + data[..part]) + data[part..];
      Merkle.Absorb(mix, 64, start, msg, data);
      FoldBlock(mix, 64, state, tail + data[..part], data[part..]);
      state := mix(state, buf[..64]);
      i := part;
      NoWrap(|msg|, |data|, i);
      while (i + 63) % TWO32 < |data|
        invariant part <= i <= |data| && BlockStart(|msg|, i) && (i + 63) % TWO32 == i + 63
        invariant Fold(mix, 64, start, msg + data) == Fold(mix, 64, state, data[i..])
        invariant Tail(64, msg + data) == Tail(64, data[i..])
      {
        assert data[i..] == data[i..i + 64] + data[i + 64..];
        FoldBlock(mix, 64, state, data[i..i + 64], data[i + 64..]);
        state := mix(state, data[i..i + 64]);
        NextStart(|msg|, i);
        i := i + 64;
        NoWrap(|msg|, |data|, i);
      }
      FoldShort(mix, 64, state, data[i..]);
    }

    /** The count of bits goes up, in two words. */
    method AddCount(len: nat)
      requires low == 8 * |msg| % TWO32 && len < TWO32
      modifies `low, `high
      ensures low == 8 * (|msg| + len) % TWO32 && high == AddHigh(old(high), old(low), len)
    {
      LowRight(|msg|, len);
      var add := 8 * len % TWO32;
      low := (low + add) % TWO32;
      if low < add {
        high := (high + 1) % TWO32;
        high := (high + len / TWO29) % TWO32;
      }
    }

    /** Whole blocks are folded, the first of them with what the buffer holds, and the rest is kept in the buffer. */
    method Take(data: seq<Byte>, index: nat)
      requires Buffered() && InRange(|msg|, |data|) && index == |Tail(64, msg)| == |msg| % 64
      modifies `state, `msg, buf
      ensures Buffered() && msg == old(msg) + data
    {
      hide Fold, Tail, InRange;
      ghost var tail := Tail(64, msg);
      var i, at := 0, index;
      if |data| >= 64 - index {
        i := Absorb(data, index);
        at := 0;
      } else {
        Merkle.Absorb(mix, 64, start, msg, data);
        FoldShort(mix, 64, state, tail + data);
      }
      ghost var kept := buf[..at];
      Copy(at, data[i..]);
      msg := msg + data;
      assert buf[..at + |data[i..]|] == kept + data[i..];
    }

    /** sha256_update. */
    method Update(data: seq<Byte>)
      requires Valid() && InRange(|msg|, |data|)
      modifies this, buf
      ensures Valid() && msg == old(msg) + data
      ensures high == AddHigh(old(high), old(low), |data|)
      ensures old(CountOk()) ==> (CountOk() <==> |data| < TWO29 || Carry(old(low), |data|))
    {
      assert |data| < TWO32;
      IndexFromCount(|msg|);
      TailLength64(msg);
      HighRight(|msg|, |data|);
      hide Fold, Tail, InRange, Carry, AddHigh;
      var index := low / 8 % 64;
      AddCount(|data|);
      Take(data, index);
    }

    /** sha256_final: the padding and the count of bits as it was before the padding. */
    method Final() returns (out: seq<Byte>)
      requires Valid()
      modifies this, buf
      ensures out == store(Fold(mix, 64, start, Padded(old(msg), old(high), old(low))))
      ensures old(CountOk()) ==> out == store(Fold(mix, 64, start, FipsPadded(old(msg))))
    {
      hide Fold, Tail, BigEndian32;
      var bits := BigEndian32(high) + BigEndian32(low);
      EightBytes(high, low);
      IndexFromCount(|msg|);
      var index := low / 8 % 64;
      var padLength := if index < 56 then 56 - index else 64 + 56 - index;
      Update([0x80] + Zeros(padLength - 1));
      Update(bits);
      out := store(state);
    }
  }

  lemma EightBytes(high: nat, low: nat)
    ensures |BigEndian32(high) + BigEndian32(low)| == 8
  {
  }

  /**
    However a message is cut into pieces below 2^29 bytes, the digest is that of the whole message,
    padded by FIPS 180-2.
  */
  method Digest<S>(f: Mix<S>, iv: S, store: S -> seq<Byte>, pieces: seq<seq<Byte>>) returns (out: seq<Byte>)
    requires forall i :: 0 <= i < |pieces| ==> RightPiece(|Concat(pieces[..i])|, |pieces[i]|)
    ensures out == store(Fold(f, 64, iv, FipsPadded(Concat(pieces))))
  {
    hide Fold, Tail, AddHigh, FipsPadded;
    var ctx := new Context(f, iv, store);
    for n := 0 to |pieces|
      invariant fresh(ctx) && fresh(ctx.buf) && ctx.Valid() && ctx.CountOk() && ctx.msg == Concat(pieces[..n])
      invariant ctx.mix == f && ctx.start == iv && ctx.store == store
    {
      assert pieces[..n + 1][..n] == pieces[..n];
      ctx.Update(pieces[n]);
    }
    assert pieces[..|pieces|] == pieces;
    out := ctx.Final();
  }
}
