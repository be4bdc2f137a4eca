/**
  Hashing by blocks: what a digest absorbs in pieces is the same as what it would absorb at once.
  The function that mixes one block into the state is a parameter.
*/
module Merkle {

  type Byte = bv8

  type Mix<!S> = (S, seq<Byte>) -> S

  /** The state after the whole blocks of a message. */
  function Fold<S>(f: Mix<S>, n: nat, h: S, s: seq<Byte>): S
    decreases |s|
  {
    if n == 0 || |s| < n then h else Fold(f, n, f(h, s[..n]), s[n..])
  }

  /** The bytes after the last whole block. */
  function Tail(n: nat, s: seq<Byte>): seq<Byte>
    decreases |s|
  {
    if n == 0 || |s| < n then s else Tail(n, s[n..])
  }

  lemma {:induction false} TailShort(n: nat, s: seq<Byte>)
    requires n > 0
    ensures |Tail(n, s)| < n && |Tail(n, s)| <= |s|
    decreases |s|
  {
    if |s| >= n {
      TailShort(n, s[n..]);
    }
  }

  /** Only the tail of what came before matters for what comes next. */
  lemma {:induction false} Absorb<S>(f: Mix<S>, n: nat, h: S, a: seq<Byte>, b: seq<Byte>)
    requires n > 0
    ensures Fold(f, n, h, a + b) == Fold(f, n, Fold(f, n, h, a), Tail(n, a) + b)
    ensures Tail(n, a + b) == Tail(n, Tail(n, a) + b)
    decreases |a|
  {
    if |a| >= n {
      assert (a + b)[..n] == a[..n] && (a + b)[n..] == a[n..] + b;
      Absorb(f, n, f(h, a[..n]), a[n..], b);
    }
  }

  /** One block, then the rest. */
  lemma {:induction false} FoldBlock<S>(f: Mix<S>, n: nat, h: S, a: seq<Byte>, b: seq<Byte>)
    requires n > 0 && |a| == n
    ensures Fold(f, n, h, a + b) == Fold(f, n, f(h, a), b) && Tail(n, a + b) == Tail(n, b)
  {
    assert (a + b)[..n] == a && (a + b)[n..] == b;
  }

  lemma {:induction false} FoldShort<S>(f: Mix<S>, n: nat, h: S, a: seq<Byte>)
    requires n > 0 && |a| < n
    ensures Fold(f, n, h, a) == h && Tail(n, a) == a
  {
  }

  /** The length of the tail, for the two block sizes in use. */
  lemma {:induction false} TailLength64(s: seq<Byte>)
    ensures |Tail(64, s)| == |s| % 64
    decreases |s|
  {
    if |s| >= 64 {
      TailLength64(s[64..]);
    }
  }

  // ---- pieces of padding

  function Zeros(n: nat): seq<Byte>
  {
    seq(n, i => 0)
  }

  /** The low byte of a number. */
  function ByteOf(x: nat): Byte
  {
    (x % 256) as bv8
  }

  /** The k-th digit of a number in base 256, as a byte. */
  function Digit(x: nat, k: nat): Byte
  {
    if k == 0 then (x % 256) as Byte else Digit(x / 256, k - 1)
  }

  lemma {:induction false} DigitsOfWord(x: nat)
    ensures Digit(x, 0) == ByteOf(x) && Digit(x, 1) == ByteOf(x / 0x100)
    ensures Digit(x, 2) == ByteOf(x / 0x10000) && Digit(x, 3) == ByteOf(x / 0x1000000)
  {
    hide ByteOf;
    var a, b := x / 0x100, x / 0x10000;
    assert b == a / 256 && x / 0x1000000 == b / 256;
    DigitStep(x, 0);
    DigitStep(x, 1);
    DigitStep(a, 1);
    DigitStep(x, 2);
    DigitStep(a, 0);
    DigitStep(b, 0);
  }

  lemma {:induction false} DigitStep(x: nat, k: nat)
    ensures Digit(x, 0) == ByteOf(x) && Digit(x / 256, 0) == ByteOf(x / 256) && Digit(x, k + 1) == Digit(x / 256, k)
  {
  }

  /** The digits of two words are those of the number they make. */
  lemma {:induction false} DigitsOfTwo(high: nat, low: nat)
    requires low < 0x1_0000_0000
    ensures
      var x := 0x1_0000_0000 * high + low;
      && Digit(x, 0) == Digit(low, 0) && Digit(x, 1) == Digit(low, 1)
      && Digit(x, 2) == Digit(low, 2) && Digit(x, 3) == Digit(low, 3)
      && Digit(x, 4) == Digit(high, 0) && Digit(x, 5) == Digit(high, 1)
      && Digit(x, 6) == Digit(high, 2) && Digit(x, 7) == Digit(high, 3)
  {
    hide Digit;
    var x := 0x1_0000_0000 * high + low;
    Quarters(high, low);
    Down(x, 0);
    Down(x, 1);
    Down(x, 2);
    Down(x, 3);
    Down(low, 0);
    LowDigit(0x100_0000 * high, low);
    LowDigit(0x1_0000 * high, low / 256);
    LowDigit(0x100 * high, low / 256 / 256);
    LowDigit(high, low / 256 / 256 / 256);
  }

  lemma Quarters(high: nat, low: nat)
    requires low < 0x1_0000_0000
    ensures
      var x := 0x1_0000_0000 * high + low;
      && x / 256 == 256 * (0x1_0000 * high) + low / 256 && x / 256 / 256 == 256 * (0x100 * high) + low / 256 / 256
      && x / 256 / 256 / 256 == 256 * high + low / 256 / 256 / 256 && x / 256 / 256 / 256 / 256 == high
  {
    Over(0x100_0000 * high, low);
    Over(0x1_0000 * high, low / 256);
    Over(0x100 * high, low / 256 / 256);
    Over(high, low / 256 / 256 / 256);
  }

  lemma Over(a: nat, b: nat)
    ensures (256 * a + b) / 256 == a + b / 256
  {
  }

  lemma {:induction false} LowDigit(a: nat, b: nat)
    ensures Digit(256 * a + b, 0) == Digit(b, 0)
  {
    assert (256 * a + b) % 256 == b % 256;
  }

  lemma {:induction false} Down(x: nat, k: nat)
    requires k < 4
    ensures Digit(x, 1) == Digit(x / 256, 0) && Digit(x, 2) == Digit(x / 256 / 256, 0)
    ensures Digit(x, 3) == Digit(x / 256 / 256 / 256, 0)
    ensures Digit(x, k + 4) == Digit(x / 256 / 256 / 256 / 256, k)
  {
    DigitStep(x, 0);
    DigitStep(x, 1);
    DigitStep(x, 2);
    DigitStep(x / 256, 0);
    DigitStep(x / 256, 1);
    DigitStep(x / 256 / 256, 0);
    DigitStep(x, k + 3);
    DigitStep(x / 256, k + 2);
    DigitStep(x / 256 / 256, k + 1);
    DigitStep(x / 256 / 256 / 256, k);
  }

  /** How many bytes bring a message of this length to 56 modulo 64, at least one. */
  function PadLength(length: nat): nat
  {
    if length % 64 < 56 then 56 - length % 64 else 120 - length % 64
  }

  /** With eight bytes more the message is whole blocks. */
  lemma PadFits(length: nat)
    ensures 1 <= PadLength(length) <= 64 && (length + PadLength(length) + 8) % 64 == 0
  {
    var q, r := length / 64, length % 64;
    assert length == 64 * q + r;
    assert length + PadLength(length) + 8 == 64 * (q + 1) || length + PadLength(length) + 8 == 64 * (q + 2);
  }

  /** The message that a series of updates makes up. */
  function Concat(pieces: seq<seq<Byte>>): seq<Byte>
  {
    if pieces == [] then [] else Concat(pieces[..|pieces| - 1]) + pieces[|pieces| - 1]
  }
}
