/**
  The bit-packed codec of squashfs: the packing macro of mksquashfs.h, the unpacking macro of
  read_fs.h and the structure layouts of squashfs_fs.h. A 64-bit value is its 64 bits, least
  significant first.
*/
module BitCodec {

  type Octet = bv8

  type Word64 = w: seq<bool> | |w| == 64 witness seq(64, i => false)

  /** The order of the packed bytes: a little-endian host packs big-endian bytes and the other way round. */
  datatype Order = BigEndian | LittleEndian

  datatype Field = Field(pos: nat, width: nat)

  // ---- bytes and their bits

  function Bit(b: Octet, i: nat): bool
    requires i < 8
  {
    b & (if i == 0 then 0x01 else if i == 1 then 0x02 else if i == 2 then 0x04 else if i == 3 then 0x08
         else if i == 4 then 0x10 else if i == 5 then 0x20 else if i == 6 then 0x40 else 0x80) != 0
  }

  function FromBits(s: seq<bool>): Octet
    requires |s| == 8
  {
    (if s[0] then 0x01 else 0) | (if s[1] then 0x02 else 0) | (if s[2] then 0x04 else 0) | (if s[3] then 0x08 else 0)
    | (if s[4] then 0x10 else 0) | (if s[5] then 0x20 else 0) | (if s[6] then 0x40 else 0) | (if s[7] then 0x80 else 0)
  }

  lemma BitFrom(s: seq<bool>, i: nat)
    requires |s| == 8 && i < 8
    ensures Bit(FromBits(s), i) == s[i]
  {
    if i == 0 {
    } else if i == 1 {
    } else if i == 2 {
    } else if i == 3 {
    } else if i == 4 {
    } else if i == 5 {
    } else if i == 6 {
    } else {
    }
  }

  lemma BitOr(a: Octet, b: Octet, i: nat)
    requires i < 8
    ensures Bit(a | b, i) == (Bit(a, i) || Bit(b, i))
  {
  }

  lemma SameBits(a: Octet, b: Octet)
    requires forall i :: 0 <= i < 8 ==> Bit(a, i) == Bit(b, i)
    ensures a == b
  {
    assert Bit(a, 0) == Bit(b, 0) && Bit(a, 1) == Bit(b, 1) && Bit(a, 2) == Bit(b, 2) && Bit(a, 3) == Bit(b, 3);
    assert Bit(a, 4) == Bit(b, 4) && Bit(a, 5) == Bit(b, 5) && Bit(a, 6) == Bit(b, 6) && Bit(a, 7) == Bit(b, 7);
  }

  // ---- words

  function ShiftLeft(x: Word64, s: nat): Word64
  {
    seq(64, i requires 0 <= i < 64 => i >= s && x[i - s])
  }

  function ShiftRight(x: Word64, s: nat): Word64
  {
    seq(64, i requires 0 <= i < 64 => i + s < 64 && x[i + s])
  }

  /** A byte of a word, by its significance. */
  function ByteOf(x: Word64, k: nat): Octet
    requires k < 8
  {
    FromBits(x[8 * k..8 * k + 8])
  }

  lemma ByteOfBit(x: Word64, k: nat, j: nat)
    requires k < 8 && j < 8
    ensures Bit(ByteOf(x, k), j) == x[8 * k + j]
  {
    hide Bit, FromBits;
    BitFrom(x[8 * k..8 * k + 8], j);
  }

  /** The word with one of its bytes replaced. */
  function WithByte(x: Word64, k: nat, b: Octet): Word64
    requires k < 8
  {
    seq(64, i requires 0 <= i < 64 => if i / 8 == k then Bit(b, i % 8) else x[i])
  }

  /** The significance of the byte k places below address &val + 7. */
  function Significance(order: Order, k: nat): (s: nat)
    requires k < 8
    ensures s < 8
  {
    if order.BigEndian? then 7 - k else k
  }

  /** SHIFT of the two macros. */
  function Shift(order: Order, f: Field): nat
    requires f.pos % 8 + f.width <= 64
  {
    if order.BigEndian? then 64 - f.width - f.pos % 8 else f.pos % 8
  }

  // ---- where a bit of a field lies

  /** Bit g of a buffer, counting from the most or the least significant bit of each byte. */
  function At(order: Order, d: seq<Octet>, g: nat): bool
    requires g < 8 * |d|
  {
    Bit(d[g / 8], InByte(order, g))
  }

  /** The buffer bit that holds bit i of the field. */
  function Place(order: Order, f: Field, i: nat): nat
    requires i < f.width
  {
    if order.BigEndian? then f.pos + f.width - 1 - i else f.pos + i
  }

  /** What the field contributes to buffer bit g. */
  function FieldBit(order: Order, f: Field, v: seq<bool>, g: nat): bool
    requires |v| == f.width
  {
    f.pos <= g < f.pos + f.width && v[if order.BigEndian? then f.pos + f.width - 1 - g else g - f.pos]
  }

  predicate Fits(f: Field, size: nat)
  {
    f.pos + f.width <= 8 * size && f.pos % 8 + f.width <= 64
  }

  /** A value of the field's width as a 64-bit word. */
  function Widen(v: seq<bool>): Word64
    requires |v| <= 64
  {
    v + seq(64 - |v|, i => false)
  }

  /** Bit j of byte k of the shifted value is what the field contributes there. */
  lemma ShiftedBit(order: Order, f: Field, v: seq<bool>, k: nat, j: nat)
    requires |v| == f.width && f.pos % 8 + f.width <= 64 && k < 8 && j < 8
    ensures Bit(ByteOf(ShiftLeft(Widen(v), Shift(order, f)), Significance(order, k)), j)
            == FieldBit(order, f, v, 8 * (f.pos / 8 + k) + if order.BigEndian? then 7 - j else j)
  {
    hide Bit, ByteOf;
    assert f.pos == 8 * (f.pos / 8) + f.pos % 8;
    ByteOfBit(ShiftLeft(Widen(v), Shift(order, f)), Significance(order, k), j);
  }

  /** The first k bytes of the value have been or-ed into the buffer from byte start on. */
  ghost predicate Ored(order: Order, was: seq<Octet>, now: seq<Octet>, val: Word64, start: nat, k: nat)
  {
    && |now| == |was| && k <= 8
    && forall i :: 0 <= i < |now| ==>
      now[i] == if start <= i < start + k then was[i] | ByteOf(val, Significance(order, i - start)) else was[i]
  }

  /** Bit g is bit g mod 8 of byte g div 8, counted from either end. */
  function InByte(order: Order, g: nat): (j: nat)
    ensures j < 8
  {
    if order.BigEndian? then 7 - g % 8 else g % 8
  }

  lemma InByteBack(order: Order, g: nat)
    ensures 8 * (g / 8) + (if order.BigEndian? then 7 - InByte(order, g) else InByte(order, g)) == g
  {
  }

  lemma OredBit(order: Order, f: Field, v: seq<bool>, was: seq<Octet>, now: seq<Octet>, k: nat, g: nat)
    requires |v| == f.width && Fits(f, |was|) && g < 8 * |was| && f.width + f.pos % 8 <= 8 * k
    requires Ored(order, was, now, ShiftLeft(Widen(v), Shift(order, f)), f.pos / 8, k)
    ensures At(order, now, g) == (At(order, was, g) || FieldBit(order, f, v, g))
  {
    hide Bit, Widen, ShiftLeft, ByteOf, Shift, Significance, InByte;
    var i, j, start := g / 8, InByte(order, g), f.pos / 8;
    if start <= i < start + k {
      BitOr(was[i], ByteOf(ShiftLeft(Widen(v), Shift(order, f)), Significance(order, i - start)), j);
      ShiftedBit(order, f, v, i - start, j);
      InByteBack(order, g);
    } else {
      OutsideBytes(f, k, g);
    }
  }

  lemma OutsideBytes(f: Field, k: nat, g: nat)
    requires f.width + f.pos % 8 <= 8 * k && !(f.pos / 8 <= g / 8 < f.pos / 8 + k)
    ensures !(f.pos <= g < f.pos + f.width)
  {
  }

  lemma OrStep(order: Order, was: seq<Octet>, now: seq<Octet>, val: Word64, start: nat, k: nat)
    requires Ored(order, was, now, val, start, k) && k < 8 && start + k < |was|
    ensures Ored(order, was, now[start + k := now[start + k] | ByteOf(val, Significance(order, k))], val, start, k + 1)
  {
    hide ByteOf, Significance;
  }

  /** What packing a field makes of the buffer. */
  ghost predicate Packs(order: Order, f: Field, v: seq<bool>, was: seq<Octet>, now: seq<Octet>)
  {
    && |v| == f.width && |now| == |was|
    && forall g :: 0 <= g < 8 * |was| ==> At(order, now, g) == (At(order, was, g) || FieldBit(order, f, v, g))
  }

  lemma OredPacks(order: Order, f: Field, v: seq<bool>, was: seq<Octet>, now: seq<Octet>, k: nat)
    requires |v| == f.width && Fits(f, |was|) && f.width + f.pos % 8 <= 8 * k
    requires Ored(order, was, now, ShiftLeft(Widen(v), Shift(order, f)), f.pos / 8, k)
    ensures Packs(order, f, v, was, now)
  {
    hide At, FieldBit;
    assert |now| == |was|;
    hide Ored;
    forall g | 0 <= g < 8 * |was|
      ensures At(order, now, g) == (At(order, was, g) || FieldBit(order, f, v, g))
    {
      OredBit(order, f, v, was, now, k, g);
    }
  }

  /** _SQUASHFS_SWAP of mksquashfs.h: the bits of one value are or-ed into the buffer. */
  method Pack(order: Order, f: Field, v: seq<bool>, d: array<Octet>)
    requires |v| == f.width && Fits(f, d.Length)
    modifies d
    ensures Packs(order, f, v, old(d[..]), d[..])
  {
    hide Ored, Packs;
    var start := f.pos / 8;
    var val := ShiftLeft(Widen(v), Shift(order, f));
    ghost var was := d[..];
    OrStart(order, was, val, start);
    var bits, k := 0, 0;
    while bits < f.width + f.pos % 8
      invariant bits == 8 * k && bits < f.width + f.pos % 8 + 8
      invariant Ored(order, was, d[..], val, start, k)
    {
      hide ByteOf, Significance;
      ghost var before := d[..];
      OrStep(order, was, before, val, start, k);
      d[start + k] := d[start + k] | ByteOf(val, Significance(order, k));
      assert d[..] == before[start + k := d[start + k]];
      bits, k := bits + 8, k + 1;
    }
    OredPacks(order, f, v, was, d[..], k);
  }

  lemma OrStart(order: Order, was: seq<Octet>, val: Word64, start: nat)
    ensures Ored(order, was, was, val, start, 0)
  {
  }

  // ---- unpacking

  /** Bit i of the value read from the buffer: the wider result of the macro, cut to the field. */
  function Decode(order: Order, f: Field, s: seq<Octet>): seq<bool>
    requires Fits(f, |s|)
  {
    seq(f.width, i requires 0 <= i < f.width => At(order, s, Place(order, f, i)))
  }

  ghost predicate Loaded(order: Order, s: seq<Octet>, val: Word64, start: nat, k: nat)
  {
    k <= 8 && start + k <= |s| && forall i :: 0 <= i < k ==> ByteOf(val, Significance(order, i)) == s[start + i]
  }

  lemma WithByteOf(x: Word64, k: nat, b: Octet, j: nat)
    requires k < 8 && j < 8
    ensures ByteOf(WithByte(x, k, b), j) == if j == k then b else ByteOf(x, j)
  {
    hide Bit, ByteOf;
    var y := WithByte(x, k, b);
    forall i | 0 <= i < 8
      ensures Bit(ByteOf(y, j), i) == Bit(if j == k then b else ByteOf(x, j), i)
    {
      ByteOfBit(y, j, i);
      ByteOfBit(x, j, i);
    }
    SameBits(ByteOf(y, j), if j == k then b else ByteOf(x, j));
  }

  lemma LoadStep(order: Order, s: seq<Octet>, val: Word64, start: nat, k: nat)
    requires Loaded(order, s, val, start, k) && k < 8 && start + k < |s|
    ensures Loaded(order, s, WithByte(val, Significance(order, k), s[start + k]), start, k + 1)
  {
    hide ByteOf, WithByte;
    var val' := WithByte(val, Significance(order, k), s[start + k]);
    forall i | 0 <= i < k + 1
      ensures ByteOf(val', Significance(order, i)) == s[start + i]
    {
      WithByteOf(val, Significance(order, k), s[start + k], Significance(order, i));
    }
  }

  lemma LoadedBit(order: Order, f: Field, s: seq<Octet>, val: Word64, k: nat, i: nat)
    requires Fits(f, |s|) && Loaded(order, s, val, f.pos / 8, k) && f.width + f.pos % 8 <= 8 * k && i < f.width
    ensures ShiftRight(val, Shift(order, f))[i] == At(order, s, Place(order, f, i))
  {
    hide Bit, ByteOf;
    var g := Place(order, f, i);
    var b, at := g / 8 - f.pos / 8, InByte(order, g);
    PlaceInWord(order, f, i);
    ByteOfBit(val, Significance(order, b), at);
  }

  lemma PlaceInWord(order: Order, f: Field, i: nat)
    requires f.pos % 8 + f.width <= 64 && i < f.width
    ensures
      var g := Place(order, f, i);
      && 0 <= g / 8 - f.pos / 8 < 8 && 8 * (g / 8 - f.pos / 8) < f.pos % 8 + f.width
      && 8 * Significance(order, g / 8 - f.pos / 8) + InByte(order, g) == i + Shift(order, f)
  {
    var g := Place(order, f, i);
    assert f.pos == 8 * (f.pos / 8) + f.pos % 8 && g == 8 * (g / 8) + g % 8;
  }

  /** _SQUASHFS_SWAP of read_fs.h, with the truncation that assigning to the bit-field makes. */
  method Unpack(order: Order, f: Field, s: array<Octet>) returns (v: seq<bool>)
    requires Fits(f, s.Length)
    ensures v == Decode(order, f, s[..])
  {
    var start := f.pos / 8;
    var val: Word64 := seq(64, i => false);
    var bits, k := 0, 0;
    while bits < f.width + f.pos % 8
      invariant bits == 8 * k && bits < f.width + f.pos % 8 + 8
      invariant Loaded(order, s[..], val, start, k)
    {
      LoadStep(order, s[..], val, start, k);
      val := WithByte(val, Significance(order, k), s[start + k]);
      bits, k := bits + 8, k + 1;
    }
    v := ShiftRight(val, Shift(order, f))[..f.width];
    forall i | 0 <= i < f.width
      ensures v[i] == Decode(order, f, s[..])[i]
    {
      LoadedBit(order, f, s[..], val, k, i);
    }
  }

  // ---- layouts

  /** Every field fits and no two overlap. */
  ghost predicate Layout(fs: seq<Field>, size: nat)
  {
    && (forall i :: 0 <= i < |fs| ==> Fits(fs[i], size))
    && (forall i, j :: 0 <= i < j < |fs| ==> Apart(fs[i], fs[j]))
  }

  predicate Apart(f: Field, g: Field)
  {
    f.pos + f.width <= g.pos || g.pos + g.width <= f.pos
  }

  predicate Values(fs: seq<Field>, vs: seq<seq<bool>>)
  {
    |vs| == |fs| && forall i :: 0 <= i < |fs| ==> |vs[i]| == fs[i].width
  }

  /** Buffer bit g after the first n fields have been packed into zeroes. */
  predicate PackedBit(order: Order, fs: seq<Field>, vs: seq<seq<bool>>, n: nat, g: nat)
    requires Values(fs, vs) && n <= |fs|
  {
    n > 0 && (PackedBit(order, fs, vs, n - 1, g) || FieldBit(order, fs[n - 1], vs[n - 1], g))
  }

  ghost predicate PackedUpTo(order: Order, fs: seq<Field>, vs: seq<seq<bool>>, n: nat, d: seq<Octet>)
  {
    && Values(fs, vs) && n <= |fs|
    && forall g :: 0 <= g < 8 * |d| ==> At(order, d, g) == PackedBit(order, fs, vs, n, g)
  }

  lemma {:induction false} PackedElsewhere(order: Order, fs: seq<Field>, vs: seq<seq<bool>>, n: nat, g: nat)
    requires Values(fs, vs) && n <= |fs|
    requires forall i :: 0 <= i < n ==> !(fs[i].pos <= g < fs[i].pos + fs[i].width)
    ensures !PackedBit(order, fs, vs, n, g)
  {
    if n > 0 {
      PackedElsewhere(order, fs, vs, n - 1, g);
    }
  }

  /** A bit inside field i is the bit of value i, whatever the other fields hold. */
  lemma {:induction false} PackedInField(order: Order, fs: seq<Field>, vs: seq<seq<bool>>, size: nat, n: nat, i: nat,
                                         g: nat)
    requires Layout(fs, size) && Values(fs, vs) && i < n <= |fs| && fs[i].pos <= g < fs[i].pos + fs[i].width
    ensures PackedBit(order, fs, vs, n, g) == FieldBit(order, fs[i], vs[i], g)
  {
    if i == n - 1 {
      assert forall j :: 0 <= j < i ==> Apart(fs[j], fs[i]);
      PackedElsewhere(order, fs, vs, n - 1, g);
    } else {
      PackedInField(order, fs, vs, size, n - 1, i, g);
      assert Apart(fs[i], fs[n - 1]);
    }
  }

  /** Packing non-overlapping fields into zeroes and unpacking field i gives value i back, in either order. */
  lemma RoundTrip(order: Order, fs: seq<Field>, vs: seq<seq<bool>>, d: seq<Octet>, i: nat)
    requires Layout(fs, |d|) && PackedUpTo(order, fs, vs, |fs|, d) && i < |fs|
    ensures Decode(order, fs[i], d) == vs[i]
  {
    hide At, PackedBit;
    forall k | 0 <= k < fs[i].width
      ensures Decode(order, fs[i], d)[k] == vs[i][k]
    {
      var g := Place(order, fs[i], k);
      PackedInField(order, fs, vs, |d|, |fs|, i, g);
      assert At(order, d, g) == PackedBit(order, fs, vs, |fs|, g);
    }
  }

  /** A structure macro of squashfs_fs.h in its packing form: clear the bytes, then pack each field. */
  method PackAll(order: Order, fs: seq<Field>, vs: seq<seq<bool>>, d: array<Octet>)
    requires Layout(fs, d.Length) && Values(fs, vs)
    modifies d
    ensures PackedUpTo(order, fs, vs, |fs|, d[..])
  {
    for i := 0 to d.Length
      invariant forall j :: 0 <= j < i ==> d[j] == 0
    {
      d[i] := 0;
    }
    for i := 0 to |fs|
      invariant PackedUpTo(order, fs, vs, i, d[..])
    {
      hide FieldBit, At;
      Pack(order, fs[i], vs[i], d);
    }
  }

  /** The same macro in its unpacking form. */
  method UnpackAll(order: Order, fs: seq<Field>, d: array<Octet>) returns (vs: seq<seq<bool>>)
    requires Layout(fs, d.Length)
    ensures |vs| == |fs| && forall i :: 0 <= i < |fs| ==> vs[i] == Decode(order, fs[i], d[..])
  {
    vs := [];
    for i := 0 to |fs|
      invariant |vs| == i && forall j :: 0 <= j < i ==> vs[j] == Decode(order, fs[j], d[..])
    {
      hide Decode;
      var v := Unpack(order, fs[i], d);
      vs := vs + [v];
    }
  }

  /** Packing and unpacking a whole structure. */
  method PackUnpack(order: Order, fs: seq<Field>, vs: seq<seq<bool>>, d: array<Octet>) returns (ws: seq<seq<bool>>)
    requires Layout(fs, d.Length) && Values(fs, vs)
    modifies d
    ensures ws == vs
  {
    PackAll(order, fs, vs, d);
    ws := UnpackAll(order, fs, d);
    hide PackedUpTo, Decode, Layout;
    forall i | 0 <= i < |fs|
      ensures ws[i] == vs[i]
    {
      RoundTrip(order, fs, vs, d[..], i);
    }
  }

  // ---- the layouts of squashfs_fs.h

  const SUPER_BLOCK: seq<Field> := [
    Field(0, 32), Field(32, 32), Field(64, 32), Field(96, 32), Field(128, 32), Field(160, 32), Field(192, 32),
    Field(224, 16), Field(240, 16), Field(256, 16), Field(272, 16), Field(288, 8), Field(296, 8), Field(304, 8),
    Field(312, 32), Field(344, 64), Field(408, 32), Field(440, 32), Field(472, 32)]
  const BASE_INODE: seq<Field> := [Field(0, 4), Field(4, 12), Field(16, 8), Field(24, 8)]
  const DEV_INODE: seq<Field> := BASE_INODE + [Field(32, 16)]
  const SYMLINK_INODE: seq<Field> := BASE_INODE + [Field(32, 16)]
  const REG_INODE: seq<Field> := BASE_INODE + [Field(32, 32), Field(64, 32), Field(96, 32), Field(128, 32),
    Field(160, 32)]
  const DIR_INODE: seq<Field> := BASE_INODE + [Field(32, 19), Field(51, 13), Field(64, 32), Field(96, 24)]
  const DIR_HEADER: seq<Field> := [Field(0, 8), Field(8, 24)]
  const DIR_ENTRY: seq<Field> := [Field(0, 13), Field(13, 3), Field(16, 8)]
  const FRAGMENT_ENTRY: seq<Field> := [Field(0, 32), Field(32, 32)]

  /** SQUASHFS_SWAP_SHORTS, SQUASHFS_SWAP_INTS and SQUASHFS_SWAP_DATA: n fields of one width in a row. */
  function Row(n: nat, width: nat): seq<Field>
  {
    seq(n, i requires 0 <= i < n => Field(width * i, width))
  }

  /** Fields that follow one another. */
  ghost predicate Consecutive(fs: seq<Field>)
  {
    forall i :: 0 < i < |fs| ==> fs[i].pos == fs[i - 1].pos + fs[i - 1].width
  }

  /** The fields start at the first bit, follow one another, and have these widths. */
  ghost predicate Members(fs: seq<Field>, widths: seq<nat>)
  {
    && |fs| == |widths| > 0 && fs[0].pos == 0
    && (forall i :: 0 <= i < |fs| ==> fs[i].width == widths[i])
    && (forall i :: 0 < i < |fs| ==> fs[i].pos == fs[i - 1].pos + fs[i - 1].width)
  }

  /** The positions of the macros are those of the packed structures, member by member as they are declared. */
  lemma LayoutsAre()
    ensures Members(BASE_INODE, [4, 12, 8, 8]) && Members(DEV_INODE, [4, 12, 8, 8, 16])
    ensures Members(SYMLINK_INODE, [4, 12, 8, 8, 16]) && Members(DIR_INODE, [4, 12, 8, 8, 19, 13, 32, 24])
    ensures Members(REG_INODE, [4, 12, 8, 8, 32, 32, 32, 32, 32])
    ensures Members(DIR_HEADER, [8, 24]) && Members(DIR_ENTRY, [13, 3, 8]) && Members(FRAGMENT_ENTRY, [32, 32])
  {
  }

  lemma SuperBlockIs()
    ensures Members(SUPER_BLOCK, [32, 32, 32, 32, 32, 32, 32, 16, 16, 16, 16, 8, 8, 8, 32, 64, 32, 32, 32])
  {
  }

  lemma {:induction false} ConsecutiveAfter(fs: seq<Field>, i: nat, j: nat)
    requires Consecutive(fs) && i < j < |fs|
    ensures fs[i].pos + fs[i].width <= fs[j].pos
  {
    if i + 1 < j {
      ConsecutiveAfter(fs, i, j - 1);
    }
  }

  lemma ConsecutiveLayout(fs: seq<Field>, size: nat)
    requires Consecutive(fs) && |fs| > 0
    requires forall i :: 0 <= i < |fs| ==> fs[i].pos % 8 + fs[i].width <= 64
    requires fs[|fs| - 1].pos + fs[|fs| - 1].width <= 8 * size
    ensures Layout(fs, size)
  {
    forall i | 0 <= i < |fs|
      ensures Fits(fs[i], size)
    {
      if i < |fs| - 1 {
        ConsecutiveAfter(fs, i, |fs| - 1);
      }
    }
    forall i, j | 0 <= i < j < |fs|
      ensures Apart(fs[i], fs[j])
    {
      ConsecutiveAfter(fs, i, j);
    }
  }

  /** The structures of the header are such layouts, each within the size of its structure. */
  lemma SuperBlockLayout()
    ensures Layout(SUPER_BLOCK, 63)
  {
    hide Layout;
    ConsecutiveLayout(SUPER_BLOCK, 63);
  }

  lemma InodeLayouts()
    ensures Layout(BASE_INODE, 4) && Layout(DEV_INODE, 6) && Layout(SYMLINK_INODE, 6)
  {
    hide Layout;
    ConsecutiveLayout(BASE_INODE, 4);
    ConsecutiveLayout(DEV_INODE, 6);
    ConsecutiveLayout(SYMLINK_INODE, 6);
  }

  lemma FileLayouts()
    ensures Layout(REG_INODE, 24) && Layout(DIR_INODE, 15)
  {
    hide Layout;
    ConsecutiveLayout(REG_INODE, 24);
    ConsecutiveLayout(DIR_INODE, 15);
  }

  lemma DirectoryLayouts()
    ensures Layout(DIR_HEADER, 4) && Layout(DIR_ENTRY, 3) && Layout(FRAGMENT_ENTRY, 8)
  {
    hide Layout;
    ConsecutiveLayout(DIR_HEADER, 4);
    ConsecutiveLayout(DIR_ENTRY, 3);
    ConsecutiveLayout(FRAGMENT_ENTRY, 8);
  }

  /** The array macros use layouts too, for elements of 8, 16 or 32 bits. */
  lemma RowLayout(n: nat, bytes: nat)
    requires 0 < bytes <= 8
    ensures Layout(Row(n, 8 * bytes), n * bytes)
  {
    var fs := Row(n, 8 * bytes);
    forall i | 0 <= i < n
      ensures fs[i].pos % 8 == 0 && (i > 0 ==> fs[i].pos == fs[i - 1].pos + fs[i - 1].width)
    {
      assert 8 * bytes * i == 8 * (bytes * i);
      assert i > 0 ==> 8 * bytes * i == 8 * bytes * (i - 1) + 8 * bytes;
    }
    if n > 0 {
      assert 8 * bytes * (n - 1) + 8 * bytes == 8 * (n * bytes);
      ConsecutiveLayout(fs, n * bytes);
    }
  }

  // ---- structures as values

  /** The bytes of a packed structure. */
  function Encode(order: Order, fs: seq<Field>, vs: seq<seq<bool>>, size: nat): (d: seq<Octet>)
    requires Values(fs, vs)
    ensures |d| == size
  {
    seq(size, i requires 0 <= i < size =>
      FromBits(seq(8, j requires 0 <= j < 8 =>
        PackedBit(order, fs, vs, |fs|, 8 * i + if order.BigEndian? then 7 - j else j))))
  }

  lemma {:induction false} EncodeBit(order: Order, fs: seq<Field>, vs: seq<seq<bool>>, size: nat, i: nat, j: nat)
    requires Values(fs, vs) && i < size && j < 8
    ensures Bit(Encode(order, fs, vs, size)[i], j)
            == PackedBit(order, fs, vs, |fs|, 8 * i + if order.BigEndian? then 7 - j else j)
  {
    hide PackedBit, Bit, FromBits;
    BitFrom(seq(8, b requires 0 <= b < 8 => PackedBit(order, fs, vs, |fs|, 8 * i + if order.BigEndian? then 7 - b
      else b)), j);
  }

  lemma EncodePacked(order: Order, fs: seq<Field>, vs: seq<seq<bool>>, size: nat)
    requires Values(fs, vs)
    ensures PackedUpTo(order, fs, vs, |fs|, Encode(order, fs, vs, size))
  {
    hide PackedBit, Bit, FromBits;
    var d := Encode(order, fs, vs, size);
    forall g | 0 <= g < 8 * size
      ensures At(order, d, g) == PackedBit(order, fs, vs, |fs|, g)
    {
      EncodeBit(order, fs, vs, size, g / 8, if order.BigEndian? then 7 - g % 8 else g % 8);
      assert 8 * (g / 8) + g % 8 == g;
    }
  }

  lemma BitIs(b: Octet, i: nat)
    requires i < 8
    ensures Bit(b, i) == ((b >> i) & 1 == 1)
  {
  }

  /**
    Where bit k of value i lies in a packed structure: in little-endian order pos + k bits from the
    start, counting from the least significant bit of each byte; in big-endian order the value has its
    most significant bit first, counting from the most significant bit of each byte.
  */
  lemma EncodedBit(order: Order, fs: seq<Field>, vs: seq<seq<bool>>, size: nat, i: nat, k: nat)
    requires Layout(fs, size) && Values(fs, vs) && i < |fs| && k < fs[i].width
    ensures
      var d, low, high := Encode(order, fs, vs, size), fs[i].pos + k, fs[i].pos + fs[i].width - 1 - k;
      && low / 8 < size && high / 8 < size
      && vs[i][k] == if order.LittleEndian? then Bit(d[low / 8], low % 8) else Bit(d[high / 8], 7 - high % 8)
  {
    hide Bit, Encode, PackedUpTo;
    EncodePacked(order, fs, vs, size);
    RoundTrip(order, fs, vs, Encode(order, fs, vs, size), i);
    assert Decode(order, fs[i], Encode(order, fs, vs, size))[k] == vs[i][k];
  }

  /** The packed bytes are all there is to say about a buffer the fields were packed into. */
  lemma PackedIsEncode(order: Order, fs: seq<Field>, vs: seq<seq<bool>>, d: seq<Octet>)
    requires PackedUpTo(order, fs, vs, |fs|, d)
    ensures d == Encode(order, fs, vs, |d|)
  {
    assert Values(fs, vs);
    hide PackedBit, PackedUpTo;
    forall i | 0 <= i < |d|
      ensures d[i] == Encode(order, fs, vs, |d|)[i]
    {
      PackedByte(order, fs, vs, d, i);
    }
  }

  lemma PackedByte(order: Order, fs: seq<Field>, vs: seq<seq<bool>>, d: seq<Octet>, i: nat)
    requires PackedUpTo(order, fs, vs, |fs|, d) && i < |d|
    ensures d[i] == Encode(order, fs, vs, |d|)[i]
  {
    hide PackedBit, Bit, Encode;
    var e := Encode(order, fs, vs, |d|)[i];
    forall j | 0 <= j < 8
      ensures Bit(d[i], j) == Bit(e, j)
    {
      var g := 8 * i + if order.BigEndian? then 7 - j else j;
      EncodeBit(order, fs, vs, |d|, i, j);
      assert At(order, d, g) == PackedBit(order, fs, vs, |fs|, g);
    }
    SameBits(d[i], e);
  }

  /** Packing a structure into bytes of its own. */
  method PackStruct(order: Order, fs: seq<Field>, vs: seq<seq<bool>>, size: nat) returns (b: seq<Octet>)
    requires Layout(fs, size) && Values(fs, vs)
    ensures b == Encode(order, fs, vs, size)
  {
    hide PackedUpTo, Encode, Layout;
    var d := new Octet[size];
    PackAll(order, fs, vs, d);
    PackedIsEncode(order, fs, vs, d[..]);
    b := d[..];
  }

  // ---- numbers

  function Power2(n: nat): nat
  {
    if n == 0 then 1 else 2 * Power2(n - 1)
  }

  /** The low n bits of a number, least significant first. */
  function Bits(v: nat, n: nat): (b: seq<bool>)
    ensures |b| == n
  {
    if n == 0 then [] else [v % 2 == 1] + Bits(v / 2, n - 1)
  }

  function Number(b: seq<bool>): nat
  {
    if b == [] then 0 else (if b[0] then 1 else 0) + 2 * Number(b[1..])
  }

  /** A field of n bits holds any number below 2^n. */
  lemma {:induction false} NumberBits(v: nat, n: nat)
    requires v < Power2(n)
    ensures Number(Bits(v, n)) == v
  {
    if n > 0 {
      NumberBits(v / 2, n - 1);
      assert Bits(v, n)[1..] == Bits(v / 2, n - 1);
    }
  }

  /** A field of n bits keeps a number modulo 2^n. */
  lemma {:induction false} NumberBitsCut(v: nat, n: nat)
    ensures Power2(n) > 0 && Number(Bits(v, n)) == v % Power2(n)
  {
    if n > 0 {
      NumberBitsCut(v / 2, n - 1);
      assert Bits(v, n)[1..] == Bits(v / 2, n - 1);
      var p := Power2(n - 1);
      CutHalf(v, p);
    }
  }

  lemma CutHalf(v: nat, p: nat)
    requires p > 0
    ensures v % (2 * p) == v % 2 + 2 * ((v / 2) % p)
  {
    var q, r := v / 2 / p, (v / 2) % p;
    assert v == 2 * (p * q + r) + v % 2;
    assert v == (2 * p) * q + (2 * r + v % 2) by { assert 2 * (p * q) == (2 * p) * q; }
    Remainder(v, 2 * p, q, 2 * r + v % 2);
  }

  lemma Remainder(v: nat, m: nat, q: nat, r: nat)
    requires r < m && v == m * q + r
    ensures v % m == r
  {
    TimesMore(m, v / m, q);
    TimesMore(m, q, v / m);
  }

  lemma TimesMore(m: nat, a: nat, b: nat)
    ensures a < b ==> m * a + m <= m * b
  {
    if a < b {
      assert m * b == m * a + m * (b - a);
      assert m * (b - a) == m + m * (b - a - 1);
    }
  }

  lemma ModSmall(v: nat, m: nat)
    requires m > 0
    ensures v % m == v <==> v < m
  {
  }

  lemma Powers()
    ensures Power2(3) == 8 && Power2(8) == 256 && Power2(13) == 8192 && Power2(16) == 65536 && Power2(24) == 16777216
  {
    assert Power2(3) == 8;
    assert Power2(8) == 32 * Power2(3) by { assert Power2(5) == 4 * Power2(3); assert Power2(7) == 4 * Power2(5); }
    assert Power2(13) == 32 * Power2(8) by { assert Power2(10) == 4 * Power2(8); assert Power2(12) == 4 * Power2(10); }
    assert Power2(16) == 8 * Power2(13) by { assert Power2(15) == 4 * Power2(13); }
    assert Power2(24) == 256 * Power2(16) by {
      assert Power2(18) == 4 * Power2(16);
      assert Power2(20) == 4 * Power2(18);
      assert Power2(22) == 4 * Power2(20);
      assert Power2(24) == 4 * Power2(22);
    }
  }
}
