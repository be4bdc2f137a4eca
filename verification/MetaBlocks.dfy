/**
  Metadata blocks of squashfs: how mksquashfs.c stores up to 8192 bytes behind a size header and
  how read_fs.c walks such blocks. The compressor is an abstract pair of functions.
*/
module MetaBlocks {
  import opened BitCodec

  const METADATA_SIZE := 8192
  const COMPRESSED_BIT := 0x8000

  /** What the superblock fixes: byte order, compression of metadata, marker bytes, and the compressor. */
  datatype Format = Format(order: Order, noI: bool, check: bool,
                           comp: seq<Octet> -> seq<Octet>, decomp: seq<Octet> -> seq<Octet>)

  /** The compressor is undone by the decompressor and never produces nothing. */
  ghost predicate Sound(f: Format)
  {
    forall x: seq<Octet> :: |x| > 0 ==> |f.comp(x)| > 0 && f.decomp(f.comp(x)) == x
  }

  /** block_offset: the header, and the marker byte when the filesystem has check data. */
  function BlockOffset(f: Format): (n: nat)
    ensures n >= 2
  {
    if f.check then 3 else 2
  }

  // ---- sizes

  /** SQUASHFS_COMPRESSED. */
  predicate Compressed(b: nat)
  {
    b / COMPRESSED_BIT % 2 == 0
  }

  /** SQUASHFS_COMPRESSED_SIZE: the size without its flag; 0 stands for 32768. */
  function StoredSize(b: nat): (n: nat)
    ensures n > 0
  {
    if b % COMPRESSED_BIT != 0 then b % COMPRESSED_BIT else COMPRESSED_BIT
  }

  /** Bit 15 of a size is the flag, and the rest of its sixteen bits is the size. */
  lemma SizeIs(b: nat)
    ensures Compressed(b) <==> b / 0x8000 % 2 == 0
    ensures StoredSize(b) == if b % 0x8000 != 0 then b % 0x8000 else 0x8000
  {
  }

  datatype Stored = Stored(bytes: seq<Octet>, size: nat)

  /** mangle: the bytes to store and the size word. */
  function Mangle(f: Format, s: seq<Octet>): Stored
  {
    if f.noI || |f.comp(s)| >= |s| then Stored(s, |s| + COMPRESSED_BIT) else Stored(f.comp(s), |f.comp(s)|)
  }

  /**
    The bytes are compressed exactly if that is wanted and makes them shorter; bit 15 of the size says
    that they are not.
  */
  lemma MangleIs(f: Format, s: seq<Octet>)
    ensures Mangle(f, s) == if !f.noI && |f.comp(s)| < |s| then Stored(f.comp(s), |f.comp(s)|)
      else Stored(s, 0x8000 + |s|)
  {
  }

  lemma MangleSize(f: Format, s: seq<Octet>)
    requires Sound(f) && 0 < |s| <= METADATA_SIZE
    ensures
      var m := Mangle(f, s);
      m.size < 65536 && StoredSize(m.size) == |m.bytes| && 0 < |m.bytes| <= METADATA_SIZE
      && s == if Compressed(m.size) then f.decomp(m.bytes) else m.bytes
  {
  }

  // ---- the size word in two bytes

  const SHORT: seq<Field> := [Field(0, 16)]

  function SizeWord(f: Format, b: nat): (h: seq<Octet>)
    ensures |h| == 2
  {
    Encode(f.order, SHORT, [Bits(b, 16)], 2)
  }

  function ReadSize(f: Format, h: seq<Octet>): nat
    requires |h| == 2
  {
    Number(Decode(f.order, SHORT[0], h))
  }

  lemma SizeWordBack(f: Format, b: nat)
    requires b < 65536
    ensures ReadSize(f, SizeWord(f, b)) == b
  {
    ConsecutiveLayout(SHORT, 2);
    EncodePacked(f.order, SHORT, [Bits(b, 16)], 2);
    RoundTrip(f.order, SHORT, [Bits(b, 16)], SizeWord(f, b), 0);
    Powers();
    NumberBits(b, 16);
  }

  /** Bit k of the size is bit k % 8 of its byte k / 8, the low byte first or last. */
  lemma {:induction false} SizeWordIs(f: Format, b: nat, k: nat)
    requires k < 16
    ensures
      var h, i := SizeWord(f, b), if f.order.LittleEndian? then k / 8 else 1 - k / 8;
      Bits(b, 16)[k] == Bit(h[i], k % 8)
  {
    hide Bits, Bit, Encode;
    ConsecutiveLayout(SHORT, 2);
    EncodedBit(f.order, SHORT, [Bits(b, 16)], 2, 0, k);
  }

  const MARKER_BYTE: Octet := 0xff

  /** One stored block. */
  function EncodeBlock(f: Format, s: seq<Octet>): (e: seq<Octet>)
  {
    var m := Mangle(f, s);
    SizeWord(f, m.size) + (if f.check then [MARKER_BYTE] else []) + m.bytes
  }

  /** A stored block is the size in two bytes, the byte 0xff if the filesystem has marker bytes, and the bytes. */
  lemma EncodeBlockIs(f: Format, s: seq<Octet>)
    ensures
      var e, m := EncodeBlock(f, s), Mangle(f, s);
      && |e| == (if f.check then 3 else 2) + |m.bytes| && e[..2] == SizeWord(f, m.size)
      && (f.check ==> e[2] == 0xff) && e[if f.check then 3 else 2..] == m.bytes
  {
    hide Mangle, SizeWord;
  }

  // ---- reading

  lemma SliceSlice<T>(s: seq<T>, a: nat, b: nat, i: nat, j: nat)
    requires a <= b <= |s| && i <= j <= b - a
    ensures s[a..b][i..j] == s[a + i..a + j]
  {
    var t, u, v := s[a..b], s[a..b][i..j], s[a + i..a + j];
    forall k | 0 <= k < j - i
      ensures u[k] == v[k]
    {
      assert u[k] == t[i + k] && t[i + k] == s[a + (i + k)];
    }
    assert u == v;
  }

  lemma ThreeParts<T>(a: seq<T>, b: seq<T>, c: seq<T>)
    ensures (a + b + c)[0..|a|] == a && (a + b + c)[|a|..|a| + |b|] == b
    ensures (a + b + c)[|a| + |b|..|a + b + c|] == c
  {
  }

  /** n bytes of the file; what lies past its end is not determined by the file and reads as zero here. */
  function ReadBytes(disk: seq<Octet>, at: nat, n: nat): (r: seq<Octet>)
    ensures |r| == n
    ensures at + n <= |disk| ==> r == disk[at..at + n]
  {
    seq(n, i requires 0 <= i < n => if at + i < |disk| then disk[at + i] else 0)
  }

  datatype Block = Block(data: seq<Octet>, next: nat)

  /** read_block: the data of the block and where the next one starts. */
  function ReadBlock(f: Format, disk: seq<Octet>, start: nat): (r: Block)
    ensures r.next > start
  {
    var b := ReadSize(f, ReadBytes(disk, start, 2));
    var stored := ReadBytes(disk, start + BlockOffset(f), StoredSize(b));
    Block(if Compressed(b) then f.decomp(stored) else stored, start + BlockOffset(f) + StoredSize(b))
  }

  /** The file holds the given bytes at a place. */
  predicate Holds(disk: seq<Octet>, at: nat, s: seq<Octet>)
  {
    at + |s| <= |disk| && disk[at..at + |s|] == s
  }

  lemma HoldsPart(disk: seq<Octet>, at: nat, s: seq<Octet>, i: nat, j: nat)
    requires Holds(disk, at, s) && i <= j <= |s|
    ensures Holds(disk, at + i, s[i..j])
  {
    SliceSlice(disk, at, at + |s|, i, j);
  }

  lemma EncodeBlockParts(f: Format, s: seq<Octet>)
    ensures
      var m, e := Mangle(f, s), EncodeBlock(f, s);
      |e| == BlockOffset(f) + |m.bytes| && e[0..2] == SizeWord(f, m.size) && e[BlockOffset(f)..|e|] == m.bytes
  {
    hide Mangle, SizeWord;
    ThreeParts(SizeWord(f, Mangle(f, s).size), if f.check then [MARKER_BYTE] else [], Mangle(f, s).bytes);
  }

  /** What was stored is what is read. */
  lemma ReadBlockBack(f: Format, disk: seq<Octet>, start: nat, s: seq<Octet>)
    requires Sound(f) && 0 < |s| <= METADATA_SIZE && Holds(disk, start, EncodeBlock(f, s))
    ensures ReadBlock(f, disk, start) == Block(s, start + |EncodeBlock(f, s)|)
  {
    hide Sound, Mangle, ReadSize, StoredSize, Compressed, EncodeBlock, ReadBytes, BlockOffset, Holds;
    MangleSize(f, s);
    SizeRead(f, disk, start, s);
    PayloadRead(f, disk, start, s);
  }

  lemma SizeRead(f: Format, disk: seq<Octet>, start: nat, s: seq<Octet>)
    requires Holds(disk, start, EncodeBlock(f, s)) && Mangle(f, s).size < 65536
    ensures ReadSize(f, ReadBytes(disk, start, 2)) == Mangle(f, s).size
  {
    hide Mangle, SizeWord, ReadSize, EncodeBlock, ReadBytes, BlockOffset, Holds;
    EncodeBlockParts(f, s);
    SizeWordBack(f, Mangle(f, s).size);
    HoldsPart(disk, start, EncodeBlock(f, s), 0, 2);
    ReadHeld(disk, start, SizeWord(f, Mangle(f, s).size));
  }

  lemma PayloadRead(f: Format, disk: seq<Octet>, start: nat, s: seq<Octet>)
    requires Holds(disk, start, EncodeBlock(f, s))
    ensures ReadBytes(disk, start + BlockOffset(f), |Mangle(f, s).bytes|) == Mangle(f, s).bytes
    ensures |EncodeBlock(f, s)| == BlockOffset(f) + |Mangle(f, s).bytes|
  {
    hide Mangle, SizeWord, EncodeBlock, ReadBytes, BlockOffset, Holds;
    EncodeBlockParts(f, s);
    var e := EncodeBlock(f, s);
    HoldsPart(disk, start, e, BlockOffset(f), |e|);
    ReadHeld(disk, start + BlockOffset(f), Mangle(f, s).bytes);
  }

  lemma ReadHeld(disk: seq<Octet>, at: nat, s: seq<Octet>)
    requires Holds(disk, at, s)
    ensures ReadBytes(disk, at, |s|) == s
  {
  }

  // ---- runs of blocks

  predicate BlockSizes(blocks: seq<seq<Octet>>)
  {
    forall i :: 0 <= i < |blocks| ==> 0 < |blocks[i]| <= METADATA_SIZE
  }

  function EncodeBlocks(f: Format, blocks: seq<seq<Octet>>): (e: seq<Octet>)
  {
    if blocks == [] then [] else EncodeBlock(f, blocks[0]) + EncodeBlocks(f, blocks[1..])
  }

  function Concat(blocks: seq<seq<Octet>>): seq<Octet>
  {
    if blocks == [] then [] else blocks[0] + Concat(blocks[1..])
  }

  lemma Associate<T>(a: seq<T>, b: seq<T>, c: seq<T>)
    ensures (a + b) + c == a + (b + c)
  {
  }

  lemma HeadAndRest<T>(a: seq<T>, b: seq<T>)
    requires |a| > 0
    ensures a + b != [] && (a + b)[0] == a[0] && (a + b)[1..] == a[1..] + b
  {
  }

  lemma {:induction false} EncodeBlocksAppend(f: Format, a: seq<seq<Octet>>, b: seq<seq<Octet>>)
    ensures EncodeBlocks(f, a + b) == EncodeBlocks(f, a) + EncodeBlocks(f, b)
    decreases |a|
  {
    hide EncodeBlock;
    if a == [] {
      assert a + b == b;
    } else {
      HeadAndRest(a, b);
      EncodeBlocksAppend(f, a[1..], b);
      Associate(EncodeBlock(f, a[0]), EncodeBlocks(f, a[1..]), EncodeBlocks(f, b));
    }
  }

  lemma {:induction false} ConcatAppend(a: seq<seq<Octet>>, b: seq<seq<Octet>>)
    ensures Concat(a + b) == Concat(a) + Concat(b)
    decreases |a|
  {
    if a == [] {
      assert a + b == b;
    } else {
      HeadAndRest(a, b);
      ConcatAppend(a[1..], b);
      Associate(a[0], Concat(a[1..]), Concat(b));
    }
  }

  lemma {:induction false} EncodeBlocksOne(f: Format, b: seq<Octet>)
    ensures EncodeBlocks(f, [b]) == EncodeBlock(f, b) && Concat([b]) == b
  {
    hide EncodeBlock;
    assert [b][1..] == [];
  }

  lemma BlockNotEmpty(f: Format, s: seq<Octet>)
    ensures |EncodeBlock(f, s)| > 0
  {
  }

  // ---- walking blocks

  /** The data of the blocks read one after the other, from one place in the file up to another. */
  function Walk(f: Format, disk: seq<Octet>, start: nat, end: nat): seq<Octet>
    decreases end - start
  {
    if start >= end then [] else ReadBlock(f, disk, start).data + Walk(f, disk, ReadBlock(f, disk, start).next, end)
  }

  /** A walk from start arrives at a place. */
  predicate Reaches(f: Format, disk: seq<Octet>, start: nat, at: nat)
    decreases at - start
  {
    start == at || (start < at && Reaches(f, disk, ReadBlock(f, disk, start).next, at))
  }

  /** Walking stored blocks gives their data, and the walk stops at the start of each of them. */
  lemma {:induction false} WalkEncoded(f: Format, disk: seq<Octet>, start: nat, blocks: seq<seq<Octet>>)
    requires Sound(f) && BlockSizes(blocks) && Holds(disk, start, EncodeBlocks(f, blocks))
    ensures Walk(f, disk, start, start + |EncodeBlocks(f, blocks)|) == Concat(blocks)
    ensures Reaches(f, disk, start, start + |EncodeBlocks(f, blocks)|)
    decreases |blocks|
  {
    hide ReadBlock, EncodeBlock, Sound;
    if blocks != [] {
      var b, e := blocks[0], EncodeBlocks(f, blocks);
      BlockNotEmpty(f, b);
      HoldsPart(disk, start, e, 0, |EncodeBlock(f, b)|);
      HoldsPart(disk, start, e, |EncodeBlock(f, b)|, |e|);
      assert e[|EncodeBlock(f, b)|..|e|] == EncodeBlocks(f, blocks[1..]);
      ReadBlockBack(f, disk, start, b);
      WalkEncoded(f, disk, start + |EncodeBlock(f, b)|, blocks[1..]);
    }
  }

  /**
    The block loop of scan_inode_table, which also notes how much had been read when the walk
    reached the block holding the root inode.
  */
  method ScanBlocks(f: Format, disk: seq<Octet>, from: nat, end: nat, rootStart: nat)
    returns (table: seq<Octet>, rootBlock: nat)
    ensures table == Walk(f, disk, from, end)
    ensures rootStart < end && Reaches(f, disk, from, rootStart) ==> rootBlock == |Walk(f, disk, from, rootStart)|
  {
    hide ReadBlock;
    table, rootBlock := [], 0;
    var start := from;
    while start < end
      invariant table + Walk(f, disk, start, end) == Walk(f, disk, from, end)
      invariant Reaches(f, disk, from, rootStart) ==>
        if start <= rootStart then
          Reaches(f, disk, start, rootStart) && |table| + |Walk(f, disk, start, rootStart)| ==
            |Walk(f, disk, from, rootStart)|
        else rootBlock == |Walk(f, disk, from, rootStart)|
      decreases end - start
    {
      if start == rootStart {
        rootBlock := |table|;
      }
      var block := ReadBlock(f, disk, start);
      assert table + (block.data + Walk(f, disk, block.next, end)) ==
        table + block.data + Walk(f, disk, block.next, end);
      table, start := table + block.data, block.next;
    }
  }
}
