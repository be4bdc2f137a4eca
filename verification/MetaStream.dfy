/**
  The writer's metadata streams of mksquashfs.c: records are appended to a cache, whole blocks of
  8192 bytes move from the cache into the table, and what is left is written out at the end. The
  inode table and the directory table are two such streams.
*/
module MetaStream {
  import opened BitCodec
  import opened MetaBlocks

  /** write_bytes: the file with bytes written at a place. */
  function WriteBytes(disk: seq<Octet>, at: nat, s: seq<Octet>): (r: seq<Octet>)
    ensures Holds(r, at, s)
    ensures at <= |disk| ==> r[..at] == disk[..at]
  {
    var head := if at <= |disk| then disk[..at] else disk + seq(at - |disk|, i => 0);
    assert |head| == at;
    head + s + (if at + |s| <= |disk| then disk[at + |s|..] else [])
  }

  /** A buffer with bytes copied into it. */
  function Overwrite(b: seq<Octet>, at: nat, s: seq<Octet>): (r: seq<Octet>)
    requires at + |s| <= |b|
    ensures |r| == |b| && r[..at] == b[..at] && r[at..at + |s|] == s && r[at + |s|..] == b[at + |s|..]
  {
    b[..at] + s + b[at + |s|..]
  }

  /** realloc to a larger size: the old bytes stay, the new ones are not determined. */
  method Grow(b: seq<Octet>, n: nat) returns (r: seq<Octet>)
    requires |b| <= n
    ensures |r| == n && r[..|b|] == b
  {
    r := b + seq(n - |b|, i => 0);
  }

  // ---- references

  /** A record handed out: its number, the index of the block it starts in, and its bytes. */
  datatype Ref = Ref(inode: nat, block: nat, data: seq<Octet>)

  /** SQUASHFS_INODE_BLK and SQUASHFS_INODE_OFFSET. */
  function InodeBlk(inode: nat): nat
  {
    inode / 65536
  }

  function InodeOffset(inode: nat): nat
  {
    inode % 65536
  }

  /** The number names the start of the block where the record begins and an offset inside that block. */
  ghost predicate RefOk(f: Format, blocks: seq<seq<Octet>>, contents: seq<Octet>, r: Ref)
  {
    && r.block <= |blocks|
    && InodeBlk(r.inode) == |EncodeBlocks(f, blocks[..r.block])|
    && InodeOffset(r.inode) < METADATA_SIZE
    && Holds(contents, METADATA_SIZE * r.block + InodeOffset(r.inode), r.data)
  }

  lemma RefStays(f: Format, blocks: seq<seq<Octet>>, more: seq<seq<Octet>>, contents: seq<Octet>, rest: seq<Octet>,
                 r: Ref)
    requires RefOk(f, blocks, contents, r)
    ensures RefOk(f, blocks + more, contents + rest, r)
  {
    hide EncodeBlocks;
    assert (blocks + more)[..r.block] == blocks[..r.block];
    var at := METADATA_SIZE * r.block + InodeOffset(r.inode);
    assert (contents + rest)[at..at + |r.data|] == contents[at..at + |r.data|];
  }

  predicate Full(blocks: seq<seq<Octet>>)
  {
    forall i :: 0 <= i < |blocks| ==> |blocks[i]| == METADATA_SIZE
  }

  lemma {:induction false} ConcatFull(blocks: seq<seq<Octet>>)
    requires Full(blocks)
    ensures |Concat(blocks)| == METADATA_SIZE * |blocks|
    decreases |blocks|
  {
    if blocks != [] {
      ConcatFull(blocks[1..]);
    }
  }

  /** Reading from the block a reference names finds the record at the offset it names. */
  lemma {:induction false} RefResolves(f: Format, disk: seq<Octet>, start: nat, blocks: seq<seq<Octet>>, r: Ref)
    requires Sound(f) && BlockSizes(blocks) && Holds(disk, start, EncodeBlocks(f, blocks))
    requires RefOk(f, blocks, Concat(blocks), r) && Full(blocks[..r.block])
    ensures Holds(Walk(f, disk, start + InodeBlk(r.inode), start + |EncodeBlocks(f, blocks)|), InodeOffset(r.inode),
      r.data)
  {
    hide EncodeBlocks, Sound, Walk, Concat, Reaches;
    var a, b := blocks[..r.block], blocks[r.block..];
    assert blocks == a + b;
    EncodeBlocksAppend(f, a, b);
    ConcatAppend(a, b);
    ConcatFull(a);
    var e := EncodeBlocks(f, blocks);
    HoldsPart(disk, start, e, |EncodeBlocks(f, a)|, |e|);
    assert e[|EncodeBlocks(f, a)|..|e|] == EncodeBlocks(f, b);
    WalkEncoded(f, disk, start + |EncodeBlocks(f, a)|, b);
    HoldsTail(Concat(a), Concat(b), InodeOffset(r.inode), r.data);
  }

  lemma HoldsTail(a: seq<Octet>, b: seq<Octet>, at: nat, s: seq<Octet>)
    requires Holds(a + b, |a| + at, s)
    ensures Holds(b, at, s)
  {
    assert (a + b)[|a| + at..|a| + at + |s|] == b[at..at + |s|];
  }

  // ---- single assignments

  /** The buffers and counters of a stream. */
  datatype Buffers = Buffers(table: seq<Octet>, tableBytes: nat, cache: seq<Octet>, cacheBytes: nat)

  /**
    What one assignment may do: buffers grow, the table changes only past the bytes in use, the
    count of bytes in use goes up. Nothing is said of the contents of the cache.
  */
  ghost predicate Step(a: Buffers, b: Buffers)
  {
    && a.tableBytes <= |a.table| <= |b.table| && a.tableBytes <= b.tableBytes <= |b.table|
    && b.table[..a.tableBytes] == a.table[..a.tableBytes] && |a.cache| <= |b.cache|
  }

  ghost predicate Trail(t: seq<Buffers>)
  {
    |t| > 0 && forall i :: 0 < i < |t| ==> Step(t[i - 1], t[i])
  }

  /** Assignments do not undo one another: the last state is one step from every state before it. */
  lemma {:induction false} TrailSteps(t: seq<Buffers>, i: nat, j: nat)
    requires Trail(t) && i < j < |t|
    ensures Step(t[i], t[j])
  {
    if i + 1 < j {
      TrailSteps(t, i, j - 1);
      StepStep(t[i], t[j - 1], t[j]);
    }
  }

  lemma StepStep(a: Buffers, b: Buffers, c: Buffers)
    requires Step(a, b) && Step(b, c)
    ensures Step(a, c)
  {
    assert c.table[..a.tableBytes] == c.table[..b.tableBytes][..a.tableBytes];
    assert b.table[..a.tableBytes] == b.table[..b.tableBytes][..a.tableBytes];
  }

  /** The saved state of a stream: bytes of the table in use, and the whole cache. */
  datatype Saved = Saved(tableBytes: nat, cache: seq<Octet>)

  /** What restorefs needs of the buffers it finds. */
  ghost predicate Kept(f: Format, s: Saved, bs: seq<seq<Octet>>, b: Buffers)
  {
    && s.tableBytes <= b.tableBytes <= |b.table| && b.table[..s.tableBytes] == EncodeBlocks(f, bs)
    && |s.cache| <= |b.cache|
  }

  /** Appending never destroys it: once it holds, it holds after every later assignment. */
  lemma KeptAlong(f: Format, s: Saved, bs: seq<seq<Octet>>, t: seq<Buffers>, i: nat, j: nat)
    requires Trail(t) && i <= j < |t| && Kept(f, s, bs, t[i])
    ensures Kept(f, s, bs, t[j])
  {
    if i < j {
      TrailSteps(t, i, j);
      assert t[j].table[..s.tableBytes] == t[j].table[..t[i].tableBytes][..s.tableBytes];
      assert t[i].table[..s.tableBytes] == t[i].table[..t[i].tableBytes][..s.tableBytes];
    }
  }

  // ---- the stream

  class Stream {
    const f: Format
    var table: seq<Octet>
    var tableBytes: nat
    var cache: seq<Octet>
    var cacheBytes: nat
    ghost var blocks: seq<seq<Octet>>
    ghost var refs: seq<Ref>
    // The states between the assignments so far.
    var trail: seq<Buffers>

    function Now(): Buffers
      reads this
    {
      Buffers(table, tableBytes, cache, cacheBytes)
    }

    /** Every assignment so far was a step, and the last one led here. */
    ghost predicate Traced()
      reads this
    {
      Trail(trail) && trail[|trail| - 1] == Now()
    }

    /** Note the state after an assignment. */
    method Mark()
      requires Trail(trail) && Step(trail[|trail| - 1], Now())
      modifies `trail
      ensures Traced() && trail == old(trail) + [Now()]
    {
      trail := trail + [Now()];
    }

    /** The table holds the blocks. */
    ghost predicate Stored()
      reads this
    {
      && Sound(f) && BlockSizes(blocks)
      && tableBytes <= |table| && table[..tableBytes] == EncodeBlocks(f, blocks)
      && cacheBytes <= |cache| && Traced()
    }

    /** Everything appended so far. */
    ghost function Contents(): seq<Octet>
      requires Stored()
      reads this
    {
      Concat(blocks) + cache[..cacheBytes]
    }

    /** While records are appended, every block in the table is full and every reference is good. */
    ghost predicate Valid()
      reads this
    {
      && Stored() && Full(blocks)
      && forall i :: 0 <= i < |refs| ==> RefOk(f, blocks, Contents(), refs[i])
    }

    constructor (format: Format)
      requires Sound(format)
      ensures Valid() && f == format && Contents() == [] && refs == []
    {
      f := format;
      table, tableBytes, cache, cacheBytes := [], 0, [], 0;
      blocks, refs, trail := [], [], [Buffers([], 0, [], 0)];
    }

    /** A stream that goes on from a table and a cache read from a file. */
    constructor FromTable(format: Format, t: seq<Octet>, c: seq<Octet>, n: nat, ghost bs: seq<seq<Octet>>)
      requires Sound(format) && BlockSizes(bs) && Full(bs) && t == EncodeBlocks(format, bs) && n <= |c|
      ensures Valid() && f == format && blocks == bs && refs == [] && Now() == Buffers(t, |t|, c, n) && trail == [Now()]
    {
      f := format;
      table, tableBytes, cache, cacheBytes := t, |t|, c, n;
      blocks, refs, trail := bs, [], [Buffers(t, |t|, c, n)];
    }

    /** The program stops between two assignments, at a state it has been through. */
    method Interrupt(b: Buffers)
      requires b in trail
      modifies this
      ensures Now() == b
    {
      table, tableBytes, cache, cacheBytes := b.table, b.tableBytes, b.cache, b.cacheBytes;
    }

    /** restorefs, for this stream. */
    method Restore(s: Saved, ghost bs: seq<seq<Octet>>)
      requires Sound(f) && BlockSizes(bs) && Full(bs) && Kept(f, s, bs, Now())
      modifies this
      ensures Stored() && blocks == bs && Contents() == Concat(bs) + s.cache
    {
      hide Sound, EncodeBlocks, Concat, Overwrite, BlockSizes;
      cache := Overwrite(cache, 0, s.cache);
      cacheBytes := |s.cache|;
      assert cache[0..cacheBytes] == s.cache;
      tableBytes := s.tableBytes;
      blocks, refs, trail := bs, [], [Now()];
    }

    /** Compress n bytes of the cache and put the block at the end of the table. */
    method StoreBlock(from: nat, n: nat)
      requires Stored() && 0 < n <= METADATA_SIZE && from + n <= |cache|
      modifies `trail, `table, `tableBytes, `blocks
      ensures Stored() && blocks == old(blocks) + [cache[from..from + n]]
      ensures old(trail) <= trail
    {
      hide Sound, EncodeBlocks, Overwrite, Trail;
      var data := cache[from..from + n];
      BlockFits(f, data);
      if |table| - tableBytes < 2 * METADATA_SIZE + 2 {
        GrowTable();
      }
      var e := EncodeBlock(f, data);
      hide EncodeBlock, BlockSizes;
      EncodeBlocksAppend(f, blocks, [data]);
      EncodeBlocksOne(f, data);
      Append(e);
      blocks := blocks + [data];
      MoreSizes(old(blocks), data);
    }

    method GrowTable()
      requires Traced() && tableBytes <= |table|
      modifies `table, `trail
      ensures Traced() && trail == old(trail) + [Now()] && |table| >= tableBytes + 2 * METADATA_SIZE + 2
      ensures table[..tableBytes] == old(table[..tableBytes])
    {
      ghost var was := table;
      table := Grow(table, |table| + 2 * METADATA_SIZE + 2);
      assert table[..tableBytes] == was[..tableBytes];
      Mark();
    }

    /** Bytes go to the end of the table. */
    method Append(e: seq<Octet>)
      requires Traced() && tableBytes + |e| <= |table|
      modifies `table, `tableBytes, `trail
      ensures Traced() && tableBytes == old(tableBytes) + |e| <= |table|
      ensures trail == old(trail) + [Buffers(table, old(tableBytes), cache, cacheBytes), Now()]
      ensures table[..tableBytes] == old(table[..tableBytes]) + e
    {
      hide Overwrite;
      ghost var before := table;
      table := Overwrite(table, tableBytes, e);
      assert table[..tableBytes + |e|] == before[..tableBytes] + e;
      Mark();
      ghost var now := table;
      tableBytes := tableBytes + |e|;
      assert table[..old(tableBytes)] == now[..old(tableBytes)];
      Mark();
    }

    /** get_inode: whole blocks leave the cache, then room for the record is reserved. */
    method GetInode(reqSize: nat) returns (at: nat)
      requires Valid()
      modifies `trail, `table, `tableBytes, `blocks, `cache, `cacheBytes
      ensures Stored() && Full(blocks) && at < METADATA_SIZE && cacheBytes == at + reqSize
      ensures Concat(blocks) + cache[..at] == old(Contents())
      ensures old(blocks) <= blocks && old(trail) <= trail
    {
      hide Sound, EncodeBlocks, Concat, BlockSizes;
      while cacheBytes >= METADATA_SIZE
        invariant Stored() && Full(blocks) && Contents() == old(Contents())
        invariant old(blocks) <= blocks && old(trail) <= trail && |cache| == old(|cache|)
        decreases cacheBytes
      {
        FlushFull();
      }
      at := Reserve(reqSize);
    }

    /** The end of get_inode: the cache grows if it has to, and the bytes are counted. */
    method Reserve(reqSize: nat) returns (at: nat)
      requires Stored()
      modifies `trail, `cache, `cacheBytes
      ensures Stored() && at == old(cacheBytes) && cacheBytes == at + reqSize && cache[..at] == old(cache[..cacheBytes])
      ensures trail == old(trail) + (if |old(cache)| - at < reqSize then [Buffers(table, tableBytes, cache, at)]
        else []) +
        [Now()]
    {
      hide Sound, EncodeBlocks, BlockSizes;
      at := cacheBytes;
      if |cache| - cacheBytes < reqSize {
        ghost var was := cache;
        cache := Grow(cache, cacheBytes + reqSize);
        assert cache[..cacheBytes] == was[..cacheBytes];
        Mark();
      }
      cacheBytes := cacheBytes + reqSize;
      Mark();
    }

    /** One turn of the flush loop: the first block moves to the table and the rest moves down. */
    method FlushFull()
      requires Stored() && Full(blocks) && cacheBytes >= METADATA_SIZE
      modifies `trail, `table, `tableBytes, `blocks, `cache, `cacheBytes
      ensures Stored() && Full(blocks) && Contents() == old(Contents()) && cacheBytes == old(cacheBytes) - METADATA_SIZE
      ensures old(blocks) <= blocks && old(trail) <= trail && |cache| == old(|cache|)
    {
      hide Sound, EncodeBlocks, Concat;
      StoreBlock(0, METADATA_SIZE);
      ghost var data, was := cache[0..METADATA_SIZE], cache[..cacheBytes];
      ConcatAppend(old(blocks), [data]);
      EncodeBlocksOne(f, data);
      hide BlockSizes;
      MoveDown();
      assert was == data + cache[..cacheBytes];
    }

    /** The first block leaves the cache and the rest moves to the start. */
    method MoveDown()
      requires Stored() && cacheBytes >= METADATA_SIZE
      modifies `trail, `cache, `cacheBytes
      ensures Stored() && cacheBytes == old(cacheBytes) - METADATA_SIZE && |cache| == old(|cache|)
      ensures cache[..cacheBytes] == old(cache[METADATA_SIZE..cacheBytes])
      ensures trail == old(trail) + [Buffers(table, tableBytes, cache, old(cacheBytes)), Now()]
    {
      hide Sound, EncodeBlocks, Overwrite, BlockSizes;
      var n := cacheBytes - METADATA_SIZE;
      cache := Overwrite(cache, 0, cache[METADATA_SIZE..cacheBytes]);
      Mark();
      cacheBytes := n;
      Mark();
      assert cache[0..n] == cache[..n];
    }

    /** The callers of get_inode: reserve, fill in, and number the record with MKINODE. */
    method AddRecord(record: seq<Octet>) returns (inode: nat)
      requires Valid()
      modifies this
      ensures Valid() && Contents() == old(Contents()) + record
      ensures InodeBlk(inode) == tableBytes && InodeOffset(inode) < METADATA_SIZE
      ensures METADATA_SIZE * |blocks| + InodeOffset(inode) == |old(Contents())|
      ensures inode == 0x10000 * tableBytes + InodeOffset(inode)
      ensures refs == old(refs) + [Ref(inode, |blocks|, record)] && cacheBytes == InodeOffset(inode) + |record|
      ensures old(blocks) <= blocks && old(trail) <= trail
    {
      hide Sound, EncodeBlocks, Concat, BlockSizes, RefOk, Trail;
      var at := GetInode(|record|);
      ghost var kept := cache[..at];
      FillIn(at, record);
      inode := tableBytes * 65536 + at;
      NumberParts(tableBytes, at);
      ConcatFull(blocks);
      ghost var before := old(Contents());
      assert Contents() == before + record;
      RefNew(f, blocks, kept, record, inode);
      ghost var more := blocks[|old(blocks)|..];
      assert blocks == old(blocks) + more;
      forall i | 0 <= i < |refs|
        ensures RefOk(f, blocks, Contents(), refs[i])
      {
        RefStays(f, old(blocks), more, before, record, refs[i]);
      }
      refs := refs + [Ref(inode, |blocks|, record)];
    }

    /** The record goes to its reserved place. */
    method FillIn(at: nat, record: seq<Octet>)
      requires Stored() && at + |record| == cacheBytes
      modifies `cache, `trail
      ensures Stored() && cache[..cacheBytes] == old(cache[..at]) + record && trail == old(trail) + [Now()]
    {
      hide Sound, EncodeBlocks, Overwrite, BlockSizes;
      ghost var kept := cache[..at];
      cache := Overwrite(cache, at, record);
      Mark();
      assert cache[..cacheBytes] == kept + record;
    }

    /** One turn of the loop of write_inodes: a block of at most 8192 bytes, from a place that moves up. */
    method StoreNext(from: nat) returns (next: nat)
      requires Stored() && Full(blocks) && 0 < cacheBytes && from + cacheBytes <= |cache|
      modifies `trail, `table, `tableBytes, `blocks, `cacheBytes
      ensures Stored() && cacheBytes < old(cacheBytes) && next + cacheBytes == from + old(cacheBytes)
      ensures Concat(blocks) + cache[next..next + cacheBytes] == old(Concat(blocks) + cache[from..from + cacheBytes])
      ensures AlmostFull(blocks) && (cacheBytes > 0 ==> Full(blocks)) && old(blocks) <= blocks
      ensures old(trail) <= trail
    {
      hide Sound, EncodeBlocks, Concat, BlockSizes;
      var avail := if cacheBytes > METADATA_SIZE then METADATA_SIZE else cacheBytes;
      StoreBlock(from, avail);
      ghost var data := cache[from..from + avail];
      ConcatAppend(old(blocks), [data]);
      EncodeBlocksOne(f, data);
      assert cache[from..from + cacheBytes] == data + cache[from + avail..from + cacheBytes];
      assert blocks[..|blocks| - 1] == old(blocks);
      next, cacheBytes := from + avail, cacheBytes - avail;
      Mark();
    }

    /**
      write_inodes and write_directories: what is left in the cache goes out in blocks, and the table into
      the file.
    */
    method WriteTable(disk: seq<Octet>, at: nat) returns (disk': seq<Octet>)
      requires Stored() && Full(blocks)
      modifies `trail, `table, `tableBytes, `blocks, `cacheBytes
      ensures Stored() && cacheBytes == 0 && Concat(blocks) == old(Contents())
      ensures disk' == WriteBytes(disk, at, table[..tableBytes])
      ensures Walk(f, disk', at, at + tableBytes) == old(Contents())
      ensures old(blocks) <= blocks && AlmostFull(blocks)
      ensures old(trail) <= trail
    {
      hide Sound, EncodeBlocks, Concat, WriteBytes, BlockSizes, Walk, Trail;
      var from := 0;
      while cacheBytes > 0
        invariant Stored() && from + cacheBytes == old(cacheBytes)
        invariant Concat(blocks) + cache[from..from + cacheBytes] == old(Contents())
        invariant AlmostFull(blocks) && (cacheBytes > 0 ==> Full(blocks)) && old(blocks) <= blocks
        invariant old(trail) <= trail
        decreases cacheBytes
      {
        from := StoreNext(from);
      }
      disk' := WriteBytes(disk, at, table[..tableBytes]);
      WalkEncoded(f, disk', at, blocks);
    }

    /** After the table is written, every reference ever handed out resolves in the file. */
    method Finish(disk: seq<Octet>, at: nat) returns (disk': seq<Octet>)
      requires Valid()
      modifies this
      ensures Walk(f, disk', at, at + tableBytes) == old(Contents()) && refs == old(refs)
      ensures forall i :: 0 <= i < |refs| ==>
        Holds(Walk(f, disk', at + InodeBlk(refs[i].inode), at + tableBytes), InodeOffset(refs[i].inode), refs[i].data)
    {
      hide Sound, EncodeBlocks, Concat, WriteBytes, BlockSizes, Walk, RefOk;
      ghost var was, contents := blocks, Contents();
      disk' := WriteTable(disk, at);
      ghost var more := blocks[|was|..];
      assert blocks == was + more && contents == contents + [] && Concat(blocks) == contents;
      forall i | 0 <= i < |refs|
        ensures Holds(Walk(f, disk', at + InodeBlk(refs[i].inode), at + tableBytes), InodeOffset(refs[i].inode),
          refs[i].data)
      {
        RefStays(f, was, more, contents, [], refs[i]);
        RefBlock(f, was, contents, refs[i]);
        assert blocks[..refs[i].block] == was[..refs[i].block];
        RefResolves(f, disk', at, blocks, refs[i]);
      }
    }
  }

  // ---- the move down of get_inode is a memcpy

  predicate CopyReads(n: nat, k: nat)
  {
    METADATA_SIZE <= k < n
  }

  predicate CopyWrites(n: nat, k: nat)
  {
    k < n - METADATA_SIZE
  }

  /** The copy of a cache of n bytes reads no place that it writes, as memcpy demands. */
  ghost predicate CopyAllowed(n: nat)
  {
    forall k: nat :: CopyReads(n, k) ==> !CopyWrites(n, k)
  }

  /** That is so exactly for at most two blocks. */
  lemma CopyApart(n: nat)
    ensures CopyAllowed(n) <==> n <= 16384
  {
    if n > 2 * METADATA_SIZE {
      assert CopyReads(n, METADATA_SIZE) && CopyWrites(n, METADATA_SIZE);
    }
  }

  /**
    The inode of a regular file, a header of 24 bytes and a word for each block,
      and the copy that the next flush begins with: whether it is one that
    memcpy allows depends on where the inode lies and on how many blocks the file has. With 4091
    blocks or more it never is.
  */
  method AddFileInode(s: Stream, header: seq<Octet>, list: seq<Octet>) returns (inode: nat)
    requires s.Valid() && |header| == 24 && |list| % 4 == 0
    modifies s
    ensures s.Valid() && s.Contents() == old(s.Contents()) + header + list
    ensures CopyAllowed(s.cacheBytes) <==> InodeOffset(inode) + 24 + |list| <= 16384
    ensures |list| / 4 >= 4091 ==> s.cacheBytes >= METADATA_SIZE && !CopyAllowed(s.cacheBytes)
  {
    hide Sound, CopyAllowed;
    ghost var was := s.Contents();
    inode := s.AddRecord(header + list);
    assert was + (header + list) == was + header + list;
    CopyApart(s.cacheBytes);
  }

  lemma RefBlock(f: Format, blocks: seq<seq<Octet>>, contents: seq<Octet>, r: Ref)
    requires RefOk(f, blocks, contents, r)
    ensures r.block <= |blocks|
  {
  }

  predicate AlmostFull(blocks: seq<seq<Octet>>)
  {
    forall i :: 0 <= i < |blocks| - 1 ==> |blocks[i]| == METADATA_SIZE
  }

  lemma MoreSizes(blocks: seq<seq<Octet>>, data: seq<Octet>)
    requires BlockSizes(blocks) && 0 < |data| <= METADATA_SIZE
    ensures BlockSizes(blocks + [data])
  {
  }

  lemma NumberParts(blk: nat, at: nat)
    requires at < METADATA_SIZE
    ensures InodeBlk(blk * 65536 + at) == blk && InodeOffset(blk * 65536 + at) == at
  {
  }

  lemma {:induction false} RefNew(f: Format, blocks: seq<seq<Octet>>, kept: seq<Octet>, record: seq<Octet>, inode: nat)
    requires Full(blocks) && InodeBlk(inode) == |EncodeBlocks(f, blocks)| &&
      InodeOffset(inode) == |kept| < METADATA_SIZE
    ensures RefOk(f, blocks, Concat(blocks) + kept + record, Ref(inode, |blocks|, record))
  {
    hide EncodeBlocks;
    ConcatFull(blocks);
    assert blocks[..|blocks|] == blocks;
  }

  lemma BlockFits(f: Format, data: seq<Octet>)
    requires Sound(f) && 0 < |data| <= METADATA_SIZE
    ensures 0 < |EncodeBlock(f, data)| <= METADATA_SIZE + 3
  {
    MangleSize(f, data);
    EncodeBlockParts(f, data);
  }
}
