/**
  Appending to a squashfs filesystem and giving up: read_filesystem of read_fs.c sets up the two
  metadata streams, main of mksquashfs.c saves them, and restorefs puts them back, whatever was
  appended in between and wherever it was interrupted.
*/
module Restore {
  import opened BitCodec
  import opened MetaBlocks
  import opened MetaStream

  const DIR_INODE_SIZE := 15
  const DIR_TYPE := 1

  // ---- the root inode

  function RootField(f: Format, root: seq<Octet>, i: nat): nat
    requires |root| == DIR_INODE_SIZE && i < |DIR_INODE|
  {
    FileLayouts();
    Number(Decode(f.order, DIR_INODE[i], root))
  }

  function RootType(f: Format, root: seq<Octet>): nat
    requires |root| == DIR_INODE_SIZE
  {
    RootField(f, root, 0)
  }

  function RootFileSize(f: Format, root: seq<Octet>): nat
    requires |root| == DIR_INODE_SIZE
  {
    RootField(f, root, 4)
  }

  function RootOffset(f: Format, root: seq<Octet>): nat
    requires |root| == DIR_INODE_SIZE
  {
    RootField(f, root, 5)
  }

  function RootStartBlock(f: Format, root: seq<Octet>): nat
    requires |root| == DIR_INODE_SIZE
  {
    RootField(f, root, 7)
  }

  // ---- a filesystem as a finished writer leaves it

  datatype Super = Super(inodeStart: nat, dirStart: nat, root: nat)

  /** The blocks of the two tables, and which of them the root inode and the root directory start in. */
  datatype Image = Image(iblocks: seq<seq<Octet>>, rk: nat, dblocks: seq<seq<Octet>>, dk: nat)

  ghost predicate BlocksAt(f: Format, disk: seq<Octet>, start: nat, blocks: seq<seq<Octet>>)
  {
    BlockSizes(blocks) && Holds(disk, start, EncodeBlocks(f, blocks))
  }

  /** The root inode is the last record of the inode table. */
  ghost predicate RootLast(f: Format, sb: Super, im: Image)
  {
    var stream := Concat(im.iblocks);
    && im.rk < |im.iblocks| && Full(im.iblocks[..im.rk]) && InodeOffset(sb.root) < METADATA_SIZE
    && InodeBlk(sb.root) == |EncodeBlocks(f, im.iblocks[..im.rk])|
    && METADATA_SIZE * im.rk + InodeOffset(sb.root) + DIR_INODE_SIZE == |stream|
  }

  /** The root directory is the last one of the directory table. */
  ghost predicate RootDirectoryLast(f: Format, im: Image)
  {
    var stream := Concat(im.iblocks);
    && |stream| >= DIR_INODE_SIZE
    && var root := stream[|stream| - DIR_INODE_SIZE..];
    && RootType(f, root) == DIR_TYPE
    && im.dk <= |im.dblocks| && Full(im.dblocks[..im.dk])
    && RootStartBlock(f, root) == |EncodeBlocks(f, im.dblocks[..im.dk])|
    && METADATA_SIZE * im.dk + RootOffset(f, root) + RootFileSize(f, root) == |Concat(im.dblocks)|
  }

  ghost predicate WellFormed(f: Format, disk: seq<Octet>, sb: Super, im: Image)
  {
    && Sound(f)
    && BlocksAt(f, disk, sb.inodeStart, im.iblocks)
    && sb.dirStart == sb.inodeStart + |EncodeBlocks(f, im.iblocks)|
    && BlocksAt(f, disk, sb.dirStart, im.dblocks)
    && RootLast(f, sb, im) && RootDirectoryLast(f, im)
  }

  /**
    Scanning the inode table comes to the block the root reference names, and the root inode at its
    offset ends the table.
  */
  ghost predicate RootFound(f: Format, disk: seq<Octet>, sb: Super)
  {
    var at := sb.inodeStart + InodeBlk(sb.root);
    && at < sb.dirStart && Reaches(f, disk, sb.inodeStart, at)
    && |Walk(f, disk, at, sb.dirStart)| == InodeOffset(sb.root) + DIR_INODE_SIZE
  }

  // ---- reading it

  /** A table cut at block k. */
  lemma {:induction false} CutAt(f: Format, disk: seq<Octet>, start: nat, blocks: seq<seq<Octet>>, k: nat)
    requires BlocksAt(f, disk, start, blocks) && k <= |blocks| && Full(blocks[..k])
    ensures BlocksAt(f, disk, start, blocks[..k])
    ensures BlocksAt(f, disk, start + |EncodeBlocks(f, blocks[..k])|, blocks[k..])
    ensures |EncodeBlocks(f, blocks)| == |EncodeBlocks(f, blocks[..k])| + |EncodeBlocks(f, blocks[k..])|
    ensures Concat(blocks) == Concat(blocks[..k]) + Concat(blocks[k..]) && |Concat(blocks[..k])| == METADATA_SIZE * k
  {
    hide EncodeBlocks, Concat;
    var a, b := blocks[..k], blocks[k..];
    assert blocks == a + b;
    EncodeBlocksAppend(f, a, b);
    ConcatAppend(a, b);
    ConcatFull(a);
    var e, n := EncodeBlocks(f, blocks), |EncodeBlocks(f, a)|;
    HoldsPart(disk, start, e, 0, n);
    HoldsPart(disk, start, e, n, |e|);
    assert e[0..n] == EncodeBlocks(f, a) && e[n..|e|] == EncodeBlocks(f, b);
  }

  /** The block loop of squashfs_readdir: blocks are read until there are enough bytes. */
  method ReadUpTo(f: Format, disk: seq<Octet>, from: nat, size: nat, ghost blocks: seq<seq<Octet>>)
    returns (table: seq<Octet>)
    requires Sound(f) && BlocksAt(f, disk, from, blocks) && size <= |Concat(blocks)|
    ensures size <= |table| && table <= Concat(blocks)
  {
    hide ReadBlock, Sound, EncodeBlock;
    table := [];
    var start := from;
    ghost var rest := blocks;
    while |table| < size
      invariant BlocksAt(f, disk, start, rest) && table + Concat(rest) == Concat(blocks)
      decreases |rest|
    {
      ghost var b, e := rest[0], EncodeBlocks(f, rest);
      HoldsPart(disk, start, e, 0, |EncodeBlock(f, b)|);
      HoldsPart(disk, start, e, |EncodeBlock(f, b)|, |e|);
      assert e[|EncodeBlock(f, b)|..|e|] == EncodeBlocks(f, rest[1..]);
      ReadBlockBack(f, disk, start, b);
      assert table + (b + Concat(rest[1..])) == table + b + Concat(rest[1..]);
      var block := ReadBlock(f, disk, start);
      table, start := table + block.data, block.next;
      rest := rest[1..];
    }
  }

  /** A stream and its saved state agree with the original table: the blocks kept and the cache are all of it. */
  ghost predicate Holding(f: Format, s: Stream, saved: Saved, original: seq<seq<Octet>>, k: nat)
    reads s
  {
    && s.f == f && s.Valid() && k <= |original| && s.blocks == original[..k] && BlockSizes(s.blocks)
    && |s.trail| == 1 && Kept(f, saved, original[..k], s.Now())
    && Concat(original[..k]) + saved.cache == Concat(original)
  }

  /** Records have been appended to such a stream. */
  ghost predicate Appending(f: Format, s: Stream, saved: Saved, original: seq<seq<Octet>>, k: nat)
    reads s
  {
    && s.f == f && Sound(f) && Trail(s.trail) && k <= |original| && BlockSizes(original[..k]) && Full(original[..k])
    && Kept(f, saved, original[..k], s.trail[0])
    && Concat(original[..k]) + saved.cache == Concat(original)
  }

  /** One table becomes a stream: the blocks before place k as they are, the rest as cache. */
  method OpenStream(f: Format, disk: seq<Octet>, start: nat, prefix: nat, cache: seq<Octet>, n: nat,
                    ghost blocks: seq<seq<Octet>>, ghost k: nat) returns (s: Stream, saved: Saved)
    requires Sound(f) && BlocksAt(f, disk, start, blocks) && k <= |blocks| && Full(blocks[..k])
    requires prefix == |EncodeBlocks(f, blocks[..k])| && cache == Concat(blocks[k..]) && n <= |cache|
    ensures Holding(f, s, saved, blocks, k) && fresh(s) && s.cacheBytes == n
  {
    hide EncodeBlocks, Concat, Sound, Walk;
    CutAt(f, disk, start, blocks, k);
    var table := ReadBytes(disk, start, prefix);
    s := new Stream.FromTable(f, table, cache, n, blocks[..k]);
    saved := Saved(s.tableBytes, s.cache);
    assert s.table[..s.tableBytes] == s.table;
  }

  /**
    read_filesystem and the saving of its result in main. With a name for the old root the caches
    keep the root inode and its directory; without one they will be replaced.
  */
  method ReadFilesystem(f: Format, disk: seq<Octet>, sb: Super, named: bool, ghost im: Image)
    returns (inodes: Stream, dirs: Stream, si: Saved, sd: Saved)
    requires WellFormed(f, disk, sb, im)
    ensures Holding(f, inodes, si, im.iblocks, im.rk) && Holding(f, dirs, sd, im.dblocks, im.dk)
    ensures fresh(inodes) && fresh(dirs) && inodes != dirs
    ensures inodes.cacheBytes == |si.cache| - if named then 0 else DIR_INODE_SIZE
    ensures |Concat(im.iblocks)| >= DIR_INODE_SIZE
    ensures dirs.cacheBytes == |sd.cache| - if named then 0
      else RootFileSize(f, Concat(im.iblocks)[|Concat(im.iblocks)| - DIR_INODE_SIZE..])
  {
    hide EncodeBlocks, Concat, Sound, Walk, Reaches, RootType, RootFileSize, RootOffset, RootStartBlock;
    var rootStart := sb.inodeStart + InodeBlk(sb.root);
    CutAt(f, disk, sb.inodeStart, im.iblocks, im.rk);
    WalkEncoded(f, disk, sb.inodeStart, im.iblocks);
    WalkEncoded(f, disk, sb.inodeStart, im.iblocks[..im.rk]);
    EncodeNotEmpty(f, im.iblocks[im.rk..]);
    var table, rootBlock := ScanBlocks(f, disk, sb.inodeStart, sb.dirStart, rootStart);
    var root := table[|table| - DIR_INODE_SIZE..];
    var size := RootOffset(f, root) + RootFileSize(f, root);
    CutAt(f, disk, sb.dirStart, im.dblocks, im.dk);
    var directory := ReadUpTo(f, disk, sb.dirStart + RootStartBlock(f, root), size, im.dblocks[im.dk..]);
    var rootEnd := InodeOffset(sb.root) + DIR_INODE_SIZE;
    assert table[rootBlock..] == Concat(im.iblocks[im.rk..]);
    inodes, si := OpenStream(f, disk, sb.inodeStart, rootStart - sb.inodeStart, table[rootBlock..rootBlock + rootEnd],
                             if named then rootEnd else rootEnd - DIR_INODE_SIZE, im.iblocks, im.rk);
    dirs, sd := OpenStream(f, disk, sb.dirStart, RootStartBlock(f, root), directory[..size],
                           if named then size else RootOffset(f, root), im.dblocks, im.dk);
  }

  lemma {:induction false} EncodeNotEmpty(f: Format, blocks: seq<seq<Octet>>)
    requires |blocks| > 0
    ensures |EncodeBlocks(f, blocks)| > 0
  {
    hide EncodeBlock;
    BlockNotEmpty(f, blocks[0]);
  }

  /**
    A record for the inode table, a listing for the directory table, file data for the write position,
    or the end of the low-memory branch of write_file on a hit: the write position goes to the start of
    the file found, and the file is cut there unless it is a block device.
  */
  datatype Append = Inode(record: seq<Octet>) | Directory(listing: seq<Octet>) | Data(data: seq<Octet>)
    | Hit(start: nat, cut: bool)

  /** The bytes some appends add to the inode table. */
  function InodeBytes(ops: seq<Append>): nat
  {
    if ops == [] then 0
    else InodeBytes(ops[..|ops| - 1]) + match ops[|ops| - 1] case Inode(record) => |record| case _ => 0
  }

  /** The records some appends add to the inode table, and the listings they add to the other one. */
  function Records(ops: seq<Append>): seq<Octet>
  {
    if ops == [] then []
    else Records(ops[..|ops| - 1]) + match ops[|ops| - 1] case Inode(record) => record case _ => []
  }

  function Listings(ops: seq<Append>): seq<Octet>
  {
    if ops == [] then []
    else Listings(ops[..|ops| - 1]) + match ops[|ops| - 1] case Directory(listing) => listing case _ => []
  }

  // ---- the data area

  /** A file that is at least n bytes long; past its end are zeros. */
  function Padded(disk: seq<Octet>, n: nat): (r: seq<Octet>)
    ensures |r| >= n && disk <= r
  {
    if n <= |disk| then disk else disk + seq(n - |disk|, i => 0)
  }

  /** The file and the write position. */
  datatype Area = Area(disk: seq<Octet>, bytes: nat)

  /** What one append does to them. */
  function AreaStep(a: Area, op: Append): Area
  {
    match op
    case Data(data) => Area(WriteBytes(a.disk, a.bytes, data), a.bytes + |data|)
    case Hit(start, cut) => Area(if cut then Padded(a.disk, start)[..start] else a.disk, start)
    case _ => a
  }

  function AreaAfter(a: Area, ops: seq<Append>): Area
  {
    if ops == [] then a else AreaStep(AreaAfter(a, ops[..|ops| - 1]), ops[|ops| - 1])
  }

  /** The lowest place the write position is put to. */
  function Lowest(n: nat, ops: seq<Append>): nat
  {
    if ops == [] then n
    else
      var low := Lowest(n, ops[..|ops| - 1]);
      match ops[|ops| - 1] case Hit(start, _) => if start < low then start else low case _ => low
  }

  /** The first n bytes are there again, or still. */
  ghost predicate OldData(disk: seq<Octet>, now: seq<Octet>, n: nat)
  {
    SamePrefix(disk, Padded(now, n), n)
  }

  /** Whatever is appended, nothing before the lowest write position changes. */
  lemma {:induction false} LowestKept(disk: seq<Octet>, n: nat, ops: seq<Append>)
    requires n <= |disk|
    ensures
      var a, low := AreaAfter(Area(disk, n), ops), Lowest(n, ops);
      low <= n && low <= a.bytes && SamePrefix(disk, a.disk, low)
    decreases |ops|
  {
    hide WriteBytes, SamePrefix, Padded;
    if ops == [] {
      SamePrefixSelf(disk, n);
    } else {
      var before, op := ops[..|ops| - 1], ops[|ops| - 1];
      LowestKept(disk, n, before);
      var a, low := AreaAfter(Area(disk, n), before), Lowest(n, before);
      match op
      case Data(data) => WrittenPast(disk, a.disk, low, a.bytes, data);
      case Hit(start, cut) => CutPast(disk, a.disk, low, if start < low then start else low, start);
      case _ =>
    }
  }

  lemma SamePrefixSelf(disk: seq<Octet>, n: nat)
    requires n <= |disk|
    ensures SamePrefix(disk, disk, n)
  {
  }

  /** What is written past a place leaves what is before it alone. */
  lemma WrittenPast(a: seq<Octet>, b: seq<Octet>, n: nat, at: nat, data: seq<Octet>)
    requires SamePrefix(a, b, n) && n <= at
    ensures SamePrefix(a, WriteBytes(b, at, data), n)
  {
    var c := WriteBytes(b, at, data);
    if at <= |b| {
      assert c[..at][..n] == c[..n] && b[..at][..n] == b[..n];
    } else {
      assert c[..n] == b[..n];
    }
  }

  /** So does a cut. */
  lemma CutPast(a: seq<Octet>, b: seq<Octet>, n: nat, low: nat, start: nat)
    requires SamePrefix(a, b, n) && low <= n && low <= start
    ensures SamePrefix(a, b, low) && SamePrefix(a, Padded(b, start)[..start], low)
  {
    assert a[..n][..low] == a[..low] && b[..n][..low] == b[..low];
    assert Padded(b, start)[..start][..low] == b[..low];
  }

  /** Without a hit below the saved end, all the old data is there. */
  lemma {:induction false} NoLowHit(disk: seq<Octet>, n: nat, ops: seq<Append>)
    requires n <= |disk| && Lowest(n, ops) == n
    ensures OldData(disk, AreaAfter(Area(disk, n), ops).disk, n)
  {
    LowestKept(disk, n, ops);
  }

  /** After a cut below the saved end the old data is there exactly if only zeros were cut off. */
  lemma {:induction false} CutLoses(disk: seq<Octet>, n: nat, ops: seq<Append>, start: nat)
    requires n <= |disk| && OldData(disk, AreaAfter(Area(disk, n), ops).disk, n) && start < n
    ensures OldData(disk, AreaAfter(Area(disk, n), ops + [Hit(start, true)]).disk, n) <==>
      forall i :: start <= i < n ==> disk[i] == 0
  {
    hide WriteBytes, AreaAfter;
    var was := AreaAfter(Area(disk, n), ops).disk;
    AreaAfterOne(Area(disk, n), ops, Hit(start, true));
    var now := Padded(Padded(was, start)[..start], n);
    assert Padded(was, n)[..n][..start] == Padded(was, start)[..start];
    assert now[..start] == disk[..n][..start];
    assert forall i :: start <= i < n ==> now[i] == 0;
    if forall i :: start <= i < n ==> disk[i] == 0 {
      assert now[..n] == disk[..n];
    } else {
      var i :| start <= i < n && disk[i] != 0;
      assert now[..n][i] != disk[..n][i];
    }
  }

  lemma {:induction false} AreaAfterOne(a: Area, ops: seq<Append>, op: Append)
    ensures AreaAfter(a, ops + [op]) == AreaStep(AreaAfter(a, ops), op)
  {
    assert (ops + [op])[..|ops|] == ops;
  }

  /** The old data is there whatever is written next. */
  ghost predicate Safe(disk: seq<Octet>, n: nat, ops: seq<Append>)
  {
    forall data: seq<Octet> :: OldData(disk, AreaAfter(Area(disk, n), ops + [Data(data)]).disk, n)
  }

  /**
    That is so exactly if it is there now and the write position is not below the saved end, as after a
    hit on an old file it is.
  */
  lemma {:induction false} SafeExactly(disk: seq<Octet>, n: nat, ops: seq<Append>)
    requires n <= |disk|
    ensures var a := AreaAfter(Area(disk, n), ops); Safe(disk, n, ops) <==> OldData(disk, a.disk, n) && n <= a.bytes
  {
    hide AreaAfter, OldData;
    var a := AreaAfter(Area(disk, n), ops);
    forall data: seq<Octet>
      ensures AreaAfter(Area(disk, n), ops + [Data(data)]).disk == WriteBytes(a.disk, a.bytes, data)
    {
      AreaAfterOne(Area(disk, n), ops, Data(data));
    }
    if n <= a.bytes {
      forall data: seq<Octet>
        ensures OldData(disk, WriteBytes(a.disk, a.bytes, data), n) <==> OldData(disk, a.disk, n)
      {
        WritePadded(disk, a.disk, n, a.bytes, data);
      }
      assert Safe(disk, n, ops) ==> OldData(disk, AreaAfter(Area(disk, n), ops + [Data([])]).disk, n);
    } else {
      var other: Octet := if disk[a.bytes] == 0 then 1 else 0;
      WriteOther(disk, a.disk, n, a.bytes, other);
      assert !OldData(disk, AreaAfter(Area(disk, n), ops + [Data([other])]).disk, n);
    }
  }

  lemma WritePadded(disk: seq<Octet>, now: seq<Octet>, n: nat, at: nat, data: seq<Octet>)
    requires n <= at
    ensures OldData(disk, WriteBytes(now, at, data), n) <==> OldData(disk, now, n)
  {
    assert Padded(WriteBytes(now, at, data), n)[..n] == Padded(now, n)[..n];
  }

  lemma WriteOther(disk: seq<Octet>, now: seq<Octet>, n: nat, at: nat, other: Octet)
    requires at < n <= |disk| && disk[at] != other
    ensures !OldData(disk, WriteBytes(now, at, [other]), n)
  {
    var w := WriteBytes(now, at, [other]);
    assert w[at..at + 1] == [other];
    assert Padded(w, n)[..n][at] == other && disk[..n][at] == disk[at];
  }

  /**
    Any run of appends. The data goes to the file from the saved end on, over the old tables, or from
    where a hit puts it.
  */
  method AppendAll(inodes: Stream, dirs: Stream, ops: seq<Append>, disk: seq<Octet>, from: nat, si: Saved, sd: Saved,
                   ghost f: Format, ghost im: Image)
    returns (disk': seq<Octet>)
    requires inodes != dirs && inodes.Valid() && dirs.Valid() && from <= |disk|
    requires Appending(f, inodes, si, im.iblocks, im.rk) && Appending(f, dirs, sd, im.dblocks, im.dk)
    modifies inodes, dirs
    ensures inodes.Valid() && dirs.Valid()
    ensures Appending(f, inodes, si, im.iblocks, im.rk) && Appending(f, dirs, sd, im.dblocks, im.dk)
    ensures |inodes.Contents()| == |old(inodes.Contents())| + InodeBytes(ops) && old(inodes.blocks) <= inodes.blocks
    ensures inodes.Contents() == old(inodes.Contents()) + Records(ops)
    ensures dirs.Contents() == old(dirs.Contents()) + Listings(ops)
    ensures disk' == AreaAfter(Area(disk, from), ops).disk
  {
    hide Sound, EncodeBlocks, Concat, BlockSizes, Full, Kept, RefOk, WriteBytes;
    assert ops[..|ops|] == ops;
    disk' := disk;
    var bytes := from;
    for n := 0 to |ops|
      invariant Area(disk', bytes) == AreaAfter(Area(disk, from), ops[..n])
      invariant inodes.Valid() && dirs.Valid()
      invariant inodes.Contents() == old(inodes.Contents()) + Records(ops[..n])
      invariant dirs.Contents() == old(dirs.Contents()) + Listings(ops[..n])
      invariant |inodes.Contents()| == |old(inodes.Contents())| + InodeBytes(ops[..n]) &&
        old(inodes.blocks) <= inodes.blocks
      invariant Appending(f, inodes, si, im.iblocks, im.rk) && Appending(f, dirs, sd, im.dblocks, im.dk)
    {
      assert ops[..n + 1][..n] == ops[..n];
      match ops[n]
      case Inode(record) =>
        var inode := inodes.AddRecord(record);
      case Directory(listing) =>
        var inode := dirs.AddRecord(listing);
      case Data(data) =>
        disk', bytes := WriteBytes(disk', bytes, data), bytes + |data|;
      case Hit(start, cut) =>
        bytes := start;
        if cut {
          disk' := Padded(disk', bytes)[..bytes];
        }
    }
  }

  /** A table with the contents of the original one, and the same first k blocks. */
  ghost predicate Rewritten(f: Format, disk: seq<Octet>, at: nat, blocks: seq<seq<Octet>>, original: seq<seq<Octet>>,
                            k: nat)
  {
    && Sound(f) && BlocksAt(f, disk, at, blocks) && AlmostFull(blocks)
    && Concat(blocks) == Concat(original) && k <= |original| && original[..k] <= blocks
  }

  lemma WrittenAfter(disk: seq<Octet>, at: nat, data: seq<Octet>)
    ensures SamePrefix(Padded(disk, at), WriteBytes(disk, at, data), at)
  {
    assert WriteBytes(disk, at, data)[..at] == Padded(disk, at)[..at];
  }

  /** One stream: interrupted anywhere, restored and written out, its table decodes to the original stream. */
  method AbortStream(s: Stream, b: Buffers, saved: Saved, disk: seq<Octet>, at: nat, ghost f: Format,
                     ghost original: seq<seq<Octet>>, ghost k: nat) returns (disk': seq<Octet>)
    requires Appending(f, s, saved, original, k) && b in s.trail
    modifies s
    ensures SamePrefix(Padded(disk, at), disk', at)
    ensures Rewritten(f, disk', at, s.blocks, original, k) && s.tableBytes == |EncodeBlocks(f, s.blocks)|
  {
    hide Sound, EncodeBlocks, Concat, Walk;
    ghost var i :| 0 <= i < |s.trail| && s.trail[i] == b;
    KeptAlong(f, saved, original[..k], s.trail, 0, i);
    s.Interrupt(b);
    s.Restore(saved, original[..k]);
    disk' := s.WriteTable(disk, at);
    WrittenAfter(disk, at, s.table[..s.tableBytes]);
  }

  /**
    restorefs, write_inodes and write_directories, from any state reached while appending: the new
    inode and directory tables decode to exactly the streams of the original filesystem. The root
    reference is not restored; root is what it is by then, and a reader finds the root if and only
    if that is still the original one. The image then is again one that can be appended to.
  */
  method Abort(inodes: Stream, dirs: Stream, bi: Buffers, bd: Buffers, si: Saved, sd: Saved, disk: seq<Octet>,
               sb: Super, root: nat,
               ghost f: Format, ghost im: Image) returns (disk': seq<Octet>, sb': Super, end: nat, ghost im': Image)
    requires inodes != dirs && RootLast(f, sb, im) && RootDirectoryLast(f, im)
    requires Appending(f, inodes, si, im.iblocks, im.rk) && Appending(f, dirs, sd, im.dblocks, im.dk)
    requires bi in inodes.trail && bd in dirs.trail && InodeOffset(root) < METADATA_SIZE
    modifies inodes, dirs
    ensures sb'.inodeStart == sb.inodeStart && SamePrefix(Padded(disk, sb.inodeStart), disk', sb.inodeStart)
    ensures Walk(f, disk', sb'.inodeStart, sb'.dirStart) == Concat(im.iblocks)
    ensures Walk(f, disk', sb'.dirStart, end) == Concat(im.dblocks)
    ensures RootFound(f, disk', sb') <==> root == sb.root
    ensures root == sb.root ==> WellFormed(f, disk', sb', im')
  {
    hide *;
    disk', sb', end, im' := AbortTables(inodes, dirs, bi, bd, si, sd, disk, sb, root, f, im);
    RestoredRoot(f, disk', sb, sb', im, im');
  }

  /** Both tables written again. */
  ghost predicate Restored(f: Format, disk: seq<Octet>, sb: Super, im: Image, im': Image)
  {
    && Rewritten(f, disk, sb.inodeStart, im'.iblocks, im.iblocks, im.rk) &&
      Rewritten(f, disk, sb.dirStart, im'.dblocks, im.dblocks, im.dk)
    && sb.dirStart == sb.inodeStart + |EncodeBlocks(f, im'.iblocks)| && im'.rk == im.rk && im'.dk == im.dk
  }

  lemma {:induction false} RestoredReads(f: Format, disk: seq<Octet>, sb: Super, im: Image, im': Image)
    requires Restored(f, disk, sb, im, im')
    ensures Walk(f, disk, sb.inodeStart, sb.dirStart) == Concat(im.iblocks)
    ensures Walk(f, disk, sb.dirStart, sb.dirStart + |EncodeBlocks(f, im'.dblocks)|) == Concat(im.dblocks)
  {
    hide Sound, EncodeBlocks, Concat, BlocksAt, AlmostFull, Walk;
    BlocksWalk(f, disk, sb.inodeStart, im'.iblocks);
    BlocksWalk(f, disk, sb.dirStart, im'.dblocks);
  }

  lemma {:induction false} RewrittenEnd(f: Format, disk: seq<Octet>, at: nat, blocks: seq<seq<Octet>>,
                                        original: seq<seq<Octet>>, k: nat)
    requires Rewritten(f, disk, at, blocks, original, k)
    ensures at + |EncodeBlocks(f, blocks)| <= |disk|
  {
    hide Sound, EncodeBlocks, Concat;
  }

  /** What is written past a table leaves it alone. */
  lemma {:induction false} RewrittenStays(f: Format, a: seq<Octet>, b: seq<Octet>, c: seq<Octet>, at: nat,
                                          blocks: seq<seq<Octet>>,
                                          original: seq<seq<Octet>>, k: nat)
    requires SamePrefix(a, b, at) && Rewritten(f, b, at, blocks, original, k) &&
      SamePrefix(b, c, at + |EncodeBlocks(f, blocks)|)
    ensures Rewritten(f, c, at, blocks, original, k) && SamePrefix(a, c, at)
  {
    hide Sound, EncodeBlocks, Concat, BlocksAt, SamePrefix;
    BlocksKeep(f, a, b, c, at, blocks);
  }

  lemma PaddedLong(disk: seq<Octet>, n: nat)
    requires n <= |disk|
    ensures Padded(disk, n) == disk
  {
  }

  /** restorefs and the writing of both tables. */
  method AbortTables(inodes: Stream, dirs: Stream, bi: Buffers, bd: Buffers, si: Saved, sd: Saved, disk: seq<Octet>,
                     sb: Super, root: nat,
                     ghost f: Format, ghost im: Image) returns (disk': seq<Octet>, sb': Super, end: nat,
                       ghost im': Image)
    requires inodes != dirs
    requires Appending(f, inodes, si, im.iblocks, im.rk) && Appending(f, dirs, sd, im.dblocks, im.dk)
    requires bi in inodes.trail && bd in dirs.trail
    modifies inodes, dirs
    ensures sb'.inodeStart == sb.inodeStart && sb'.root == root &&
      SamePrefix(Padded(disk, sb.inodeStart), disk', sb.inodeStart)
    ensures Walk(f, disk', sb'.inodeStart, sb'.dirStart) == Concat(im.iblocks)
    ensures Walk(f, disk', sb'.dirStart, end) == Concat(im.dblocks)
    ensures Restored(f, disk', sb', im, im')
  {
    hide EncodeBlocks, Concat, Walk, Rewritten, Appending, SamePrefix, Padded;
    var at := sb.inodeStart;
    disk' := AbortStream(inodes, bi, si, disk, at, f, im.iblocks, im.rk);
    ghost var first := disk';
    RewrittenEnd(f, disk', at, inodes.blocks, im.iblocks, im.rk);
    var dirStart := at + inodes.tableBytes;
    PaddedLong(disk', dirStart);
    disk' := AbortStream(dirs, bd, sd, disk', dirStart, f, im.dblocks, im.dk);
    end := dirStart + dirs.tableBytes;
    sb' := Super(at, dirStart, root);
    im' := Image(inodes.blocks, im.rk, dirs.blocks, im.dk);
    RewrittenStays(f, Padded(disk, at), first, disk', at, inodes.blocks, im.iblocks, im.rk);
    RestoredReads(f, disk', sb', im, im');
  }

  lemma {:induction false} RestoredRoot(f: Format, disk: seq<Octet>, sb: Super, sb': Super, im: Image, im': Image)
    requires Restored(f, disk, sb', im, im') && RootLast(f, sb, im) && RootDirectoryLast(f, im) &&
      InodeOffset(sb'.root) < METADATA_SIZE
    ensures RootFound(f, disk, sb') <==> sb'.root == sb.root
    ensures sb'.root == sb.root ==> WellFormed(f, disk, sb', im')
  {
    hide Sound, EncodeBlocks, Concat, BlocksAt, AlmostFull, RootLast, RootDirectoryLast, RootFound;
    var same := sb'.(root := sb.root);
    RootKept(f, sb, same, im, im');
    RootDirectoryKept(f, im, im');
    RootFoundExactly(f, disk, same, im', sb'.root);
    assert same.(root := sb'.root) == sb';
  }

  /** The restored inode table has the root at the same place. */
  lemma RootKept(f: Format, sb: Super, sb': Super, im: Image, im': Image)
    requires RootLast(f, sb, im) && sb'.root == sb.root && im'.rk == im.rk
    requires Concat(im'.iblocks) == Concat(im.iblocks) && im.iblocks[..im.rk] <= im'.iblocks
    ensures RootLast(f, sb', im')
  {
    hide EncodeBlocks, Concat;
    assert im'.iblocks[..im.rk] == im.iblocks[..im.rk];
    ConcatFull(im.iblocks[..im.rk]);
    assert im'.iblocks[..|im'.iblocks|] == im'.iblocks;
  }

  /** The restored directory table has the root directory at the same place. */
  lemma RootDirectoryKept(f: Format, im: Image, im': Image)
    requires RootDirectoryLast(f, im) && im'.dk == im.dk && Concat(im'.iblocks) == Concat(im.iblocks)
    requires Concat(im'.dblocks) == Concat(im.dblocks) && im.dblocks[..im.dk] <= im'.dblocks
    ensures RootDirectoryLast(f, im')
  {
    hide EncodeBlocks, Concat, RootType, RootFileSize, RootOffset, RootStartBlock;
    assert im'.dblocks[..im.dk] == im.dblocks[..im.dk];
  }

  /** A place the scan of a table comes to is the start of one of its blocks, or its end. */
  lemma {:induction false} ReachesBlock(f: Format, disk: seq<Octet>, start: nat, blocks: seq<seq<Octet>>, at: nat)
    returns (k: nat)
    requires Sound(f) && BlocksAt(f, disk, start, blocks)
    requires Reaches(f, disk, start, at) && at <= start + |EncodeBlocks(f, blocks)|
    ensures k <= |blocks| && at == start + |EncodeBlocks(f, blocks[..k])|
    decreases |blocks|
  {
    hide ReadBlock, EncodeBlock, Sound;
    k := 0;
    if start < at {
      var b, e := blocks[0], EncodeBlocks(f, blocks);
      BlockNotEmpty(f, b);
      HoldsPart(disk, start, e, 0, |EncodeBlock(f, b)|);
      HoldsPart(disk, start, e, |EncodeBlock(f, b)|, |e|);
      assert e[|EncodeBlock(f, b)|..|e|] == EncodeBlocks(f, blocks[1..]);
      ReadBlockBack(f, disk, start, b);
      var j := ReachesBlock(f, disk, start + |EncodeBlock(f, b)|, blocks[1..], at);
      assert blocks[..j + 1] == [b] + blocks[1..][..j];
      k := j + 1;
    }
  }

  /** Of all numbers with an offset inside a block, only the root's own is found to be the root. */
  lemma {:induction false} RootFoundExactly(f: Format, disk: seq<Octet>, sb: Super, im: Image, root: nat)
    requires Sound(f) && BlocksAt(f, disk, sb.inodeStart, im.iblocks) && AlmostFull(im.iblocks)
    requires sb.dirStart == sb.inodeStart + |EncodeBlocks(f, im.iblocks)| && RootLast(f, sb, im) &&
      InodeOffset(root) < METADATA_SIZE
    ensures RootFound(f, disk, sb.(root := root)) <==> root == sb.root
  {
    hide EncodeBlocks, Concat, Sound, Walk, Reaches, BlocksAt;
    var start, blocks, at := sb.inodeStart, im.iblocks, sb.inodeStart + InodeBlk(root);
    RootAt(f, disk, start, blocks, im.rk);
    if at < sb.dirStart && Reaches(f, disk, start, at) {
      var k := ReachesBlock(f, disk, start, blocks, at);
      assert blocks[..|blocks|] == blocks;
      RootAt(f, disk, start, blocks, k);
      if |Walk(f, disk, at, sb.dirStart)| == InodeOffset(root) + DIR_INODE_SIZE {
        assert METADATA_SIZE * k + InodeOffset(root) == METADATA_SIZE * im.rk + InodeOffset(sb.root);
        assert k == im.rk;
      }
    }
  }

  /** From block k on, the scan reads the rest of the stream. */
  lemma {:induction false} RootAt(f: Format, disk: seq<Octet>, start: nat, blocks: seq<seq<Octet>>, k: nat)
    requires Sound(f) && BlocksAt(f, disk, start, blocks) && AlmostFull(blocks) && k < |blocks|
    ensures
      var at, end := start + |EncodeBlocks(f, blocks[..k])|, start + |EncodeBlocks(f, blocks)|;
      at < end && Reaches(f, disk, start, at) && |Walk(f, disk, at, end)| + METADATA_SIZE * k == |Concat(blocks)|
  {
    hide EncodeBlocks, Concat, Sound, Walk, Reaches, BlocksAt;
    CutAt(f, disk, start, blocks, k);
    BlocksReach(f, disk, start, blocks[..k]);
    EncodeNotEmpty(f, blocks[k..]);
    BlocksWalk(f, disk, start + |EncodeBlocks(f, blocks[..k])|, blocks[k..]);
  }

  lemma {:induction false} BlocksReach(f: Format, disk: seq<Octet>, at: nat, blocks: seq<seq<Octet>>)
    requires Sound(f) && BlocksAt(f, disk, at, blocks)
    ensures Reaches(f, disk, at, at + |EncodeBlocks(f, blocks)|)
  {
    hide Sound, EncodeBlocks, Concat, Walk, Reaches;
    WalkEncoded(f, disk, at, blocks);
  }

  ghost predicate SamePrefix(a: seq<Octet>, b: seq<Octet>, n: nat)
  {
    n <= |a| && n <= |b| && a[..n] == b[..n]
  }

  lemma {:induction false} BlocksEnd(f: Format, disk: seq<Octet>, at: nat, blocks: seq<seq<Octet>>)
    requires BlocksAt(f, disk, at, blocks)
    ensures at + |EncodeBlocks(f, blocks)| <= |disk|
  {
  }

  lemma {:induction false} BlocksWalk(f: Format, disk: seq<Octet>, at: nat, blocks: seq<seq<Octet>>)
    requires Sound(f) && BlocksAt(f, disk, at, blocks)
    ensures Walk(f, disk, at, at + |EncodeBlocks(f, blocks)|) == Concat(blocks)
  {
    hide Sound, EncodeBlocks, Concat, Walk, Reaches;
    WalkEncoded(f, disk, at, blocks);
  }

  /** What is written past a table leaves the table and what is before it alone. */
  lemma {:induction false} BlocksKeep(f: Format, a: seq<Octet>, b: seq<Octet>, c: seq<Octet>, at: nat,
                                      blocks: seq<seq<Octet>>)
    requires SamePrefix(a, b, at) && BlocksAt(f, b, at, blocks) && SamePrefix(b, c, at + |EncodeBlocks(f, blocks)|)
    ensures BlocksAt(f, c, at, blocks) && SamePrefix(a, c, at)
  {
    hide EncodeBlocks;
    var end := at + |EncodeBlocks(f, blocks)|;
    assert c[..end][at..] == c[at..end] && b[..end][at..] == b[at..end];
    assert c[..end][..at] == c[..at] && b[..end][..at] == b[..at];
  }

  lemma HoldingAppending(f: Format, s: Stream, saved: Saved, original: seq<seq<Octet>>, k: nat)
    requires Holding(f, s, saved, original, k)
    ensures Appending(f, s, saved, original, k) && s.Now() in s.trail
  {
    hide EncodeBlocks, Concat, Sound;
  }

  /**
    The whole path: open a filesystem, append anything and write any file data over the old tables,
    give up; a reader finds the tables it had before. Each stream is at any of the states between two
    assignments that it has been through: number i for the inodes and number j for the directories, or
    the last one. The old data is unchanged up to the lowest place a duplicate found in low memory has
    put the write position to, and all of it is there if and only if it was when the abort came. If the
    new root inode had already been put in the superblock, the reader finds the root only if that inode
    happens to lie where the old one did: when the old root was to be replaced and no other inode had
    come before the new one.
  */
  method AppendAndAbort(f: Format, disk: seq<Octet>, sb: Super, named: bool, ops: seq<Append>, late: bool,
                        newRoot: seq<Octet>,
                        i: nat, j: nat, ghost im: Image)
    returns (disk': seq<Octet>, sb': Super, end: nat, ghost im': Image)
    requires WellFormed(f, disk, sb, im)
    ensures sb'.inodeStart == sb.inodeStart && SamePrefix(disk, disk', Lowest(sb.inodeStart, ops))
    ensures SamePrefix(disk, disk', sb.inodeStart) <==>
      OldData(disk, AreaAfter(Area(disk, sb.inodeStart), ops).disk, sb.inodeStart)
    ensures Walk(f, disk', sb'.inodeStart, sb'.dirStart) == Walk(f, disk, sb.inodeStart, sb.dirStart)
    ensures Walk(f, disk', sb'.dirStart, end) == Walk(f, disk, sb.dirStart, sb.dirStart + |EncodeBlocks(f, im.dblocks)|)
    ensures RootFound(f, disk', sb') <==> !late || (!named && InodeBytes(ops) == 0)
    ensures RootFound(f, disk', sb') ==> WellFormed(f, disk', sb', im')
  {
    hide Sound, EncodeBlocks, Concat, Walk, BlocksAt, RootLast, RootDirectoryLast, RootFound, WellFormed, Holding,
      Appending, SamePrefix,
         Stream.Valid, OldData, Padded, AreaAfter, Lowest;
    WellFormedWalks(f, disk, sb, im);
    var inodes, dirs, si, sd := ReadFilesystem(f, disk, sb, named, im);
    HoldingAppending(f, inodes, si, im.iblocks, im.rk);
    HoldingAppending(f, dirs, sd, im.dblocks, im.dk);
    HoldingLength(f, inodes, si, im.iblocks, im.rk);
    HoldingValid(f, dirs, sd, im.dblocks, im.dk);
    var now := AppendAll(inodes, dirs, ops, disk, sb.inodeStart, si, sd, f, im);
    var root := sb.root;
    if late {
      root := ReplaceRoot(inodes, newRoot, si, sb, f, im);
    }
    var bi, bd := StateAt(inodes, i), StateAt(dirs, j);
    disk', sb', end, im' := Abort(inodes, dirs, bi, bd, si, sd, now, sb, root, f, im);
    LowestKept(disk, sb.inodeStart, ops);
    DataKept(disk, now, disk', Lowest(sb.inodeStart, ops), sb.inodeStart);
  }

  lemma DataKept(disk: seq<Octet>, now: seq<Octet>, disk': seq<Octet>, low: nat, n: nat)
    requires SamePrefix(disk, now, low) && SamePrefix(Padded(now, n), disk', n) && low <= n <= |disk|
    ensures SamePrefix(disk, disk', low) && (SamePrefix(disk, disk', n) <==> OldData(disk, now, n))
  {
    assert Padded(now, n)[..n][..low] == now[..low] && disk'[..n][..low] == disk'[..low];
  }

  /** One of the states a stream has been through. */
  function StateAt(s: Stream, i: nat): (b: Buffers)
    requires s.Valid()
    reads s
    ensures b in s.trail && (i < |s.trail| ==> b == s.trail[i])
  {
    if i < |s.trail| then s.trail[i] else s.trail[|s.trail| - 1]
  }

  /** The last inode of dir_scan becomes the root in the superblock. */
  method ReplaceRoot(inodes: Stream, record: seq<Octet>, si: Saved, sb: Super, ghost f: Format, ghost im: Image)
    returns (root: nat)
    requires inodes.Valid() && Appending(f, inodes, si, im.iblocks, im.rk) && RootLast(f, sb, im) &&
      im.iblocks[..im.rk] <= inodes.blocks
    modifies inodes
    ensures inodes.Valid() && Appending(f, inodes, si, im.iblocks, im.rk) && InodeOffset(root) < METADATA_SIZE
    ensures root == sb.root <==> |old(inodes.Contents())| + DIR_INODE_SIZE == |Concat(im.iblocks)|
  {
    hide Sound, EncodeBlocks, Concat, BlockSizes, Kept, RefOk;
    root := inodes.AddRecord(record);
    assert inodes.table[..inodes.tableBytes] == EncodeBlocks(inodes.f, inodes.blocks);
    SameRoot(f, sb, im, inodes.blocks, root);
  }

  /** Two references into growing tables are the same exactly when they name the same position. */
  lemma {:induction false} SameRoot(f: Format, sb: Super, im: Image, blocks: seq<seq<Octet>>, root: nat)
    requires RootLast(f, sb, im) && im.iblocks[..im.rk] <= blocks
    requires InodeBlk(root) == |EncodeBlocks(f, blocks)| && InodeOffset(root) < METADATA_SIZE
    ensures root == sb.root <==>
      METADATA_SIZE * |blocks| + InodeOffset(root) == METADATA_SIZE * im.rk + InodeOffset(sb.root)
  {
    hide EncodeBlocks, Concat;
    var kept, more := im.iblocks[..im.rk], blocks[im.rk..];
    assert blocks == kept + more;
    EncodeBlocksAppend(f, kept, more);
    if more != [] {
      EncodeNotEmpty(f, more);
    } else {
      assert blocks == kept;
    }
  }

  /** What is in an opened stream, by length. */
  lemma {:induction false} HoldingLength(f: Format, s: Stream, saved: Saved, original: seq<seq<Octet>>, k: nat)
    requires Holding(f, s, saved, original, k)
    ensures s.Valid() && |s.Contents()| + |saved.cache| == |Concat(original)| + s.cacheBytes &&
      original[..k] <= s.blocks
  {
    hide EncodeBlocks, Concat, Sound;
  }

  lemma {:induction false} WellFormedWalks(f: Format, disk: seq<Octet>, sb: Super, im: Image)
    requires WellFormed(f, disk, sb, im)
    ensures Walk(f, disk, sb.inodeStart, sb.dirStart) == Concat(im.iblocks) && sb.inodeStart <= |disk|
    ensures Walk(f, disk, sb.dirStart, sb.dirStart + |EncodeBlocks(f, im.dblocks)|) == Concat(im.dblocks)
    ensures RootLast(f, sb, im) && RootDirectoryLast(f, im) && InodeOffset(sb.root) < METADATA_SIZE
  {
    hide Sound, EncodeBlocks, Concat, Walk, BlocksAt, RootDirectoryLast;
    BlocksWalk(f, disk, sb.inodeStart, im.iblocks);
    BlocksWalk(f, disk, sb.dirStart, im.dblocks);
    BlocksEnd(f, disk, sb.inodeStart, im.iblocks);
  }

  lemma HoldingValid(f: Format, s: Stream, saved: Saved, original: seq<seq<Octet>>, k: nat)
    requires Holding(f, s, saved, original, k)
    ensures s.Valid()
  {
  }
}
