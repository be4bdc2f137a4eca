/**
  A whole image: write_dir of mksquashfs.c puts a listing in the directory table and its size and place
  in the bit fields of a directory inode, main writes both tables with the root as the last inode, and
  read_filesystem and squashfs_readdir of read_fs.c read the root directory back from those fields.
*/
module Filesystem {
  import opened BitCodec
  import opened MetaBlocks
  import opened MetaStream
  import opened Restore
  import D = Directory

  const SIZE_LIMIT := 524288
  const START_LIMIT := 16777216

  /** What an inode says of a directory besides where its listing is. */
  datatype Attributes = Attributes(mode: nat, uid: nat, guid: nat, mtime: nat)

  // ---- the directory inode

  /** The inode of a directory as create_inode fills it in: every number is cut to its field. */
  function DirInode(order: Order, a: Attributes, size: nat, offset: nat, start: nat): (b: seq<Octet>)
    ensures |b| == DIR_INODE_SIZE
  {
    Encode(order, DIR_INODE, DirValues(a, size, offset, start), DIR_INODE_SIZE)
  }

  function DirValues(a: Attributes, size: nat, offset: nat, start: nat): (vs: seq<seq<bool>>)
    ensures Values(DIR_INODE, vs)
  {
    [Bits(DIR_TYPE, 4), Bits(a.mode, 12), Bits(a.uid, 8), Bits(a.guid, 8),
     Bits(size, 19), Bits(offset, 13), Bits(a.mtime, 32), Bits(start, 24)]
  }

  lemma MorePowers()
    ensures Power2(4) == 16 && Power2(13) == 8192 && Power2(19) == SIZE_LIMIT && Power2(24) == START_LIMIT
  {
    Powers();
    assert Power2(4) == 2 * Power2(3);
    assert Power2(18) == 4 * Power2(16);
  }

  /** What a reader finds in the inode: the type, and size, offset and start modulo 2^19, 2^13 and 2^24. */
  lemma DirInodeBack(f: Format, a: Attributes, size: nat, offset: nat, start: nat)
    ensures
      var b := DirInode(f.order, a, size, offset, start);
      && RootType(f, b) == 1 && RootFileSize(f, b) == size % SIZE_LIMIT
      && RootOffset(f, b) == offset % METADATA_SIZE && RootStartBlock(f, b) == start % START_LIMIT
  {
    var vs, b := DirValues(a, size, offset, start), DirInode(f.order, a, size, offset, start);
    FileLayouts();
    EncodePacked(f.order, DIR_INODE, vs, DIR_INODE_SIZE);
    RoundTrip(f.order, DIR_INODE, vs, b, 0);
    RoundTrip(f.order, DIR_INODE, vs, b, 4);
    RoundTrip(f.order, DIR_INODE, vs, b, 5);
    RoundTrip(f.order, DIR_INODE, vs, b, 7);
    hide Encode, Decode, Bits, Number, Power2;
    MorePowers();
    NumberBitsCut(DIR_TYPE, 4);
    NumberBitsCut(size, 19);
    NumberBitsCut(offset, 13);
    NumberBitsCut(start, 24);
  }

  /** A listing of 2^19 bytes is stored as one of no bytes. */
  lemma SizeLost(f: Format, a: Attributes, offset: nat, start: nat)
    ensures RootFileSize(f, DirInode(f.order, a, SIZE_LIMIT, offset, start)) == 0
  {
    hide RootFileSize, DirInode;
    DirInodeBack(f, a, SIZE_LIMIT, offset, start);
  }

  // ---- an image

  /**
    What a writer leaves: two tables of blocks, the root inode last in one and the listing it is about
    last in the other.
  */
  ghost predicate Written(f: Format, disk: seq<Octet>, sb: Super, im: Image, a: Attributes, listing: seq<Octet>,
                          offset: nat)
  {
    && Sound(f) && BlocksAt(f, disk, sb.inodeStart, im.iblocks) && BlocksAt(f, disk, sb.dirStart, im.dblocks)
    && sb.dirStart == sb.inodeStart + |EncodeBlocks(f, im.iblocks)| && RootLast(f, sb, im)
    && im.dk <= |im.dblocks| && Full(im.dblocks[..im.dk]) && offset < METADATA_SIZE
    && Ends(Concat(im.iblocks), DirInode(f.order, a, |listing|, offset, Place(f, im)))
    && Ends(Concat(im.dblocks), listing) && METADATA_SIZE * im.dk + offset + |listing| == |Concat(im.dblocks)|
  }

  ghost predicate Ends(s: seq<Octet>, t: seq<Octet>)
  {
    |t| <= |s| && s[|s| - |t|..] == t
  }

  /** Where the block of the root directory is in the directory table. */
  ghost function Place(f: Format, im: Image): nat
    requires im.dk <= |im.dblocks|
  {
    |EncodeBlocks(f, im.dblocks[..im.dk])|
  }

  /** Such an image can be read and appended to exactly when size and place of the listing fit their fields. */
  lemma {:induction false} WrittenWellFormed(f: Format, disk: seq<Octet>, sb: Super, im: Image, a: Attributes,
                                             listing: seq<Octet>, offset: nat)
    requires Written(f, disk, sb, im, a, listing, offset)
    ensures WellFormed(f, disk, sb, im) <==> |listing| < SIZE_LIMIT && Place(f, im) < START_LIMIT
  {
    hide Sound, EncodeBlocks, Concat, BlocksAt, RootLast, DirInode, RootType, RootFileSize, RootOffset, RootStartBlock;
    DirInodeBack(f, a, |listing|, offset, Place(f, im));
    ModSmall(|listing|, SIZE_LIMIT);
    ModSmall(Place(f, im), START_LIMIT);
    ModSmall(offset, METADATA_SIZE);
  }

  /** write_dir: the listing goes to the directory table, and an inode with its size and place to the inode table. */
  method WriteDir(inodes: Stream, dirs: Stream, entries: seq<D.Entry>, a: Attributes)
    returns (inode: nat, listing: seq<Octet>, offset: nat, ghost runs: seq<D.Run>)
    requires inodes != dirs && inodes.Valid() && dirs.Valid() && inodes.f == dirs.f
    requires forall i :: 0 <= i < |entries| ==> D.EntryOk(entries[i])
    modifies inodes, dirs
    ensures D.RunsOk(runs) && D.Flatten(runs) == entries && listing == D.EncodeRuns(dirs.f.order, runs)
    ensures inodes.Valid() && dirs.Valid() && dirs.Contents() == old(dirs.Contents()) + listing
    ensures offset < METADATA_SIZE && METADATA_SIZE * |dirs.blocks| + offset == |old(dirs.Contents())|
    ensures inodes.Contents() == old(inodes.Contents()) + DirInode(dirs.f.order, a, |listing|, offset, dirs.tableBytes)
    ensures InodeBlk(inode) == inodes.tableBytes && InodeOffset(inode) < METADATA_SIZE
    ensures METADATA_SIZE * |inodes.blocks| + InodeOffset(inode) == |old(inodes.Contents())|
  {
    hide Sound, EncodeBlocks, Concat, BlockSizes, RefOk, DirValues, D.EncodeRuns, D.Flatten;
    listing, runs := D.BuildListing(dirs.f.order, entries);
    var d := dirs.AddRecord(listing);
    offset := InodeOffset(d);
    FileLayouts();
    var header := PackStruct(dirs.f.order, DIR_INODE, DirValues(a, |listing|, offset, dirs.tableBytes), DIR_INODE_SIZE);
    inode := inodes.AddRecord(header);
  }

  /** write_inodes and write_directories after the root directory. */
  method WriteTables(inodes: Stream, dirs: Stream, disk: seq<Octet>, at: nat, root: nat)
    returns (disk': seq<Octet>, sb: Super, ghost im: Image)
    requires inodes != dirs && inodes.Valid() && dirs.Valid() && inodes.f == dirs.f && at <= |disk|
    modifies inodes, dirs
    ensures SamePrefix(disk, disk', at) && sb == Super(at, at + |EncodeBlocks(inodes.f, im.iblocks)|, root)
    ensures Sound(inodes.f) && BlocksAt(inodes.f, disk', sb.inodeStart, im.iblocks) &&
      BlocksAt(inodes.f, disk', sb.dirStart, im.dblocks)
    ensures Concat(im.iblocks) == old(inodes.Contents()) && Concat(im.dblocks) == old(dirs.Contents())
    ensures im.rk == |old(inodes.blocks)| <= |im.iblocks| && im.iblocks[..im.rk] == old(inodes.blocks)
    ensures im.dk == |old(dirs.blocks)| <= |im.dblocks| && im.dblocks[..im.dk] == old(dirs.blocks)
  {
    hide Sound, EncodeBlocks, Concat, BlockSizes, RefOk, Walk, WriteBytes;
    var f := inodes.f;
    im := Image([], |inodes.blocks|, [], |dirs.blocks|);
    disk' := inodes.WriteTable(disk, at);
    ghost var first := disk';
    var dirStart := at + inodes.tableBytes;
    disk' := dirs.WriteTable(disk', dirStart);
    sb := Super(at, dirStart, root);
    im := im.(iblocks := inodes.blocks, dblocks := dirs.blocks);
    BlocksKeep(f, disk, first, disk', at, inodes.blocks);
  }

  /** The root directory is written, and then the tables. */
  method WriteImage(inodes: Stream, dirs: Stream, entries: seq<D.Entry>, a: Attributes, disk: seq<Octet>, at: nat)
    returns (disk': seq<Octet>, sb: Super, listing: seq<Octet>, start: nat, ghost offset: nat, ghost im: Image,
      ghost runs: seq<D.Run>)
    requires inodes != dirs && inodes.Valid() && dirs.Valid() && inodes.f == dirs.f && at <= |disk|
    requires forall i :: 0 <= i < |entries| ==> D.EntryOk(entries[i])
    modifies inodes, dirs
    ensures D.RunsOk(runs) && D.Flatten(runs) == entries && listing == D.EncodeRuns(dirs.f.order, runs)
    ensures Written(dirs.f, disk', sb, im, a, listing, offset) && start == Place(dirs.f, im) &&
      SamePrefix(disk, disk', at)
  {
    hide Sound, EncodeBlocks, Concat, RefOk, DirInode, BlocksAt, SamePrefix, BlockSizes, D.EncodeRuns, D.Flatten,
      D.RunsOk;
    var root;
    root, listing, offset, runs := WriteDir(inodes, dirs, entries, a);
    start := dirs.tableBytes;
    assert dirs.table[..start] == EncodeBlocks(dirs.f, dirs.blocks) &&
      inodes.table[..inodes.tableBytes] == EncodeBlocks(inodes.f, inodes.blocks);
    ghost var ci, cd := inodes.Contents(), dirs.Contents();
    disk', sb, im := WriteTables(inodes, dirs, disk, at, root);
    MoreBlocks(im.iblocks, im.rk);
  }

  /** A stream longer than its first k full blocks has another block. */
  lemma {:induction false} MoreBlocks(blocks: seq<seq<Octet>>, k: nat)
    requires k <= |blocks| && Full(blocks[..k])
    ensures METADATA_SIZE * k < |Concat(blocks)| ==> k < |blocks|
  {
    hide Concat;
    if k == |blocks| {
      assert blocks[..k] == blocks;
      ConcatFull(blocks);
    }
  }

  // ---- reading the root directory

  /**
    scan_inode_table and the start of squashfs_readdir for the root: the last inode says where the
    listing is and how long, each cut to its field. The block is the right one exactly if it lies
    below 2^24 bytes of directory table.
  */
  method RootPlace(f: Format, disk: seq<Octet>, sb: Super, ghost im: Image, ghost a: Attributes,
                   ghost listing: seq<Octet>, ghost offset: nat)
    returns (place: nat, at: nat, size: nat)
    requires Written(f, disk, sb, im, a, listing, offset)
    ensures place == sb.dirStart + Place(f, im) % START_LIMIT && at == offset && size == offset + |listing| % SIZE_LIMIT
    ensures place == sb.dirStart + Place(f, im) <==> Place(f, im) < START_LIMIT
  {
    hide Sound, EncodeBlocks, Concat, BlocksAt, RootLast, DirInode, RootType, RootFileSize, RootOffset, RootStartBlock,
      Walk, Reaches;
    BlocksWalk(f, disk, sb.inodeStart, im.iblocks);
    DirInodeBack(f, a, |listing|, offset, Place(f, im));
    ModSmall(offset, METADATA_SIZE);
    var table, rootBlock := ScanBlocks(f, disk, sb.inodeStart, sb.dirStart, sb.inodeStart + InodeBlk(sb.root));
    var root := table[|table| - DIR_INODE_SIZE..];
    place, at := sb.dirStart + RootStartBlock(f, root), RootOffset(f, root);
    size := at + RootFileSize(f, root);
  }

  /**
    The block loop of squashfs_readdir for the root. If the place in the inode is that of the j-th
    block, the directory is taken from the j-th block on, whichever block the listing starts in.
  */
  method ReadRootBlocks(f: Format, disk: seq<Octet>, sb: Super, ghost im: Image, ghost a: Attributes,
                        ghost listing: seq<Octet>, ghost offset: nat,
                        ghost j: nat) returns (directory: seq<Octet>, at: nat, size: nat)
    requires Written(f, disk, sb, im, a, listing, offset)
    requires j <= im.dk && Place(f, im) % START_LIMIT == |EncodeBlocks(f, im.dblocks[..j])|
    ensures at == offset && size == offset + |listing| % SIZE_LIMIT <= |directory| &&
      directory <= Concat(im.dblocks[j..])
  {
    hide Sound, EncodeBlocks, Concat, BlocksAt, RootLast, DirInode;
    var place;
    place, at, size := RootPlace(f, disk, sb, im, a, listing, offset);
    assert im.dblocks[..j] == im.dblocks[..im.dk][..j];
    CutAt(f, disk, sb.dirStart, im.dblocks, j);
    directory := ReadUpTo(f, disk, place, size, im.dblocks[j..]);
  }

  /** While the place fits its field, the entries of the root come back exactly if the size fits too. */
  method ReadRoot(f: Format, disk: seq<Octet>, sb: Super, ghost im: Image, ghost a: Attributes,
                  ghost listing: seq<Octet>, ghost offset: nat,
                  ghost runs: seq<D.Run>) returns (entries: seq<D.Entry>)
    requires Written(f, disk, sb, im, a, listing, offset) && Place(f, im) < START_LIMIT
    requires D.RunsOk(runs) && listing == D.EncodeRuns(f.order, runs)
    ensures entries == D.Flatten(runs) <==> |listing| < SIZE_LIMIT
  {
    hide Sound, EncodeBlocks, Concat, BlocksAt, RootLast, DirInode, D.EncodeRuns, D.Flatten, D.RunsOk;
    CutAt(f, disk, sb.dirStart, im.dblocks, im.dk);
    ModSmall(Place(f, im), START_LIMIT);
    var directory, at, size := ReadRootBlocks(f, disk, sb, im, a, listing, offset, im.dk);
    EndsTail(Concat(im.dblocks[..im.dk]), Concat(im.dblocks[im.dk..]), listing, offset);
    ListingRead(f.order, directory, Concat(im.dblocks[im.dk..]), offset, size, runs);
    entries := D.ReadDir(f.order, directory, at, size, runs);
  }

  lemma EndsTail(a: seq<Octet>, b: seq<Octet>, t: seq<Octet>, offset: nat)
    requires Ends(a + b, t) && offset + |t| == |b|
    ensures b[offset..] == t
  {
    assert (a + b)[|a| + offset..] == b[offset..];
  }

  /** What has been read of the directory table is the listing, or a listing whose size was cut. */
  lemma {:induction false} ListingRead(order: Order, table: seq<Octet>, all: seq<Octet>, offset: nat, size: nat,
                                       runs: seq<D.Run>)
    requires D.RunsOk(runs) && table <= all && offset <= |all| && all[offset..] == D.EncodeRuns(order, runs)
    requires size == offset + |D.EncodeRuns(order, runs)| % SIZE_LIMIT && size <= |table|
    ensures |D.EncodeRuns(order, runs)| < SIZE_LIMIT ==>
      size == offset + |D.EncodeRuns(order, runs)| && Holds(table, offset, D.EncodeRuns(order, runs))
    ensures |D.EncodeRuns(order, runs)| >= SIZE_LIMIT ==> runs != [] && D.Short(order, table, offset, size, runs)
  {
    hide D.EncodeRuns, D.Flatten;
    var listing := D.EncodeRuns(order, runs);
    D.NoRuns(order, runs);
    forall i | 0 <= i < |listing| && offset + i < |table|
      ensures table[offset + i] == listing[i]
    {
      assert all[offset + i] == all[offset..][i];
    }
    if |listing| < SIZE_LIMIT {
      assert table[offset..offset + |listing|] == all[offset..];
    } else {
      CutSize(|listing|);
    }
  }

  lemma CutSize(n: nat)
    requires n >= SIZE_LIMIT
    ensures n % SIZE_LIMIT + SIZE_LIMIT <= n
  {
  }

  /** An entry takes at least four bytes. */
  lemma {:induction false} ListingAtLeast(order: Order, rs: seq<D.Run>)
    requires D.RunsOk(rs)
    ensures |D.EncodeRuns(order, rs)| >= 4 * |D.Flatten(rs)|
    decreases |rs|
  {
    hide D.EncodeHeader, D.EncodeEntries;
    if rs != [] {
      assert D.RunOk(rs[0]);
      EntriesAtLeast(order, rs[0].start, rs[0].entries);
      ListingAtLeast(order, rs[1..]);
    }
  }

  lemma {:induction false} EntriesAtLeast(order: Order, start: nat, es: seq<D.Entry>)
    requires D.RunEntries(start, es)
    ensures |D.EncodeEntries(order, es)| >= 4 * |es|
    decreases |es|
  {
    hide D.EncodeFields;
    if es != [] {
      assert D.EntryOk(es[0]);
      EntriesAtLeast(order, start, es[1..]);
    }
  }

  /**
    A directory through its whole life: built, appended with its inode, written as the root of an image
    and read back from the fields of that inode. The block read is the one at the place modulo 2^24.
    While that is the block the listing starts in, the same entries come back in the same order if and
    only if the listing has less than 2^19 bytes, which no directory of 131072 entries or more has.
  */
  method WriteAndReadBack(inodes: Stream, dirs: Stream, entries: seq<D.Entry>, a: Attributes, disk: seq<Octet>, at: nat)
    returns (disk': seq<Octet>, sb: Super, listing: seq<Octet>, start: nat, place: nat, read: seq<D.Entry>,
      ghost im: Image)
    requires inodes != dirs && inodes.Valid() && dirs.Valid() && inodes.f == dirs.f && at <= |disk|
    requires forall i :: 0 <= i < |entries| ==> D.EntryOk(entries[i])
    modifies inodes, dirs
    ensures place == sb.dirStart + start % START_LIMIT
    ensures start < START_LIMIT ==> (read == entries <==> |listing| < SIZE_LIMIT)
    ensures |listing| >= 4 * |entries|
    ensures WellFormed(dirs.f, disk', sb, im) <==> |listing| < SIZE_LIMIT && start < START_LIMIT
  {
    hide *;
    ghost var offset, runs;
    disk', sb, listing, start, offset, im, runs := WriteImage(inodes, dirs, entries, a, disk, at);
    WrittenWellFormed(dirs.f, disk', sb, im, a, listing, offset);
    ListingAtLeast(dirs.f.order, runs);
    var from, size;
    place, from, size := RootPlace(dirs.f, disk', sb, im, a, listing, offset);
    read := [];
    if start < START_LIMIT {
      read := ReadRoot(dirs.f, disk', sb, im, a, listing, offset, runs);
    }
  }
}
