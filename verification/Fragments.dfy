/**
  Tail-end packing and duplicate detection in mksquashfs.c: the ends of files share fragment
  blocks, and a file whose stored bytes and tail are already in the filesystem is not stored again.
*/
module Fragments {
  import opened BitCodec
  import opened MetaBlocks
  import opened MetaStream

  const FILE_MAX_SIZE := 65536
  const COMPRESSED_BIT_BLOCK := 0x1000000
  const INVALID_BLK := 0xffffffff

  // ---- data and fragment blocks

  /** SQUASHFS_COMPRESSED_BLOCK and SQUASHFS_COMPRESSED_SIZE_BLOCK. */
  predicate CompressedBlock(b: nat)
  {
    b / COMPRESSED_BIT_BLOCK % 2 == 0
  }

  function StoredSizeBlock(b: nat): nat
  {
    var n := if CompressedBlock(b) then b else b - COMPRESSED_BIT_BLOCK;
    if n != 0 then n else COMPRESSED_BIT_BLOCK
  }

  /** mangle, for a block of data. */
  function MangleBlock(f: Format, uncompressed: bool, s: seq<Octet>): Stored
  {
    if uncompressed || |f.comp(s)| >= |s| then Stored(s, |s| + COMPRESSED_BIT_BLOCK) else Stored(f.comp(s), |f.comp(s)|)
  }

  function UnmangleBlock(f: Format, size: nat, stored: seq<Octet>): seq<Octet>
  {
    if CompressedBlock(size) then f.decomp(stored) else stored
  }

  /** Bit 24 of a size is the flag, and the rest is the size, 0 standing for 2^24. */
  lemma SizeBlockIs(b: nat)
    ensures CompressedBlock(b) <==> b / 0x1000000 % 2 == 0
    ensures StoredSizeBlock(b) ==
      var n := if b / 0x1000000 % 2 == 0 then b else b - 0x1000000;
      if n != 0 then n else 0x1000000
  {
  }

  /** Compressed exactly if that is wanted and makes the block shorter; bit 24 of the size says that it is not. */
  lemma MangleBlockIs(f: Format, uncompressed: bool, s: seq<Octet>)
    ensures MangleBlock(f, uncompressed, s) ==
      if !uncompressed && |f.comp(s)| < |s| then Stored(f.comp(s), |f.comp(s)|) else Stored(s, 0x1000000 + |s|)
  {
  }

  lemma MangleBlockBack(f: Format, uncompressed: bool, s: seq<Octet>)
    requires Sound(f) && 0 < |s| <= FILE_MAX_SIZE
    ensures
      var m := MangleBlock(f, uncompressed, s);
      StoredSizeBlock(m.size) == |m.bytes| && UnmangleBlock(f, m.size, m.bytes) == s
  {
  }

  // ---- checksums

  /** One byte of the 16-bit BSD checksum: rotate right, then add, in an unsigned short. */
  function AddByte(sum: nat, b: Octet): nat
  {
    ((if sum % 2 == 1 then sum / 2 + 0x8000 else sum / 2) + b as nat) % 65536
  }

  function Checksum(s: seq<Octet>): nat
  {
    if s == [] then 0 else AddByte(Checksum(s[..|s| - 1]), s[|s| - 1])
  }

  /** A further byte: the sum is rotated right by one bit in sixteen, and the byte is added modulo 2^16. */
  lemma {:induction false} ChecksumIs(s: seq<Octet>, b: Octet)
    ensures Checksum([]) == 0 && Checksum(s + [b]) == (Checksum(s) / 2 + 0x8000 * (Checksum(s) % 2) +
      b as nat) % 0x10000
  {
    assert (s + [b])[..|s|] == s;
  }

  /** get_checksum: the bytes come in pieces of at most 65536. */
  method GetChecksum(s: seq<Octet>) returns (sum: nat)
    ensures sum == Checksum(s)
  {
    hide AddByte;
    sum := 0;
    var done, l := 0, |s|;
    while l > 0
      invariant 0 <= l && done + l == |s| && sum == Checksum(s[..done])
    {
      var bytes := if l > FILE_MAX_SIZE then FILE_MAX_SIZE else l;
      l := l - bytes;
      var end := done + bytes;
      while done < end
        invariant done <= end <= |s| && sum == Checksum(s[..done])
      {
        assert s[..done + 1][..done] == s[..done];
        sum := AddByte(sum, s[done]);
        done := done + 1;
      }
    }
    assert s[..|s|] == s;
  }

  /** The comparison loop of duplicate: the new bytes against the file, a piece at a time. */
  method SameRun(disk: seq<Octet>, start: nat, run: seq<Octet>) returns (same: bool)
    requires start + |run| <= |disk|
    ensures same <==> Holds(disk, start, run)
  {
    var left, at := |run|, 0;
    while left > 0
      invariant 0 <= left && at + left == |run| && disk[start..start + at] == run[..at]
    {
      var avail := if left > FILE_MAX_SIZE then FILE_MAX_SIZE else left;
      var piece := ReadBytes(disk, start + at, avail);
      if run[at..at + avail] != piece {
        PiecesDiffer(disk, start, run, at, at + avail);
        return false;
      }
      PiecesAgree(disk, start, run, at, at + avail);
      left, at := left - avail, at + avail;
    }
    assert run[..|run|] == run;
    return true;
  }

  lemma PiecesDiffer(disk: seq<Octet>, start: nat, run: seq<Octet>, i: nat, j: nat)
    requires start + |run| <= |disk| && i <= j <= |run| && run[i..j] != disk[start + i..start + j]
    ensures disk[start..start + |run|] != run
  {
    SliceSlice(disk, start, start + |run|, i, j);
  }

  lemma PiecesAgree(disk: seq<Octet>, start: nat, run: seq<Octet>, i: nat, j: nat)
    requires start + |run| <= |disk| && i <= j <= |run|
    requires disk[start..start + i] == run[..i] && run[i..j] == disk[start + i..start + j]
    ensures disk[start..start + j] == run[..j]
  {
    assert disk[start..start + j] == disk[start..start + i] + disk[start + i..start + j];
    assert run[..j] == run[..i] + run[i..j];
  }

  // ---- fragments

  datatype Fragment = Fragment(index: nat, offset: nat, size: nat)

  datatype FragmentEntry = FragmentEntry(start: nat, size: nat)

  datatype FileInfo = FileInfo(bytes: nat, start: nat, blockList: seq<nat>, fragment: Fragment, fragmentChecksum: nat)

  /** A file that has been recorded, with the bytes it was recorded for. */
  datatype Known = Known(info: FileInfo, run: seq<Octet>, tail: seq<Octet>)

  /** A file that has been written or found to be a duplicate, as its inode will describe it. */
  datatype Written = Written(start: nat, run: seq<Octet>, fragment: Fragment, tail: seq<Octet>)

  const EMPTY_FRAGMENT := Fragment(INVALID_BLK, 0, 0)

  /** The handle names these bytes, among the fragment blocks so far. */
  ghost predicate Names(view: seq<seq<Octet>>, fr: Fragment, tail: seq<Octet>)
  {
    && fr.size == |tail|
    && if tail == [] then fr == EMPTY_FRAGMENT else fr.index < |view| && Holds(view[fr.index], fr.offset, tail)
  }

  /** Blocks are only added, and only the last one grows. */
  ghost predicate Grows(a: seq<seq<Octet>>, b: seq<seq<Octet>>)
  {
    |a| <= |b| && forall i :: 0 <= i < |a| ==> a[i] <= b[i]
  }

  lemma FlushGrows(flushed: seq<seq<Octet>>, data: seq<Octet>)
    ensures Grows(flushed + [data], (flushed + [data]) + [[]])
  {
  }

  lemma NothingGrows(view: seq<seq<Octet>>)
    ensures Grows(view, view)
  {
  }

  lemma NamesStay(a: seq<seq<Octet>>, b: seq<seq<Octet>>, fr: Fragment, tail: seq<Octet>)
    requires Grows(a, b) && Names(a, fr, tail)
    ensures Names(b, fr, tail)
  {
    if tail != [] {
      var x, y := a[fr.index], b[fr.index];
      assert x[fr.offset..fr.offset + |tail|] == y[fr.offset..fr.offset + |tail|];
    }
  }

  lemma HoldsStay(a: seq<Octet>, b: seq<Octet>, n: nat, at: nat, s: seq<Octet>)
    requires Holds(a, at, s) && at + |s| <= n <= |a| && n <= |b| && a[..n] == b[..n]
    ensures Holds(b, at, s)
  {
    assert a[..n][at..at + |s|] == a[at..at + |s|] && b[..n][at..at + |s|] == b[at..at + |s|];
  }

  /** A flushed block is in the file. */
  ghost predicate Flushed(f: Format, disk: seq<Octet>, bytes: nat, e: FragmentEntry, data: seq<Octet>)
  {
    && e.start + StoredSizeBlock(e.size) <= bytes <= |disk|
    && UnmangleBlock(f, e.size, disk[e.start..e.start + StoredSizeBlock(e.size)]) == data
  }

  lemma FlushedStays(f: Format, a: seq<Octet>, b: seq<Octet>, n: nat, m: nat, e: FragmentEntry, data: seq<Octet>)
    requires Flushed(f, a, n, e, data) && n <= m <= |b| && n <= |a| && a[..n] == b[..n]
    ensures Flushed(f, b, m, e, data)
  {
    var x, y := e.start, e.start + StoredSizeBlock(e.size);
    hide StoredSizeBlock, UnmangleBlock;
    assert a[..n][x..y] == a[x..y] && b[..n][x..y] == b[x..y];
  }

  ghost predicate AllFlushed(f: Format, disk: seq<Octet>, bytes: nat, table: seq<FragmentEntry>,
                             flushed: seq<seq<Octet>>)
  {
    |table| == |flushed| && forall i :: 0 <= i < |table| ==> Flushed(f, disk, bytes, table[i], flushed[i])
  }

  lemma AllFlushedStay(f: Format, a: seq<Octet>, b: seq<Octet>, n: nat, m: nat, table: seq<FragmentEntry>,
                       flushed: seq<seq<Octet>>)
    requires AllFlushed(f, a, n, table, flushed) && n <= m <= |b| && n <= |a| && a[..n] == b[..n]
    ensures AllFlushed(f, b, m, table, flushed)
  {
    hide Flushed;
    forall i | 0 <= i < |table|
      ensures Flushed(f, b, m, table[i], flushed[i])
    {
      FlushedStays(f, a, b, n, m, table[i], flushed[i]);
    }
  }

  lemma OneMoreFlushed(f: Format, disk: seq<Octet>, bytes: nat, table: seq<FragmentEntry>, flushed: seq<seq<Octet>>,
                       start: nat, m: Stored, data: seq<Octet>)
    requires AllFlushed(f, disk, bytes, table, flushed) && Holds(disk, start, m.bytes) && bytes == start + |m.bytes|
    requires StoredSizeBlock(m.size) == |m.bytes| && UnmangleBlock(f, m.size, m.bytes) == data
    ensures AllFlushed(f, disk, bytes, table + [FragmentEntry(start, m.size)], flushed + [data])
  {
  }

  // ---- the index of files

  ghost predicate StoredAt(disk: seq<Octet>, bytes: nat, start: nat, run: seq<Octet>)
  {
    start + |run| <= bytes <= |disk| && Holds(disk, start, run)
  }

  ghost predicate KnownOk(disk: seq<Octet>, bytes: nat, view: seq<seq<Octet>>, k: Known)
  {
    && k.info.bytes == |k.run| && StoredAt(disk, bytes, k.info.start, k.run)
    && Names(view, k.info.fragment, k.tail) && k.info.fragmentChecksum == Checksum(k.tail)
  }

  ghost predicate WrittenOk(disk: seq<Octet>, bytes: nat, view: seq<seq<Octet>>, w: Written)
  {
    StoredAt(disk, bytes, w.start, w.run) && Names(view, w.fragment, w.tail)
  }

  /** Every file so far is where its inode says, and every recorded file where its record says. */
  ghost predicate AllStored(disk: seq<Octet>, bytes: nat, view: seq<seq<Octet>>, known: seq<Known>,
                            written: seq<Written>)
  {
    && (forall i :: 0 <= i < |known| ==> KnownOk(disk, bytes, view, known[i]))
    && (forall i :: 0 <= i < |written| ==> WrittenOk(disk, bytes, view, written[i]))
  }

  lemma AllStoredStay(a: seq<Octet>, b: seq<Octet>, n: nat, m: nat, v: seq<seq<Octet>>, w: seq<seq<Octet>>,
                      known: seq<Known>, written: seq<Written>)
    requires AllStored(a, n, v, known, written) && n <= |a| && n <= m <= |b| && a[..n] == b[..n] && Grows(v, w)
    ensures AllStored(b, m, w, known, written)
  {
    hide Names, Grows, Holds;
    forall i | 0 <= i < |known|
      ensures KnownOk(b, m, w, known[i])
    {
      HoldsStay(a, b, n, known[i].info.start, known[i].run);
      NamesStay(v, w, known[i].info.fragment, known[i].tail);
    }
    forall i | 0 <= i < |written|
      ensures WrittenOk(b, m, w, written[i])
    {
      HoldsStay(a, b, n, written[i].start, written[i].run);
      NamesStay(v, w, written[i].fragment, written[i].tail);
    }
  }

  /** All stored bytes lie before place m. */
  ghost predicate AllBefore(m: nat, known: seq<Known>, written: seq<Written>)
  {
    && (forall i :: 0 <= i < |known| ==> known[i].info.start + |known[i].run| <= m)
    && (forall i :: 0 <= i < |written| ==> written[i].start + |written[i].run| <= m)
  }

  /** A file cut off at m keeps exactly the files that lie before m. */
  lemma CutOff(a: seq<Octet>, b: seq<Octet>, n: nat, m: nat, view: seq<seq<Octet>>, known: seq<Known>,
               written: seq<Written>)
    requires AllStored(a, n, view, known, written) && m <= n <= |a| && m <= |b| && a[..m] == b[..m]
    ensures AllStored(b, m, view, known, written) <==> AllBefore(m, known, written)
  {
    hide Names, Holds;
    if AllBefore(m, known, written) {
      forall i | 0 <= i < |known|
        ensures KnownOk(b, m, view, known[i])
      {
        HoldsStay(a, b, m, known[i].info.start, known[i].run);
      }
      forall i | 0 <= i < |written|
        ensures WrittenOk(b, m, view, written[i])
      {
        HoldsStay(a, b, m, written[i].start, written[i].run);
      }
    } else if AllStored(b, m, view, known, written) {
      forall i | 0 <= i < |known|
        ensures known[i].info.start + |known[i].run| <= m
      {
        assert KnownOk(b, m, view, known[i]);
      }
      forall i | 0 <= i < |written|
        ensures written[i].start + |written[i].run| <= m
      {
        assert WrittenOk(b, m, view, written[i]);
      }
    }
  }

  type Chains = map<nat, seq<FileInfo>>

  function Chain(m: Chains, c: nat): seq<FileInfo>
  {
    if c in m then m[c] else []
  }

  /** dupl for files with data, frag_dups for files that are all tail. */
  function ChainFor(dupl: Chains, fragDups: Chains, run: seq<Octet>, tail: seq<Octet>): seq<FileInfo>
  {
    if |run| > 0 then Chain(dupl, Checksum(run)) else Chain(fragDups, Checksum(tail))
  }

  function Push(m: Chains, c: nat, info: FileInfo): Chains
  {
    m[c := [info] + Chain(m, c)]
  }

  /** Every recorded file is in its chain, and everything in a chain is recorded. */
  ghost predicate Indexed(dupl: Chains, fragDups: Chains, known: seq<Known>)
  {
    && (forall i :: 0 <= i < |known| ==> known[i].info in ChainFor(dupl, fragDups, known[i].run, known[i].tail))
    && (forall c, i :: 0 <= i < |Chain(dupl, c)| ==> Recorded(known, Chain(dupl, c)[i]))
    && (forall c, i :: 0 <= i < |Chain(fragDups, c)| ==> Recorded(known, Chain(fragDups, c)[i]))
  }

  ghost predicate Recorded(known: seq<Known>, info: FileInfo)
  {
    exists i :: 0 <= i < |known| && known[i].info == info
  }

  /** One file more has been recorded. */
  ghost predicate OneMore(was: seq<Known>, now: seq<Known>, run: seq<Octet>, tail: seq<Octet>, list: seq<nat>)
  {
    && |now| == |was| + 1 && now[..|was|] == was
    && now[|was|].run == run && now[|was|].tail == tail && now[|was|].info.blockList == list
  }

  /** No two recorded files have the same stored bytes and the same tail. */
  ghost predicate Unlike(known: seq<Known>)
  {
    forall i, j :: 0 <= i < j < |known| ==> known[i].run != known[j].run || known[i].tail != known[j].tail
  }

  lemma OneMoreUnlike(known: seq<Known>, k: Known)
    requires Unlike(known) && forall i :: 0 <= i < |known| ==> known[i].run != k.run || known[i].tail != k.tail
    ensures Unlike(known + [k])
  {
  }

  /** A recorded file with these stored bytes and this tail has this block list. */
  ghost predicate Listed(known: seq<Known>, run: seq<Octet>, tail: seq<Octet>, list: seq<nat>)
  {
    exists i :: 0 <= i < |known| && known[i].run == run && known[i].tail == tail && known[i].info.blockList == list
  }

  class Files {
    const f: Format
    const noF: bool
    const blockSize: nat
    const duplicateChecking: bool
    var disk: seq<Octet>
    var bytes: nat
    var fragmentData: seq<Octet>
    var fragmentSize: nat
    var table: seq<FragmentEntry>
    var dupl: Chains
    var fragDups: Chains
    ghost var flushed: seq<seq<Octet>>
    ghost var known: seq<Known>
    ghost var written: seq<Written>

    ghost predicate Packing()
      reads this
    {
      && Sound(f) && 0 < blockSize <= FILE_MAX_SIZE && |fragmentData| == blockSize && fragmentSize <= blockSize
      && |table| == |flushed| && |table| < bytes <= |disk| && bytes <= INVALID_BLK
      && AllFlushed(f, disk, bytes, table, flushed)
    }

    /** Every fragment block: those in the file and the one being filled. */
    ghost function View(): seq<seq<Octet>>
      requires Packing()
      reads this
    {
      flushed + [fragmentData[..fragmentSize]]
    }

    ghost predicate Valid()
      reads this
    {
      Packing() && AllStored(disk, bytes, View(), known, written) && Indexed(dupl, fragDups, known) && Unlike(known)
    }

    constructor (format: Format, uncompressed: bool, block: nat, checking: bool, super: seq<Octet>)
      requires Sound(format) && 0 < block <= FILE_MAX_SIZE && 0 < |super| <= INVALID_BLK
      ensures Valid() && known == [] && written == [] && f == format && blockSize == block &&
        duplicateChecking == checking
      ensures bytes == |super| && fragmentSize == 0
    {
      f, noF, blockSize, duplicateChecking := format, uncompressed, block, checking;
      disk, bytes := super, |super|;
      fragmentData, fragmentSize, table := seq(block, i => 0), 0, [];
      dupl, fragDups := map[], map[];
      flushed, known, written := [], [], [];
    }

    /** write_bytes at the write position, which gives up when the filesystem would exceed 2^32 - 1 bytes. */
    method WriteOut(s: seq<Octet>) returns (fatal: bool)
      requires Packing()
      modifies `disk, `bytes
      ensures fatal <==> old(bytes) + |s| > 0xffffffff
      ensures !fatal ==>
        Packing() && bytes == old(bytes) + |s| && Holds(disk, old(bytes), s) && disk[..old(bytes)] == old(disk[..bytes])
    {
      if bytes + |s| > INVALID_BLK {
        return true;
      }
      hide Sound, AllFlushed, WriteBytes;
      ghost var before := disk;
      disk := WriteBytes(disk, bytes, s);
      bytes := bytes + |s|;
      AllFlushedStay(f, before, disk, bytes - |s|, bytes, table, flushed);
      return false;
    }

    /** write_fragment: the fragment block being filled goes into the file. */
    method WriteFragment() returns (fatal: bool)
      requires Packing()
      modifies `disk, `bytes, `fragmentSize, `table, `flushed
      ensures !fatal ==>
        Packing() && fragmentSize == 0 && bytes >= old(bytes) && disk[..old(bytes)] == old(disk[..bytes])
      ensures !fatal ==> Grows(old(View()), View())
      ensures old(bytes) + blockSize <= INVALID_BLK ==> !fatal && bytes <= old(bytes) + blockSize
    {
      hide Sound, AllFlushed, MangleBlock, UnmangleBlock, StoredSizeBlock, Grows, Holds;
      fatal := false;
      if fragmentSize != 0 {
        var data := fragmentData[..fragmentSize];
        MangleBlockBack(f, noF, data);
        var m := MangleBlock(f, noF, data);
        NotEmpty(f, noF, data);
        var start := bytes;
        fatal := WriteOut(m.bytes);
        if fatal {
          return;
        }
        OneMoreFlushed(f, disk, bytes, table, flushed, start, m, data);
        table := table + [FragmentEntry(start, m.size)];
        flushed := flushed + [data];
        fragmentSize := 0;
        assert fragmentData[..0] == [];
        FlushGrows(old(flushed), data);
      } else {
        NothingGrows(View());
      }
    }

    /** get_and_fill_fragment: the tail of a file goes to the block being filled, or to a new one. */
    method GetAndFillFragment(tail: seq<Octet>) returns (fatal: bool, fr: Fragment)
      requires Packing() && |tail| <= blockSize
      modifies `disk, `bytes, `fragmentSize, `table, `flushed, `fragmentData
      ensures !fatal ==> Packing() && bytes >= old(bytes) && disk[..old(bytes)] == old(disk[..bytes])
      ensures !fatal ==> Grows(old(View()), View()) && Names(View(), fr, tail)
      ensures !fatal && tail == [] ==> fr == Fragment(0xffffffff, 0, 0)
      ensures old(bytes) + blockSize <= INVALID_BLK ==> !fatal && bytes <= old(bytes) + blockSize
    {
      hide AllFlushed, Sound, Overwrite;
      fatal, fr := false, EMPTY_FRAGMENT;
      if |tail| != 0 {
        if fragmentSize + |tail| > blockSize {
          fatal := WriteFragment();
          if fatal {
            return;
          }
        }
        ghost var view, was := View(), fragmentData[..fragmentSize];
        fr := Fragment(|table|, fragmentSize, |tail|);
        fragmentData := Overwrite(fragmentData, fragmentSize, tail);
        fragmentSize := fragmentSize + |tail|;
        assert fragmentData[..fragmentSize] == was + tail;
        assert Grows(view, View());
      }
    }

    /** get_fragment: the bytes a handle names, from memory or from the file. */
    method GetFragment(fr: Fragment, ghost tail: seq<Octet>) returns (data: seq<Octet>)
      requires Packing() && Names(View(), fr, tail)
      ensures |data| >= fr.size && data[..fr.size] == tail
    {
      hide Sound, UnmangleBlock, StoredSizeBlock;
      if fr.index == |table| || fr.index == INVALID_BLK {
        data := fragmentData[fr.offset..];
      } else {
        var e := table[fr.index];
        assert Flushed(f, disk, bytes, e, flushed[fr.index]);
        var block := UnmangleBlock(f, e.size, ReadBytes(disk, e.start, StoredSizeBlock(e.size)));
        data := block[fr.offset..];
      }
    }

    /** The comparison duplicate makes with one recorded file: sizes, tail checksum, stored bytes, tail. */
    method SameFile(info: FileInfo, run: seq<Octet>, tail: seq<Octet>, tailSum: nat, ghost k: Known)
      returns (same: bool)
      requires Packing() && KnownOk(disk, bytes, View(), k) && k.info == info && tailSum == Checksum(tail)
      ensures same <==> (k.run == run && k.tail == tail)
    {
      hide Sound, AllFlushed;
      same := false;
      if |run| == info.bytes && |tail| == info.fragment.size && tailSum == info.fragmentChecksum {
        var sameRun := SameRun(disk, info.start, run);
        if sameRun {
          var data := GetFragment(info.fragment, k.tail);
          same := |tail| == 0 || tail == data[..|tail|];
        }
      }
    }

    /** The search loop of duplicate. */
    method Find(chain: seq<FileInfo>, run: seq<Octet>, tail: seq<Octet>, tailSum: nat)
      returns (hit: bool, info: FileInfo)
      requires Valid() && tailSum == Checksum(tail) && forall i :: 0 <= i < |chain| ==> Recorded(known, chain[i])
      ensures hit ==> exists i :: 0 <= i < |known| && known[i] == Known(info, run, tail)
      ensures !hit ==> forall i :: 0 <= i < |known| && known[i].info in chain ==>
        known[i].run != run || known[i].tail != tail
    {
      hide Sound, AllFlushed, Indexed, Checksum;
      hit, info := false, FileInfo(0, 0, [], EMPTY_FRAGMENT, 0);
      for n := 0 to |chain|
        invariant forall i :: 0 <= i < |known| && known[i].info in chain[..n] ==>
          known[i].run != run || known[i].tail != tail
      {
        ghost var w :| 0 <= w < |known| && known[w].info == chain[n];
        var same := SameFile(chain[n], run, tail, tailSum, known[w]);
        if same {
          return true, chain[n];
        }
        forall i | 0 <= i < |known| && known[i].info == chain[n]
          ensures known[i].run == known[w].run && known[i].tail == known[w].tail
        {
          SameRecord(disk, bytes, View(), known[i], known[w]);
        }
      }
      assert chain[..|chain|] == chain;
    }

    /** The lookup of duplicate: the chain of the right table is searched for the same file. */
    method LookFor(run: seq<Octet>, tail: seq<Octet>) returns (hit: bool, info: FileInfo, sum: nat, tailSum: nat)
      requires Valid()
      ensures sum == Checksum(run) && tailSum == Checksum(tail)
      ensures hit ==> StoredAt(disk, bytes, info.start, run) && Names(View(), info.fragment, tail)
      ensures hit ==> exists i :: 0 <= i < |known| && known[i] == Known(info, run, tail)
      ensures !hit ==> forall i :: 0 <= i < |known| ==> known[i].run != run || known[i].tail != tail
    {
      hide Sound, AllFlushed, Checksum;
      sum := GetChecksum(run);
      tailSum := GetChecksum(tail);
      var chain := if |run| > 0 then Chain(dupl, sum) else Chain(fragDups, tailSum);
      hit, info := Find(chain, run, tail, tailSum);
      if hit {
        ghost var i :| 0 <= i < |known| && known[i] == Known(info, run, tail);
        assert KnownOk(disk, bytes, View(), known[i]);
      } else {
        assert chain == ChainFor(dupl, fragDups, run, tail);
        assert forall i :: 0 <= i < |known| && known[i].run == run && known[i].tail == tail ==> known[i].info in chain;
      }
    }

    /**
      duplicate. A hit names a recorded file with the same stored bytes and the same tail. A miss
      means there is none, and the new file goes to the head of its chain.
    */
    method Duplicate(run: seq<Octet>, blockList: seq<nat>, start: nat, tail: seq<Octet>)
      returns (hit: bool, info: FileInfo)
      requires Valid()
      modifies `dupl, `fragDups
      ensures hit ==> dupl == old(dupl) && fragDups == old(fragDups)
      ensures hit ==> StoredAt(disk, bytes, info.start, run) && Names(View(), info.fragment, tail)
      ensures hit ==> exists i :: 0 <= i < |known| && known[i] == Known(info, run, tail)
      ensures !hit ==> forall i :: 0 <= i < |known| ==> known[i].run != run || known[i].tail != tail
      ensures !hit ==>
        info.bytes == |run| && info.start == start && info.blockList == blockList &&
        info.fragmentChecksum == Checksum(tail)
      ensures !hit ==> dupl == (if |run| > 0 then Push(old(dupl), Checksum(run), info) else old(dupl))
      ensures !hit ==> fragDups == (if |run| > 0 then old(fragDups) else Push(old(fragDups), Checksum(tail), info))
    {
      hide Sound, AllFlushed, Checksum, Names, StoredAt, Push, Indexed, AllStored;
      var sum, tailSum;
      hit, info, sum, tailSum := LookFor(run, tail);
      if !hit {
        info := FileInfo(|run|, start, blockList, EMPTY_FRAGMENT, tailSum);
        if |run| > 0 {
          dupl := Push(dupl, sum, info);
        } else {
          fragDups := Push(fragDups, tailSum, info);
        }
      }
    }

    /** The end of write_file on a miss: the stored bytes, then the tail, then the record's fragment. */
    method StoreFile(run: seq<Octet>, tail: seq<Octet>) returns (fatal: bool, fr: Fragment)
      requires Packing() && AllStored(disk, bytes, View(), known, written) && |tail| <= blockSize
      modifies `disk, `bytes, `fragmentSize, `table, `flushed, `fragmentData
      ensures !fatal ==> Packing() && AllStored(disk, bytes, View(), known, written)
      ensures !fatal ==> StoredAt(disk, bytes, old(bytes), run) && Names(View(), fr, tail)
      ensures old(bytes) + |run| + blockSize <= INVALID_BLK ==> !fatal && bytes <= old(bytes) + |run| + blockSize
    {
      hide Sound, AllFlushed, AllStored, Names, Grows;
      fr := EMPTY_FRAGMENT;
      ghost var disk0, n0, view := disk, bytes, View();
      NothingGrows(view);
      fatal := WriteOut(run);
      if fatal {
        return;
      }
      AllStoredStay(disk0, disk, n0, bytes, view, View(), known, written);
      fatal, fr := FillAndKeep(tail, run, n0);
    }

    /**
      write_file, when the whole file fits in the buffer: run is its stored blocks, tail what goes
      to a fragment. Whether the file is new or a duplicate, the start and the fragment handed to
      its inode name exactly those bytes, and everything handed out before still does.
    */
    method WriteFile(run: seq<Octet>, blockList: seq<nat>, tail: seq<Octet>)
      returns (fatal: bool, dup: bool, start: nat, fr: Fragment, list: seq<nat>)
      requires Valid() && |tail| <= blockSize
      modifies this
      ensures !fatal ==> Valid() && written == old(written) + [Written(start, run, fr, tail)]
      ensures !fatal && duplicateChecking ==>
        (dup <==> exists i :: 0 <= i < |old(known)| && old(known)[i].run == run && old(known)[i].tail == tail)
      ensures dup ==>
        disk == old(disk) && bytes == old(bytes) && table == old(table) && fragmentSize == old(fragmentSize)
      ensures dup ==> duplicateChecking && known == old(known) && Listed(known, run, tail, list)
      ensures !dup ==> list == blockList
      ensures !dup && !fatal ==>
        if duplicateChecking then OneMore(old(known), known, run, tail, list) else known == old(known)
      ensures old(bytes) + |run| + blockSize <= INVALID_BLK ==> !fatal && bytes <= old(bytes) + |run| + blockSize
    {
      hide Sound, AllFlushed, AllStored, Indexed, Names, Checksum, Unlike;
      fatal, dup, start, fr, list := false, false, bytes, EMPTY_FRAGMENT, blockList;
      var info := FileInfo(0, 0, [], EMPTY_FRAGMENT, 0);
      ghost var dupl0, fragDups0 := dupl, fragDups;
      if duplicateChecking {
        dup, info := Duplicate(run, blockList, start, tail);
        if dup {
          start, fr, list := info.start, info.fragment, info.blockList;
          OneMoreWritten(disk, bytes, View(), known, written, Written(start, run, fr, tail));
          written := written + [Written(start, run, fr, tail)];
          return;
        }
      }
      fatal, fr := StoreFile(run, tail);
      if fatal {
        return;
      }
      OneMoreWritten(disk, bytes, View(), known, written, Written(start, run, fr, tail));
      written := written + [Written(start, run, fr, tail)];
      if duplicateChecking {
        var done := info.(fragment := fr);
        SetFragment(run, tail, info, done, dupl0, fragDups0);
        OneMoreKnown(disk, bytes, View(), known, written, Known(done, run, tail));
        OneMoreIndexed(dupl0, fragDups0, dupl, fragDups, known, Known(done, run, tail));
        OneMoreUnlike(known, Known(done, run, tail));
        known := known + [Known(done, run, tail)];
      }
    }

    /**
      write_file, when the buffer is too small for the whole file: the stored bytes go to the file first,
      and duplicates are looked for afterwards. A new file is as safe as in the other branch. On a hit the
      write position is put back to where the file found begins, not to where this one did: what was
      stored before stays in the part in use if and only if all of it lies before that place, which is
      never so when the file has stored bytes, since the file found is then outside. On a block device
      its bytes are still there, open to the next write; otherwise they are cut off.
    */
    method WriteFileInPieces(run: seq<Octet>, blockList: seq<nat>, tail: seq<Octet>, blockDevice: bool)
      returns (fatal: bool, dup: bool, start: nat, fr: Fragment)
      requires Valid() && |tail| <= blockSize
      modifies this
      ensures !fatal && !dup ==> Valid() && written == old(written) + [Written(old(bytes), run, fr, tail)]
      ensures !fatal && duplicateChecking ==>
        (dup <==> exists i :: 0 <= i < |old(known)| && old(known)[i].run == run && old(known)[i].tail == tail)
      ensures dup ==> known == old(known) && written == old(written) && bytes == start <= |disk|
      ensures dup ==> (AllStored(disk, bytes, old(View()), known, written) <==> AllBefore(start, known, written))
      ensures dup && |run| > 0 ==> !AllStored(disk, bytes, old(View()), known, written)
      ensures dup ==> if blockDevice then Holds(disk, start, run) else |disk| == start
      ensures dup ==>
        exists i :: 0 <= i < |known| && known[i].run == run && known[i].tail == tail
                    && known[i].info.start == start && known[i].info.fragment == fr
    {
      hide Sound, AllFlushed, AllStored, Indexed, Names, Checksum, Unlike, Grows, AllBefore;
      dup, start, fr := false, bytes, EMPTY_FRAGMENT;
      ghost var disk0, n0, view := disk, bytes, View();
      NothingGrows(view);
      fatal := WriteOut(run);
      if fatal {
        return;
      }
      AllStoredStay(disk0, disk, n0, bytes, view, View(), known, written);
      var info := FileInfo(0, 0, [], EMPTY_FRAGMENT, 0);
      ghost var dupl0, fragDups0 := dupl, fragDups;
      if duplicateChecking {
        dup, info := Duplicate(run, blockList, start, tail);
        if dup {
          ghost var disk1, n1 := disk, bytes;
          start, fr, bytes := info.start, info.fragment, info.start;
          if !blockDevice {
            disk := disk[..bytes];
          }
          CutOff(disk1, disk, n1, bytes, view, known, written);
          NotBefore(known, written, info, run, tail);
          FoundThere(disk1, n1, view, known, written, info, run, tail);
          return;
        }
      }
      fatal, fr := FillAndKeep(tail, run, n0);
      if fatal {
        return;
      }
      OneMoreWritten(disk, bytes, View(), known, written, Written(n0, run, fr, tail));
      written := written + [Written(n0, run, fr, tail)];
      if duplicateChecking {
        var done := info.(fragment := fr);
        SetFragment(run, tail, info, done, dupl0, fragDups0);
        OneMoreKnown(disk, bytes, View(), known, written, Known(done, run, tail));
        OneMoreIndexed(dupl0, fragDups0, dupl, fragDups, known, Known(done, run, tail));
        OneMoreUnlike(known, Known(done, run, tail));
        known := known + [Known(done, run, tail)];
      }
    }

    /** The tail goes to a fragment and all stored bytes stay. */
    method FillAndKeep(tail: seq<Octet>, ghost run: seq<Octet>, ghost at: nat) returns (fatal: bool, fr: Fragment)
      requires Packing() && AllStored(disk, bytes, View(), known, written) && |tail| <= blockSize &&
        StoredAt(disk, bytes, at, run)
      modifies `disk, `bytes, `fragmentSize, `table, `flushed, `fragmentData
      ensures !fatal ==> Packing() && AllStored(disk, bytes, View(), known, written)
      ensures !fatal ==> StoredAt(disk, bytes, at, run) && Names(View(), fr, tail)
      ensures old(bytes) + blockSize <= INVALID_BLK ==> !fatal && bytes <= old(bytes) + blockSize
    {
      hide Sound, AllFlushed, AllStored, Names, Grows;
      ghost var disk1, n1, view := disk, bytes, View();
      fatal, fr := GetAndFillFragment(tail);
      if fatal {
        return;
      }
      AllStoredStay(disk1, disk, n1, bytes, view, View(), known, written);
      HoldsStay(disk1, disk, n1, at, run);
    }

    /** dupl_ptr->fragment = fragment, for the file at the head of its chain. */
    method SetFragment(run: seq<Octet>, tail: seq<Octet>, info: FileInfo, done: FileInfo, ghost dupl0: Chains,
                       ghost fragDups0: Chains)
      requires dupl == (if |run| > 0 then Push(dupl0, Checksum(run), info) else dupl0)
      requires fragDups == (if |run| > 0 then fragDups0 else Push(fragDups0, Checksum(tail), info))
      modifies `dupl, `fragDups
      ensures dupl == (if |run| > 0 then Push(dupl0, Checksum(run), done) else dupl0)
      ensures fragDups == (if |run| > 0 then fragDups0 else Push(fragDups0, Checksum(tail), done))
    {
      hide Checksum;
      if |run| > 0 {
        var c := GetChecksum(run);
        dupl := dupl[c := [done] + Chain(dupl, c)[1..]];
      } else {
        var c := GetChecksum(tail);
        fragDups := fragDups[c := [done] + Chain(fragDups, c)[1..]];
      }
    }
  }

  lemma NotBefore(known: seq<Known>, written: seq<Written>, info: FileInfo, run: seq<Octet>, tail: seq<Octet>)
    requires exists i :: 0 <= i < |known| && known[i] == Known(info, run, tail)
    ensures |run| > 0 ==> !AllBefore(info.start, known, written)
  {
    var i :| 0 <= i < |known| && known[i] == Known(info, run, tail);
    assert known[i].info.start + |known[i].run| == info.start + |run|;
  }

  lemma FoundThere(disk: seq<Octet>, bytes: nat, view: seq<seq<Octet>>, known: seq<Known>, written: seq<Written>,
                   info: FileInfo, run: seq<Octet>, tail: seq<Octet>)
    requires AllStored(disk, bytes, view, known, written)
    requires exists i :: 0 <= i < |known| && known[i] == Known(info, run, tail)
    ensures Holds(disk, info.start, run)
  {
    var i :| 0 <= i < |known| && known[i] == Known(info, run, tail);
    assert KnownOk(disk, bytes, view, known[i]);
  }

  /** Two stretches of bytes from the same place do not contradict each other. */
  ghost predicate Agree(a: seq<Octet>, b: seq<Octet>)
  {
    forall i :: 0 <= i < |a| && i < |b| ==> a[i] == b[i]
  }

  /**
    The next write after such a hit: on a block device, where the file found is still there, it survives
    if and only if its bytes agree with those written; where it was cut off, it is back only if they
    begin with it.
  */
  lemma NextWrite(disk: seq<Octet>, start: nat, run: seq<Octet>, next: seq<Octet>)
    ensures Holds(disk, start, run) ==> (Holds(WriteBytes(disk, start, next), start, run) <==> Agree(run, next))
    ensures |disk| == start ==> (Holds(WriteBytes(disk, start, next), start, run) <==> run <= next)
  {
    var now := WriteBytes(disk, start, next);
    if Holds(disk, start, run) {
      var rest := if start + |next| <= |disk| then disk[start + |next|..] else [];
      assert now[start..] == next + rest && disk[start..][..|run|] == run;
      if Agree(run, next) {
        assert now[start..][..|run|] == run;
      } else {
        var i :| 0 <= i < |run| && i < |next| && run[i] != next[i];
        assert now[start..][i] == next[i];
        assert now[start..start + |run|][i] == now[start..][i];
      }
    }
    if |disk| == start {
      assert now == disk + next;
      assert run <= next ==> now[start..start + |run|] == run;
    }
  }

  lemma NotEmpty(f: Format, uncompressed: bool, s: seq<Octet>)
    requires Sound(f) && |s| > 0
    ensures 0 < |MangleBlock(f, uncompressed, s).bytes| <= |s|
  {
  }

  lemma SameRecord(disk: seq<Octet>, bytes: nat, view: seq<seq<Octet>>, a: Known, b: Known)
    requires KnownOk(disk, bytes, view, a) && KnownOk(disk, bytes, view, b) && a.info == b.info
    ensures a.run == b.run && a.tail == b.tail
  {
  }

  lemma OneMoreWritten(disk: seq<Octet>, bytes: nat, view: seq<seq<Octet>>, known: seq<Known>, written: seq<Written>,
                       w: Written)
    requires AllStored(disk, bytes, view, known, written) && WrittenOk(disk, bytes, view, w)
    ensures AllStored(disk, bytes, view, known, written + [w])
  {
  }

  lemma OneMoreKnown(disk: seq<Octet>, bytes: nat, view: seq<seq<Octet>>, known: seq<Known>, written: seq<Written>,
                     k: Known)
    requires AllStored(disk, bytes, view, known, written) && KnownOk(disk, bytes, view, k)
    ensures AllStored(disk, bytes, view, known + [k], written)
  {
  }

  lemma OneMoreIndexed(d0: Chains, f0: Chains, d: Chains, f: Chains, known: seq<Known>, k: Known)
    requires Indexed(d0, f0, known)
    requires d == (if |k.run| > 0 then Push(d0, Checksum(k.run), k.info) else d0)
    requires f == (if |k.run| > 0 then f0 else Push(f0, Checksum(k.tail), k.info))
    ensures Indexed(d, f, known + [k])
  {
    hide Checksum;
    var more := known + [k];
    forall i | 0 <= i < |more|
      ensures more[i].info in ChainFor(d, f, more[i].run, more[i].tail)
    {
      if i < |known| {
        assert known[i].info in ChainFor(d0, f0, known[i].run, known[i].tail);
      }
    }
    forall c: nat, i | 0 <= i < |Chain(d, c)|
      ensures Recorded(more, Chain(d, c)[i])
    {
      StillRecorded(known, k, Chain(d0, c), Chain(d, c), i);
    }
    forall c: nat, i | 0 <= i < |Chain(f, c)|
      ensures Recorded(more, Chain(f, c)[i])
    {
      StillRecorded(known, k, Chain(f0, c), Chain(f, c), i);
    }
  }

  lemma StillRecorded(known: seq<Known>, k: Known, was: seq<FileInfo>, now: seq<FileInfo>, i: nat)
    requires forall j :: 0 <= j < |was| ==> Recorded(known, was[j])
    requires (now == was || now == [k.info] + was) && i < |now|
    ensures Recorded(known + [k], now[i])
  {
    var more, info := known + [k], now[i];
    if info == k.info {
      assert more[|known|].info == info;
    } else {
      assert info in was;
      var j :| 0 <= j < |known| && known[j].info == info;
      assert more[j].info == info;
    }
  }
}
