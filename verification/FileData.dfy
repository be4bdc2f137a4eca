/**
  The content of files in mksquashfs.c: write_file cuts a file into blocks, stores each of them compressed
  or as it is, and notes their sizes in a block list. A duplicate takes over the place and the block list
  of a recorded file with the same stored bytes; whether it then reads as the file it stands for is a
  matter of the block lists, which are not compared.
*/
module FileData {
  import opened BitCodec
  import opened MetaBlocks
  import opened Fragments

  // ---- blocks as they are stored

  predicate BlocksOk(blocks: seq<seq<Octet>>)
  {
    forall i :: 0 <= i < |blocks| ==> 0 < |blocks[i]| <= FILE_MAX_SIZE
  }

  /** The stored bytes of all blocks. */
  function Run(f: Format, noD: bool, blocks: seq<seq<Octet>>): seq<Octet>
  {
    if blocks == [] then [] else MangleBlock(f, noD, blocks[0]).bytes + Run(f, noD, blocks[1..])
  }

  /** Their size words. */
  function Sizes(f: Format, noD: bool, blocks: seq<seq<Octet>>): seq<nat>
  {
    if blocks == [] then [] else [MangleBlock(f, noD, blocks[0]).size] + Sizes(f, noD, blocks[1..])
  }

  lemma {:induction false} RunAppend(f: Format, noD: bool, a: seq<seq<Octet>>, b: seq<seq<Octet>>)
    ensures Run(f, noD, a + b) == Run(f, noD, a) + Run(f, noD, b)
    ensures Sizes(f, noD, a + b) == Sizes(f, noD, a) + Sizes(f, noD, b)
    decreases |a|
  {
    hide MangleBlock;
    if a == [] {
      assert a + b == b;
    } else {
      HeadAndRest(a, b);
      RunAppend(f, noD, a[1..], b);
      Associate(MangleBlock(f, noD, a[0]).bytes, Run(f, noD, a[1..]), Run(f, noD, b));
      Associate([MangleBlock(f, noD, a[0]).size], Sizes(f, noD, a[1..]), Sizes(f, noD, b));
    }
  }

  /** The block loop of write_file. */
  method StoreBlocks(f: Format, noD: bool, blocks: seq<seq<Octet>>) returns (run: seq<Octet>, list: seq<nat>)
    ensures run == Run(f, noD, blocks) && list == Sizes(f, noD, blocks)
  {
    hide MangleBlock;
    run, list := [], [];
    for n := 0 to |blocks|
      invariant run == Run(f, noD, blocks[..n]) && list == Sizes(f, noD, blocks[..n])
    {
      var m := MangleBlock(f, noD, blocks[n]);
      assert blocks[..n + 1] == blocks[..n] + [blocks[n]];
      RunAppend(f, noD, blocks[..n], [blocks[n]]);
      RunOne(f, noD, blocks[n]);
      run, list := run + m.bytes, list + [m.size];
    }
    assert blocks[..|blocks|] == blocks;
  }

  lemma {:induction false} RunOne(f: Format, noD: bool, b: seq<Octet>)
    ensures Run(f, noD, [b]) == MangleBlock(f, noD, b).bytes && Sizes(f, noD, [b]) == [MangleBlock(f, noD, b).size]
  {
    hide MangleBlock;
    assert [b][1..] == [];
  }

  // ---- reading them

  /** What a reader makes of a place in the file and a block list. */
  function ReadBlocks(f: Format, disk: seq<Octet>, start: nat, list: seq<nat>): seq<seq<Octet>>
    decreases |list|
  {
    if list == [] then [] else
      [UnmangleBlock(f, list[0], ReadBytes(disk, start, StoredSizeBlock(list[0])))]
      + ReadBlocks(f, disk, start + StoredSizeBlock(list[0]), list[1..])
  }

  /** Blocks read with their own list come back. */
  lemma {:induction false} ReadBlocksBack(f: Format, noD: bool, disk: seq<Octet>, start: nat, blocks: seq<seq<Octet>>)
    requires Sound(f) && BlocksOk(blocks) && Holds(disk, start, Run(f, noD, blocks))
    ensures ReadBlocks(f, disk, start, Sizes(f, noD, blocks)) == blocks
    decreases |blocks|
  {
    hide Sound, UnmangleBlock, StoredSizeBlock, MangleBlock, ReadBytes;
    if blocks != [] {
      var m, e := MangleBlock(f, noD, blocks[0]), Run(f, noD, blocks);
      MangleBlockBack(f, noD, blocks[0]);
      HoldsPart(disk, start, e, 0, |m.bytes|);
      HoldsPart(disk, start, e, |m.bytes|, |e|);
      assert e[0..|m.bytes|] == m.bytes && e[|m.bytes|..|e|] == Run(f, noD, blocks[1..]);
      ReadBlocksBack(f, noD, disk, start + |m.bytes|, blocks[1..]);
      assert Sizes(f, noD, blocks)[1..] == Sizes(f, noD, blocks[1..]);
      assert blocks == [blocks[0]] + blocks[1..];
    }
  }

  /** A shorter list reads the first blocks. */
  lemma {:induction false} ReadFirst(f: Format, disk: seq<Octet>, start: nat, list: seq<nat>, n: nat)
    requires n <= |list|
    ensures |ReadBlocks(f, disk, start, list)| == |list|
    ensures ReadBlocks(f, disk, start, list[..n]) == ReadBlocks(f, disk, start, list)[..n]
    decreases |list|
  {
    hide UnmangleBlock, StoredSizeBlock, ReadBytes;
    if list != [] {
      ReadFirst(f, disk, start + StoredSizeBlock(list[0]), list[1..], if n == 0 then 0 else n - 1);
      if n > 0 {
        assert list[..n][1..] == list[1..][..n - 1];
      }
    }
  }

  lemma {:induction false} RunNotEmpty(f: Format, noD: bool, blocks: seq<seq<Octet>>)
    requires Sound(f) && BlocksOk(blocks) && blocks != []
    ensures |Run(f, noD, blocks)| > 0
  {
    hide Sound, MangleBlock;
    NotEmpty(f, noD, blocks[0]);
  }

  lemma {:induction false} SizesCount(f: Format, noD: bool, blocks: seq<seq<Octet>>)
    ensures |Sizes(f, noD, blocks)| == |blocks|
    decreases |blocks|
  {
    if blocks != [] {
      SizesCount(f, noD, blocks[1..]);
    }
  }

  /**
    Two files with the same stored bytes: the block list of the one reads as the other if and only if
    it is the block list of the other, and then the files are equal.
  */
  lemma {:induction false} SharedList(f: Format, noD: bool, disk: seq<Octet>, start: nat, old': seq<seq<Octet>>,
                                      new': seq<seq<Octet>>)
    requires Sound(f) && BlocksOk(old') && BlocksOk(new') && Run(f, noD, old') == Run(f, noD, new') &&
      Holds(disk, start, Run(f, noD, new'))
    ensures
      var list, own := Sizes(f, noD, old'), Sizes(f, noD, new');
      && ((|new'| <= |list| && ReadBlocks(f, disk, start, list[..|new'|]) == new') <==> list == own)
      && (list == own <==> old' == new')
  {
    hide Sound, Run, Sizes, ReadBlocks, BlocksOk;
    var list, own, n := Sizes(f, noD, old'), Sizes(f, noD, new'), |new'|;
    ReadBlocksBack(f, noD, disk, start, old');
    ReadBlocksBack(f, noD, disk, start, new');
    SizesCount(f, noD, old');
    SizesCount(f, noD, new');
    if n <= |list| {
      ReadFirst(f, disk, start, list, n);
      assert list[..|list|] == list && old'[..|old'|] == old';
      if old'[..n] == new' && n < |old'| {
        assert old' == new' + old'[n..];
        RunAppend(f, noD, new', old'[n..]);
        PartOk(old', n);
        RunNotEmpty(f, noD, old'[n..]);
      }
    }
  }

  lemma PartOk(blocks: seq<seq<Octet>>, n: nat)
    requires BlocksOk(blocks) && n <= |blocks|
    ensures BlocksOk(blocks[n..])
  {
  }

  // ---- a file is cut into blocks

  /** Whole blocks, and a rest that goes to a fragment or is one more block. */
  function Cut(content: seq<Octet>, size: nat): seq<seq<Octet>>
    requires size > 0
  {
    if content == [] then [] else if |content| <= size then [content]
      else [content[..size]] + Cut(content[size..], size)
  }

  lemma {:induction false} CutBack(content: seq<Octet>, size: nat)
    requires 0 < size <= FILE_MAX_SIZE
    ensures Concat(Cut(content, size)) == content && BlocksOk(Cut(content, size))
    decreases |content|
  {
    if |content| > size {
      CutBack(content[size..], size);
    } else if content != [] {
      assert [content][1..] == [] && content + [] == content;
    }
  }

  /** What write_file stores as blocks, and what as a tail: a tail only if fragments are used for the file. */
  function TailSize(length: nat, size: nat, noFragments: bool, alwaysUse: bool): (n: nat)
    requires size > 0
    ensures n <= length && n < size
  {
    if !noFragments && (length < size || alwaysUse) then length % size else 0
  }

  // ---- writing files

  /** Every recorded file was stored from blocks with the list it has. */
  ghost predicate Made(f: Format, noD: bool, known: seq<Known>)
  {
    forall i :: 0 <= i < |known| ==> FromBlocks(f, noD, known[i].run, known[i].info.blockList)
  }

  ghost predicate FromBlocks(f: Format, noD: bool, run: seq<Octet>, list: seq<nat>)
  {
    exists blocks :: BlocksOk(blocks) && Run(f, noD, blocks) == run && Sizes(f, noD, blocks) == list
  }

  lemma MadeMore(f: Format, noD: bool, was: seq<Known>, now: seq<Known>, run: seq<Octet>, tail: seq<Octet>,
                 list: seq<nat>, dup: bool)
    requires Made(f, noD, was) && (!dup ==> FromBlocks(f, noD, run, list))
    requires dup ==> now == was && Listed(now, run, tail, list)
    requires !dup ==> now == was || OneMore(was, now, run, tail, list)
    ensures Made(f, noD, now) && FromBlocks(f, noD, run, list)
  {
    hide FromBlocks;
    if dup {
      var i :| 0 <= i < |now| && now[i].run == run && now[i].tail == tail && now[i].info.blockList == list;
    }
    forall i | 0 <= i < |now|
      ensures FromBlocks(f, noD, now[i].run, now[i].info.blockList)
    {
      if i < |was| {
        assert now[i] == was[i];
      }
    }
  }

  /** A reader with this place and list finds these blocks. */
  ghost predicate Reads(f: Format, disk: seq<Octet>, start: nat, list: seq<nat>, blocks: seq<seq<Octet>>)
  {
    |blocks| <= |list| && ReadBlocks(f, disk, start, list[..|blocks|]) == blocks
  }

  /** What goes to a fragment: of a file shorter than a block all of it, of any file its end if that is wanted. */
  lemma TailSizeIs(length: nat, size: nat, noFragments: bool, alwaysUse: bool)
    requires size > 0
    ensures noFragments ==> TailSize(length, size, noFragments, alwaysUse) == 0
    ensures !noFragments && length < size ==> TailSize(length, size, noFragments, alwaysUse) == length
    ensures !noFragments && length >= size ==>
      TailSize(length, size, noFragments, alwaysUse) == if alwaysUse then length % size else 0
  {
  }

  /** Blocks of the block size but for the last, which is not empty. */
  lemma {:induction false} CutIs(content: seq<Octet>, size: nat, j: nat)
    requires size > 0 && j < |Cut(content, size)|
    ensures 0 < |Cut(content, size)[j]| <= size && (j < |Cut(content, size)| - 1 ==> |Cut(content, size)[j]| == size)
    decreases |content|
  {
    if |content| > size && j > 0 {
      CutIs(content[size..], size, j - 1);
    }
  }

  /** Every recorded file with these stored bytes and this tail has this block list. */
  ghost predicate OnlyListed(known: seq<Known>, run: seq<Octet>, tail: seq<Octet>, list: seq<nat>)
  {
    forall i :: 0 <= i < |known| && known[i].run == run && known[i].tail == tail ==> known[i].info.blockList == list
  }

  lemma ListedOnly(known: seq<Known>, run: seq<Octet>, tail: seq<Octet>, list: seq<nat>, own: seq<nat>)
    requires Unlike(known) && Listed(known, run, tail, list)
    ensures OnlyListed(known, run, tail, own) <==> list == own
  {
    var i :| 0 <= i < |known| && known[i].run == run && known[i].tail == tail && known[i].info.blockList == list;
    forall j | 0 <= j < |known| && known[j].run == run && known[j].tail == tail
      ensures j == i
    {
      assert !(i < j) && !(j < i);
    }
  }

  /**
    write_file from the content of the file. The inode it makes, with the place and the block list it
    hands on, reads as the blocks of the file if and only if, before the call, no duplicates were looked
    for or the file recorded with the same stored bytes and the same tail, if there is one, has the
    same block list. While there is room for the stored bytes and a fragment block, nothing fails.
  */
  method WriteContent(files: Files, noD: bool, content: seq<Octet>, noFragments: bool, alwaysUse: bool)
    returns (fatal: bool, dup: bool, start: nat, list: seq<nat>, fr: Fragment, own: seq<nat>, blocks: seq<seq<Octet>>,
      tail: seq<Octet>)
    requires files.Valid() && Made(files.f, noD, files.known)
    modifies files
    ensures tail == content[|content| - TailSize(|content|, files.blockSize, noFragments, alwaysUse)..]
    ensures blocks == Cut(content[..|content| - |tail|], files.blockSize) && own == Sizes(files.f, noD, blocks)
    ensures Concat(blocks) + tail == content
    ensures !fatal ==> files.Valid() && Made(files.f, noD, files.known) && Names(files.View(), fr, tail)
    ensures !fatal ==> (Reads(files.f, files.disk, start, list, blocks) <==>
      !files.duplicateChecking || OnlyListed(old(files.known), Run(files.f, noD, blocks), tail, own))
    ensures !fatal && !dup ==> list == own
    ensures !fatal && !dup && files.duplicateChecking ==>
      OneMore(old(files.known), files.known, Run(files.f, noD, blocks), tail, own)
    ensures dup ==> Listed(old(files.known), Run(files.f, noD, blocks), tail, list)
    ensures var n := old(files.bytes) + |Run(files.f, noD, blocks)| + files.blockSize; n <= INVALID_BLK ==>
      !fatal && files.bytes <= n
  {
    hide Run, Sizes, ReadBlocks, BlocksOk, Sound, MangleBlock, AllFlushed, Indexed, Names, Cut, Concat, Made, Reads,
      OneMore, Unlike, Listed,
         OnlyListed;
    var n := TailSize(|content|, files.blockSize, noFragments, alwaysUse);
    var data := content[..|content| - n];
    tail := content[|content| - n..];
    blocks := Cut(data, files.blockSize);
    CutBack(data, files.blockSize);
    var run;
    run, own := StoreBlocks(files.f, noD, blocks);
    ghost var known := files.known;
    fatal, dup, start, fr, list := files.WriteFile(run, own, tail);
    if !fatal {
      ghost var w := files.written[|files.written| - 1];
      assert WrittenOk(files.disk, files.bytes, files.View(), w);
      OwnBlocks(files.f, noD, blocks);
      MadeMore(files.f, noD, known, files.known, run, tail, list, dup);
      ReadsExactly(files.f, noD, files.disk, start, list, blocks);
      if dup {
        ListedOnly(known, run, tail, list, own);
      } else if files.duplicateChecking {
        NoneListed(known, run, tail, own);
      }
    }
  }

  lemma NoneListed(known: seq<Known>, run: seq<Octet>, tail: seq<Octet>, own: seq<nat>)
    requires !exists i :: 0 <= i < |known| && known[i].run == run && known[i].tail == tail
    ensures OnlyListed(known, run, tail, own)
  {
  }

  lemma {:induction false} OwnBlocks(f: Format, noD: bool, blocks: seq<seq<Octet>>)
    requires BlocksOk(blocks)
    ensures FromBlocks(f, noD, Run(f, noD, blocks), Sizes(f, noD, blocks))
  {
    hide Run, Sizes;
  }

  lemma {:induction false} ReadsExactly(f: Format, noD: bool, disk: seq<Octet>, start: nat, list: seq<nat>,
                                        blocks: seq<seq<Octet>>)
    requires Sound(f) && BlocksOk(blocks) && FromBlocks(f, noD, Run(f, noD, blocks), list) &&
      Holds(disk, start, Run(f, noD, blocks))
    ensures Reads(f, disk, start, list, blocks) <==> list == Sizes(f, noD, blocks)
  {
    hide Run, Sizes, ReadBlocks, BlocksOk, Sound;
    var from :| BlocksOk(from) && Run(f, noD, from) == Run(f, noD, blocks) && Sizes(f, noD, from) == list;
    SharedList(f, noD, disk, start, from, blocks);
  }

  // ---- a duplicate that reads as another file

  /** A compressor with one thing it makes smaller: two zeros become a seven. */
  function ToyFormat(): Format
  {
    Format(LittleEndian, false, false, x => if x == [0, 0] then [7] else [1] + x,
           y => if y == [7] then [0, 0] else if y == [] then [] else y[1..])
  }

  lemma ToySound()
    ensures Sound(ToyFormat())
  {
    var f := ToyFormat();
    forall x: seq<Octet> | |x| > 0
      ensures |f.comp(x)| > 0 && f.decomp(f.comp(x)) == x
    {
      if x != [0, 0] {
        assert ([1] + x)[1..] == x && ([1] + x)[0] == 1;
      }
    }
  }

  lemma ToyStored()
    ensures MangleBlock(ToyFormat(), false, [0, 0]) == Stored([7], 1)
    ensures MangleBlock(ToyFormat(), false, [7]) == Stored([7], 1 + COMPRESSED_BIT_BLOCK)
  {
    var f := ToyFormat();
    var zeros: seq<Octet>, seven: seq<Octet> := [0, 0], [7];
    assert f.comp(zeros) == [7];
    assert seven != zeros;
    assert f.comp(seven) == [1] + seven;
  }

  /** A file of a seven, stored as it is, has the stored bytes of a file of two zeros. */
  lemma {:induction false} ToyRuns()
    ensures Run(ToyFormat(), false, [[0, 0]]) == [7] && Sizes(ToyFormat(), false, [[0, 0]]) == [1]
    ensures Run(ToyFormat(), false, [[7]]) == [7] && Sizes(ToyFormat(), false, [[7]]) == [1 + COMPRESSED_BIT_BLOCK]
  {
    hide MangleBlock, Run, Sizes, ToyFormat;
    ToyStored();
    RunOne(ToyFormat(), false, [0, 0]);
    RunOne(ToyFormat(), false, [7]);
  }

  /** A filesystem of the toy format with block size 2 that looks for duplicates. */
  ghost predicate Toy(files: Files)
    reads files
  {
    files.f == ToyFormat() && files.blockSize == 2 && files.duplicateChecking && files.Valid() &&
      Made(files.f, false, files.known)
  }

  method ToyFiles() returns (files: Files)
    ensures fresh(files) && Toy(files) && files.known == [] && files.bytes == 1
  {
    ToySound();
    hide Sound, ToyFormat, Made;
    files := new Files(ToyFormat(), false, 2, true, [0]);
    NothingMade(files.f);
  }

  /** A file of one block is written there, without a fragment. */
  method ToyWrite(files: Files, content: seq<Octet>) returns (start: nat, list: seq<nat>, dup: bool)
    requires Toy(files) && 0 < |content| <= 2 && Run(files.f, false, [content]) == [7] && files.bytes < 100
    modifies files
    ensures Toy(files) && files.bytes <= old(files.bytes) + 3
    ensures Reads(files.f, files.disk, start, list, [content]) <==>
      OnlyListed(old(files.known), [7], [], Sizes(files.f, false, [content]))
    ensures dup ==> Listed(old(files.known), [7], [], list)
    ensures !dup ==> OneMore(old(files.known), files.known, [7], [], Sizes(files.f, false, [content]))
  {
    hide Run, Sizes, Cut, ToyFormat, Reads, Made, Concat, Names, OnlyListed, OneMore, Listed, Files.Valid, TailSize;
    OneCut(content);
    var fatal, fr, own, blocks, tail;
    fatal, dup, start, list, fr, own, blocks, tail := WriteContent(files, false, content, true, false);
  }

  lemma {:induction false} OneCut(content: seq<Octet>)
    requires 0 < |content| <= 2
    ensures TailSize(|content|, 2, true, false) == 0
    ensures content[|content| - 0..] == [] && Cut(content[..|content| - 0], 2) == [content]
  {
    assert content[..|content| - 0] == content;
  }

  /** An empty filesystem, a file of two zeros, a file of a seven: the second one does not read as what it is. */
  method WrongShare() returns (files: Files, start: nat, list: seq<nat>)
    ensures Toy(files) && !Reads(files.f, files.disk, start, list, [[7]])
  {
    ToyRuns();
    hide Run, Sizes, ToyFormat, Reads, Made, OnlyListed, Files.Valid;
    files := ToyFiles();
    var dup;
    start, list, dup := ToyWrite(files, [0, 0]);
    ghost var known := files.known;
    start, list, dup := ToyWrite(files, [7]);
    NotOnlyListed(known, [7], [], Sizes(ToyFormat(), false, [[7]]));
  }

  lemma NothingMade(f: Format)
    ensures Made(f, false, [])
  {
  }

  lemma NotOnlyListed(known: seq<Known>, run: seq<Octet>, tail: seq<Octet>, own: seq<nat>)
    requires |known| > 0 && known[0].run == run && known[0].tail == tail && known[0].info.blockList != own
    ensures !OnlyListed(known, run, tail, own)
  {
  }
}
