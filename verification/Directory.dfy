/**
  Directory listings of squashfs: add_dir and write_dir of mksquashfs.c group entries whose inodes
  start in the same metadata block under one header of at most 256 entries, and squashfs_readdir of
  read_fs.c reads the listing back.
*/
module Directory {
  import opened BitCodec
  import opened MetaBlocks
  import opened MetaStream

  const NAME_LEN := 256
  const HEADER_SIZE := 4
  const ENTRY_SIZE := 3

  datatype Entry = Entry(name: seq<Octet>, inode: nat, kind: nat)

  /** Entries under one header. */
  datatype Run = Run(start: nat, entries: seq<Entry>)

  /** The fields fit: a name of 1 to 256 bytes, an offset below 8192, a type of three bits, a block of 24 bits. */
  predicate EntryOk(e: Entry)
  {
    1 <= |e.name| <= NAME_LEN && InodeOffset(e.inode) < 8192 && e.kind < 8 && InodeBlk(e.inode) < 16777216
  }

  predicate RunEntries(start: nat, es: seq<Entry>)
  {
    forall i :: 0 <= i < |es| ==> EntryOk(es[i]) && InodeBlk(es[i].inode) == start
  }

  predicate RunOk(r: Run)
  {
    1 <= |r.entries| <= 256 && RunEntries(r.start, r.entries)
  }

  predicate RunsOk(rs: seq<Run>)
  {
    forall i :: 0 <= i < |rs| ==> RunOk(rs[i])
  }

  /** A new header appears only when it must: another start block, or 256 entries before it. */
  predicate Grouped(rs: seq<Run>)
  {
    forall i :: 0 < i < |rs| ==> rs[i].start != rs[i - 1].start || |rs[i - 1].entries| == 256
  }

  function Flatten(rs: seq<Run>): seq<Entry>
  {
    if rs == [] then [] else rs[0].entries + Flatten(rs[1..])
  }

  /** No other runs of the same entries are fewer. */
  ghost predicate Fewest(rs: seq<Run>)
  {
    forall other :: RunsOk(other) && Flatten(other) == Flatten(rs) ==> |rs| <= |other|
  }

  /** Where the entries of the first run end, those of the second begin. */
  lemma {:induction false} SecondRun(rs: seq<Run>)
    requires RunsOk(rs) && rs != []
    ensures
      var all, n := Flatten(rs), |rs[0].entries|;
      && 0 < n <= |all| && InodeBlk(all[0].inode) == rs[0].start
      && if |rs| == 1 then n == |all| else n < |all| && InodeBlk(all[n].inode) == rs[1].start
  {
    assert RunOk(rs[0]) && EntryOk(rs[0].entries[0]);
    if |rs| > 1 {
      assert RunOk(rs[1]) && EntryOk(rs[1].entries[0]);
      assert Flatten(rs[1..]) == rs[1].entries + Flatten(rs[1..][1..]);
    }
  }

  /** The first run of a grouped listing takes at least as many entries as any run that starts there can. */
  lemma {:induction false} LongestRun(rs: seq<Run>, es: seq<Entry>, start: nat)
    requires RunsOk(rs) && Grouped(rs) && rs != [] && 0 < |es| <= 256 && RunEntries(start, es) && es <= Flatten(rs)
    ensures |es| <= |rs[0].entries|
  {
    SecondRun(rs);
    hide Flatten;
    assert EntryOk(es[0]) && InodeBlk(es[0].inode) == start;
  }

  lemma {:induction false} FlattenHead(rs: seq<Run>)
    requires rs != []
    ensures Flatten(rs) == rs[0].entries + Flatten(rs[1..])
  {
  }

  lemma DropHead<T>(a: seq<T>, b: seq<T>, k: nat)
    requires k <= |a| + |b|
    ensures (a + b)[k..] == if k <= |a| then a[k..] + b else b[k - |a|..]
  {
  }

  /** Runs of the entries from place k on: grouped ones are the fewest. */
  lemma {:induction false} GroupedBest(rs: seq<Run>, other: seq<Run>, k: nat)
    requires RunsOk(rs) && Grouped(rs) && RunsOk(other) && k <= |Flatten(other)| && Flatten(rs) == Flatten(other)[k..]
    ensures |rs| <= |other|
    decreases |other|
  {
    if rs != [] {
      SecondRun(rs);
      NoRunsNoEntries(other);
      GroupedTail(rs);
      FlattenHead(rs);
      FlattenHead(other);
      var o, tail := other[0], Flatten(other[1..]);
      RunsTail(other);
      DropHead(o.entries, tail, k);
      hide Flatten, Grouped, RunsOk;
      if k >= |o.entries| {
        DropHead(o.entries, tail, |o.entries|);
        GroupedBest(rs, other[1..], k - |o.entries|);
      } else {
        var es, m := o.entries[k..], |rs[0].entries|;
        LongestRun(rs, es, o.start);
        DropHead(rs[0].entries, Flatten(rs[1..]), m);
        DropHead(es, tail, m);
        GroupedBest(rs[1..], other[1..], m - |es|);
      }
    }
  }

  lemma {:induction false} NoRunsNoEntries(rs: seq<Run>)
    ensures rs == [] ==> Flatten(rs) == []
  {
  }

  lemma RunsTail(rs: seq<Run>)
    requires RunsOk(rs) && rs != []
    ensures RunsOk(rs[1..]) && RunOk(rs[0])
  {
  }

  lemma GroupedTail(rs: seq<Run>)
    requires RunsOk(rs) && Grouped(rs) && rs != []
    ensures RunsOk(rs[1..]) && Grouped(rs[1..])
  {
  }

  /** Starting a header only when one must is starting the fewest headers the format allows. */
  lemma {:induction false} GroupedIsFewest(rs: seq<Run>)
    requires RunsOk(rs) && Grouped(rs)
    ensures Fewest(rs)
  {
    hide Grouped, Flatten;
    forall other | RunsOk(other) && Flatten(other) == Flatten(rs)
      ensures |rs| <= |other|
    {
      assert Flatten(other)[0..] == Flatten(other);
      GroupedBest(rs, other, 0);
    }
  }

  // ---- bytes of a listing

  function EncodeHeader(order: Order, count: nat, start: nat): (b: seq<Octet>)
    ensures |b| == HEADER_SIZE
  {
    Encode(order, DIR_HEADER, [Bits(count, 8), Bits(start, 24)], HEADER_SIZE)
  }

  function EncodeFields(order: Order, offset: nat, kind: nat, size: nat): (b: seq<Octet>)
    ensures |b| == ENTRY_SIZE
  {
    Encode(order, DIR_ENTRY, [Bits(offset, 13), Bits(kind, 3), Bits(size, 8)], ENTRY_SIZE)
  }

  function EncodeEntry(order: Order, e: Entry): seq<Octet>
    requires |e.name| >= 1
  {
    EncodeFields(order, InodeOffset(e.inode), e.kind, |e.name| - 1) + e.name
  }

  function EncodeEntries(order: Order, es: seq<Entry>): seq<Octet>
    requires forall i :: 0 <= i < |es| ==> |es[i].name| >= 1
  {
    if es == [] then [] else EncodeEntry(order, es[0]) + EncodeEntries(order, es[1..])
  }

  function EncodeRun(order: Order, r: Run): seq<Octet>
    requires RunOk(r)
  {
    EncodeHeader(order, |r.entries| - 1, r.start) + EncodeEntries(order, r.entries)
  }

  function EncodeRuns(order: Order, rs: seq<Run>): seq<Octet>
    requires RunsOk(rs)
  {
    if rs == [] then [] else EncodeRun(order, rs[0]) + EncodeRuns(order, rs[1..])
  }

  // ---- the fields come back

  function ReadField(order: Order, f: Field, b: seq<Octet>): nat
    requires Fits(f, |b|)
  {
    Number(Decode(order, f, b))
  }

  /** A header keeps its numbers modulo 2^8 and 2^24. */
  lemma HeaderCut(order: Order, count: nat, start: nat)
    ensures ReadField(order, DIR_HEADER[0], EncodeHeader(order, count, start)) == count % 256
    ensures ReadField(order, DIR_HEADER[1], EncodeHeader(order, count, start)) == start % 16777216
  {
    var vs := [Bits(count, 8), Bits(start, 24)];
    DirectoryLayouts();
    EncodePacked(order, DIR_HEADER, vs, HEADER_SIZE);
    RoundTrip(order, DIR_HEADER, vs, EncodeHeader(order, count, start), 0);
    RoundTrip(order, DIR_HEADER, vs, EncodeHeader(order, count, start), 1);
    Powers();
    hide Encode, Decode, Bits, Number, Power2;
    NumberBitsCut(count, 8);
    NumberBitsCut(start, 24);
  }

  /** An entry keeps its numbers modulo 2^13, 2^3 and 2^8. */
  lemma FieldsCut(order: Order, offset: nat, kind: nat, size: nat)
    ensures ReadField(order, DIR_ENTRY[0], EncodeFields(order, offset, kind, size)) == offset % 8192
    ensures ReadField(order, DIR_ENTRY[1], EncodeFields(order, offset, kind, size)) == kind % 8
    ensures ReadField(order, DIR_ENTRY[2], EncodeFields(order, offset, kind, size)) == size % 256
  {
    var vs := [Bits(offset, 13), Bits(kind, 3), Bits(size, 8)];
    DirectoryLayouts();
    EncodePacked(order, DIR_ENTRY, vs, ENTRY_SIZE);
    RoundTrip(order, DIR_ENTRY, vs, EncodeFields(order, offset, kind, size), 0);
    RoundTrip(order, DIR_ENTRY, vs, EncodeFields(order, offset, kind, size), 1);
    RoundTrip(order, DIR_ENTRY, vs, EncodeFields(order, offset, kind, size), 2);
    Powers();
    hide Encode, Decode, Bits, Number, Power2;
    NumberBitsCut(offset, 13);
    NumberBitsCut(kind, 3);
    NumberBitsCut(size, 8);
  }

  /** Count and start block of a header come back exactly if they fit their fields. */
  lemma HeaderExactly(order: Order, count: nat, start: nat)
    ensures
      var b := EncodeHeader(order, count, start);
      ReadField(order, DIR_HEADER[0], b) == count && ReadField(order, DIR_HEADER[1], b) == start <==>
        count < 256 && start < 16777216
  {
    hide ReadField, EncodeHeader;
    HeaderCut(order, count, start);
  }

  /**
    So do offset, type and size of an entry; the size of an empty name, which wraps, comes back as that
    of 256 bytes.
  */
  lemma FieldsExactly(order: Order, offset: nat, kind: nat, size: nat)
    ensures
      var b := EncodeFields(order, offset, kind, size);
      && ((ReadField(order, DIR_ENTRY[0], b) == offset && ReadField(order, DIR_ENTRY[1], b) == kind &&
           ReadField(order, DIR_ENTRY[2], b) == size) <==> (offset < 8192 && kind < 8 && size < 256))
      && (size == 0xffffffff ==> ReadField(order, DIR_ENTRY[2], b) + 1 == NAME_LEN)
  {
    hide ReadField, EncodeFields;
    FieldsCut(order, offset, kind, size);
  }

  // ---- runs grow at the end

  lemma {:induction false} EncodeEntriesAppend(order: Order, a: seq<Entry>, e: Entry)
    requires (forall i :: 0 <= i < |a| ==> |a[i].name| >= 1) && |e.name| >= 1
    ensures EncodeEntries(order, a + [e]) == EncodeEntries(order, a) + EncodeEntry(order, e)
    decreases |a|
  {
    hide EncodeEntry;
    if a == [] {
      assert [e][1..] == [];
    } else {
      HeadAndRest(a, [e]);
      EncodeEntriesAppend(order, a[1..], e);
      Associate(EncodeEntry(order, a[0]), EncodeEntries(order, a[1..]), EncodeEntry(order, e));
    }
  }

  lemma {:induction false} EncodeRunsAppend(order: Order, a: seq<Run>, r: Run)
    requires RunsOk(a) && RunOk(r)
    ensures EncodeRuns(order, a + [r]) == EncodeRuns(order, a) + EncodeRun(order, r)
    ensures Flatten(a + [r]) == Flatten(a) + r.entries
    decreases |a|
  {
    hide EncodeRun;
    FlattenAppend(a, r);
    if a == [] {
      assert [r][1..] == [];
    } else {
      HeadAndRest(a, [r]);
      EncodeRunsAppend(order, a[1..], r);
      hide Flatten;
      Associate(EncodeRun(order, a[0]), EncodeRuns(order, a[1..]), EncodeRun(order, r));
    }
  }

  lemma {:induction false} FlattenAppend(a: seq<Run>, r: Run)
    ensures Flatten(a + [r]) == Flatten(a) + r.entries
    decreases |a|
  {
    if a == [] {
      assert [r][1..] == [];
    } else {
      HeadAndRest(a, [r]);
      FlattenAppend(a[1..], r);
      Associate(a[0].entries, Flatten(a[1..]), r.entries);
    }
  }

  // ---- how long a listing is

  /** A header and its entries take at most 263 bytes for each entry. */
  const ENTRY_MAX := 263

  lemma {:induction false} EntriesSize(order: Order, start: nat, es: seq<Entry>)
    requires RunEntries(start, es)
    ensures |EncodeEntries(order, es)| <= (ENTRY_SIZE + NAME_LEN) * |es|
    decreases |es|
  {
    hide EncodeFields;
    if es != [] {
      assert EntryOk(es[0]);
      EntriesSize(order, start, es[1..]);
    }
  }

  lemma {:induction false} RunsSize(order: Order, rs: seq<Run>)
    requires RunsOk(rs)
    ensures |EncodeRuns(order, rs)| <= ENTRY_MAX * |Flatten(rs)|
    decreases |rs|
  {
    hide EncodeHeader, EncodeEntries;
    if rs != [] {
      assert RunOk(rs[0]);
      EntriesSize(order, rs[0].start, rs[0].entries);
      RunsSize(order, rs[1..]);
    }
  }

  lemma {:induction false} NumberBound(b: seq<bool>)
    ensures Number(b) < Power2(|b|)
  {
    if b != [] {
      NumberBound(b[1..]);
    }
  }

  lemma CountBound(order: Order, header: seq<Octet>)
    requires |header| == HEADER_SIZE
    ensures ReadField(order, DIR_HEADER[0], header) < 256
  {
    NumberBound(Decode(order, DIR_HEADER[0], header));
    Powers();
  }

  // ---- a table that ends before a listing does

  /** As far as the table goes, the bytes s are there. */
  ghost predicate Agrees(table: seq<Octet>, at: nat, s: seq<Octet>)
  {
    forall i :: 0 <= i < |s| && at + i < |table| ==> table[at + i] == s[i]
  }

  /** And it ends before they do. */
  ghost predicate Cut(table: seq<Octet>, at: nat, s: seq<Octet>)
  {
    Agrees(table, at, s) && |table| < at + |s|
  }

  lemma AgreesHolds(table: seq<Octet>, at: nat, s: seq<Octet>)
    requires Agrees(table, at, s) && at + |s| <= |table|
    ensures Holds(table, at, s)
  {
    forall i | 0 <= i < |s|
      ensures table[at..at + |s|][i] == s[i]
    {
      assert table[at + i] == s[i];
    }
  }

  lemma AgreesPart(table: seq<Octet>, at: nat, s: seq<Octet>, i: nat, j: nat)
    requires Agrees(table, at, s) && i <= j <= |s|
    ensures Agrees(table, at + i, s[i..j])
  {
    forall k | 0 <= k < |s[i..j]| && at + i + k < |table|
      ensures table[at + i + k] == s[i..j][k]
    {
      assert table[at + (i + k)] == s[i + k];
    }
  }

  /** One entry more of a run that the table cuts off: it is read as it was written, or the end is passed. */
  lemma {:induction false} CutEntry(order: Order, table: seq<Octet>, at: nat, es: seq<Entry>, start: nat)
    requires RunEntries(start, es) && |es| > 0 && at < |table| && Cut(table, at, EncodeEntries(order, es))
    ensures
      var next := at + ENTRY_SIZE + ReadField(order, DIR_ENTRY[2], ReadBytes(table, at, ENTRY_SIZE)) + 1;
      next >= |table| || Cut(table, next, EncodeEntries(order, es[1..]))
  {
    hide ReadField, EncodeFields, ReadBytes, EncodeEntries, Agrees;
    var e, all := es[0], EncodeEntries(order, es);
    EntryParts(order, es);
    if at + ENTRY_SIZE <= |table| {
      AgreesPart(table, at, all, 0, ENTRY_SIZE);
      AgreesHolds(table, at, all[0..ENTRY_SIZE]);
      assert EntryOk(e);
      FieldsExactly(order, InodeOffset(e.inode), e.kind, |e.name| - 1);
      AgreesPart(table, at, all, ENTRY_SIZE + |e.name|, |all|);
    }
  }

  // ---- reading

  /**
    The inner loop of squashfs_readdir: the entries under one header. It reads as many as it is told
    to, and when they are cut off by the end of the table it passes the end.
  */
  method ReadEntries(order: Order, table: seq<Octet>, from: nat, count: nat, start: nat, ghost run: seq<Entry>)
    returns (entries: seq<Entry>, bytes: nat)
    ensures bytes >= from
    ensures RunEntries(start, run) && |run| == count && Holds(table, from, EncodeEntries(order, run))
            ==> entries == run && bytes == from + |EncodeEntries(order, run)|
    ensures |entries| == count
    ensures RunEntries(start, run) && |run| == count && Cut(table, from, EncodeEntries(order, run)) ==> bytes >= |table|
  {
    hide ReadField, EncodeFields, EncodeEntries, ReadBytes, Holds, Agrees;
    entries, bytes := [], from;
    ghost var good := RunEntries(start, run) && |run| == count && Holds(table, from, EncodeEntries(order, run));
    ghost var cut := RunEntries(start, run) && |run| == count && Cut(table, from, EncodeEntries(order, run));
    ghost var rest, last := run, run;
    for n := 0 to count
      invariant bytes >= from && |entries| == n
      invariant cut ==> RunEntries(start, last) && |last| == count - n
      invariant cut ==> bytes >= |table| || Cut(table, bytes, EncodeEntries(order, last))
      invariant good ==> RunEntries(start, rest) && entries + rest == run && |rest| == count - n
      invariant good ==> Holds(table, bytes, EncodeEntries(order, rest))
      invariant good ==> bytes + |EncodeEntries(order, rest)| == from + |EncodeEntries(order, run)|
    {
      if good {
        EntryBack(order, table, bytes, rest, start);
      }
      if cut {
        if bytes < |table| {
          CutEntry(order, table, bytes, last, start);
        }
        last := last[1..];
      }
      var fields := ReadBytes(table, bytes, ENTRY_SIZE);
      var size := ReadField(order, DIR_ENTRY[2], fields) + 1;
      var name := ReadBytes(table, bytes + ENTRY_SIZE, size);
      var inode := start * 65536 + ReadField(order, DIR_ENTRY[0], fields);
      entries := entries + [Entry(name, inode, ReadField(order, DIR_ENTRY[1], fields))];
      bytes := bytes + ENTRY_SIZE + size;
      if good {
        rest := rest[1..];
      }
    }
    if good {
      assert rest == [] && entries + [] == entries;
      NoEntries(order, rest);
    }
    if cut {
      NoEntries(order, last);
    }
  }

  lemma {:induction false} NoEntries(order: Order, es: seq<Entry>)
    requires es == []
    ensures EncodeEntries(order, es) == []
  {
  }

  /** The first entry of an encoded run is read back, and the rest follows it. */
  lemma {:induction false} EntryBack(order: Order, table: seq<Octet>, at: nat, es: seq<Entry>, start: nat)
    requires RunEntries(start, es) && |es| > 0 && Holds(table, at, EncodeEntries(order, es))
    ensures
      var fields := ReadBytes(table, at, ENTRY_SIZE);
      var size := ReadField(order, DIR_ENTRY[2], fields) + 1;
      && es[0] == Entry(ReadBytes(table, at + ENTRY_SIZE, size), start * 65536 + ReadField(order, DIR_ENTRY[0], fields),
                        ReadField(order, DIR_ENTRY[1], fields))
      && Holds(table, at + ENTRY_SIZE + size, EncodeEntries(order, es[1..]))
      && |EncodeEntries(order, es)| == ENTRY_SIZE + size + |EncodeEntries(order, es[1..])|
  {
    hide ReadField, EncodeFields, ReadBytes, EncodeEntries;
    var e, all := es[0], EncodeEntries(order, es);
    EntryParts(order, es);
    FieldsExactly(order, InodeOffset(e.inode), e.kind, |e.name| - 1);
    HoldsPart(table, at, all, 0, ENTRY_SIZE);
    HoldsPart(table, at, all, ENTRY_SIZE, ENTRY_SIZE + |e.name|);
    HoldsPart(table, at, all, ENTRY_SIZE + |e.name|, |all|);
  }

  lemma {:induction false} EntryParts(order: Order, es: seq<Entry>)
    requires |es| > 0 && forall i :: 0 <= i < |es| ==> |es[i].name| >= 1
    ensures
      var e, all, n := es[0], EncodeEntries(order, es), |es[0].name|;
      && |all| == ENTRY_SIZE + n + |EncodeEntries(order, es[1..])|
      && all[0..ENTRY_SIZE] == EncodeFields(order, InodeOffset(e.inode), e.kind, n - 1)
      && all[ENTRY_SIZE..ENTRY_SIZE + n] == e.name && all[ENTRY_SIZE + n..|all|] == EncodeEntries(order, es[1..])
  {
    hide EncodeFields;
    var e := es[0];
    ThreeParts(EncodeFields(order, InodeOffset(e.inode), e.kind, |e.name| - 1), e.name, EncodeEntries(order, es[1..]));
  }

  /** The listing goes on past size by the length of 256 entries or more, and the table ends anywhere after size. */
  ghost predicate Short(order: Order, table: seq<Octet>, at: nat, size: nat, rs: seq<Run>)
  {
    RunsOk(rs) && Agrees(table, at, EncodeRuns(order, rs)) && size <= |table| &&
      size + 256 * ENTRY_MAX <= at + |EncodeRuns(order, rs)|
  }

  /** While a short listing is read, n of its total entries are there, and never all of them. */
  ghost predicate Shortened(order: Order, table: seq<Octet>, at: nat, size: nat, rs: seq<Run>, n: nat, total: nat)
  {
    if rs == [] then at >= size && n < total else Short(order, table, at, size, rs) && n + |Flatten(rs)| == total
  }

  /** What is found at the next header of a short listing: the run, or the end of the table. */
  lemma {:induction false} ShortHead(order: Order, table: seq<Octet>, at: nat, size: nat, rs: seq<Run>)
    requires Short(order, table, at, size, rs) && at < size
    ensures rs != [] && RunOk(rs[0]) && |Flatten(rs)| > 256
    ensures
      var header := ReadBytes(table, at, HEADER_SIZE);
      var es := EncodeEntries(order, rs[0].entries);
      at + HEADER_SIZE > |table|
      || (ReadField(order, DIR_HEADER[0], header) + 1 == |rs[0].entries| &&
      ReadField(order, DIR_HEADER[1], header) == rs[0].start
          && if at + HEADER_SIZE + |es| <= |table| then Holds(table, at + HEADER_SIZE, es)
            else Cut(table, at + HEADER_SIZE, es))
  {
    hide ReadField, EncodeHeader, ReadBytes, EncodeEntries, EncodeRuns, Agrees, Flatten;
    NoRuns(order, rs);
    RunsSize(order, rs);
    RunParts(order, rs);
    var r, all := rs[0], EncodeRuns(order, rs);
    var n := HEADER_SIZE + |EncodeEntries(order, r.entries)|;
    HeaderExactly(order, |r.entries| - 1, r.start);
    AgreesPart(table, at, all, 0, HEADER_SIZE);
    AgreesPart(table, at, all, HEADER_SIZE, n);
    if at + HEADER_SIZE <= |table| {
      AgreesHolds(table, at, all[0..HEADER_SIZE]);
      if at + n <= |table| {
        AgreesHolds(table, at + HEADER_SIZE, all[HEADER_SIZE..n]);
      }
    }
  }

  /** After a run that was all there, the rest of the listing is still short. */
  lemma {:induction false} ShortRest(order: Order, table: seq<Octet>, at: nat, size: nat, rs: seq<Run>)
    requires Short(order, table, at, size, rs) && at < size && rs != []
    ensures
      var next := at + HEADER_SIZE + |EncodeEntries(order, rs[0].entries)|;
      rs[1..] != [] && Short(order, table, next, size, rs[1..]) && |Flatten(rs)| == |rs[0].entries| + |Flatten(rs[1..])|
  {
    hide ReadField, EncodeHeader, EncodeEntries, EncodeRuns, Agrees;
    RunParts(order, rs);
    var all := EncodeRuns(order, rs);
    var n := HEADER_SIZE + |EncodeEntries(order, rs[0].entries)|;
    EntriesSize(order, rs[0].start, rs[0].entries);
    AgreesPart(table, at, all, n, |all|);
    NoRuns(order, rs[1..]);
  }

  lemma {:induction false} NoRuns(order: Order, rs: seq<Run>)
    ensures rs == [] ==> EncodeRuns(order, []) == [] && Flatten(rs) == []
  {
  }

  lemma {:induction false} SomeEntries(rs: seq<Run>)
    requires RunsOk(rs) && rs != []
    ensures |Flatten(rs)| > 0
  {
    assert RunOk(rs[0]);
  }

  /**
    squashfs_readdir on the bytes of a table, from offset up to size. Told the right size it returns
    the listing; told a size that is short by 256 entries or more it does not, wherever the table ends.
  */
  method ReadDir(order: Order, table: seq<Octet>, offset: nat, size: nat, ghost runs: seq<Run>)
    returns (entries: seq<Entry>)
    ensures RunsOk(runs) && Holds(table, offset, EncodeRuns(order, runs)) && size == offset + |EncodeRuns(order, runs)|
            ==> entries == Flatten(runs)
    ensures runs != [] && Short(order, table, offset, size, runs) ==> |entries| < |Flatten(runs)|
  {
    hide ReadField, EncodeHeader, EncodeRun, EncodeEntries, Agrees, Flatten, EncodeRuns, ReadBytes;
    entries := [];
    var bytes := offset;
    ghost var good := RunsOk(runs) && Holds(table, offset, EncodeRuns(order, runs)) &&
      size == offset + |EncodeRuns(order, runs)|;
    ghost var short := !good && runs != [] && Short(order, table, offset, size, runs);
    ghost var rest := runs;
    while bytes < size
      invariant good ==> RunsOk(rest) && entries + Flatten(rest) == Flatten(runs)
      invariant good ==> Holds(table, bytes, EncodeRuns(order, rest)) && bytes + |EncodeRuns(order, rest)| == size
      invariant short ==> Shortened(order, table, bytes, size, rest, |entries|, |Flatten(runs)|)
      decreases size - bytes
    {
      NoRuns(order, rest);
      ghost var at := bytes;
      if good {
        RunBack(order, table, at, rest);
        FlattenHead(rest);
      }
      if short {
        ShortHead(order, table, at, size, rest);
        ShortRest(order, table, at, size, rest);
      }
      var header := ReadBytes(table, bytes, HEADER_SIZE);
      var count := ReadField(order, DIR_HEADER[0], header) + 1;
      var start := ReadField(order, DIR_HEADER[1], header);
      CountBound(order, header);
      var es;
      ghost var expected := if good || short then rest[0].entries else [];
      es, bytes := ReadEntries(order, table, bytes + HEADER_SIZE, count, start, expected);
      if good {
        Associate(entries, rest[0].entries, Flatten(rest[1..]));
        rest := rest[1..];
      }
      if short {
        rest := if bytes >= |table| && at + HEADER_SIZE + |EncodeEntries(order, rest[0].entries)| > |table| then []
          else rest[1..];
      }
      entries := entries + es;
    }
    NoRuns(order, rest);
    if good && rest != [] {
      RunNotEmpty(order, rest);
    }
    if short && rest != [] {
      SomeEntries(rest);
    }
  }

  lemma {:induction false} RunNotEmpty(order: Order, rs: seq<Run>)
    requires RunsOk(rs) && rs != []
    ensures |EncodeRuns(order, rs)| > 0
  {
  }

  /** The first header of an encoded listing is read back, and its entries and the rest follow it. */
  lemma {:induction false} RunBack(order: Order, table: seq<Octet>, at: nat, rs: seq<Run>)
    requires RunsOk(rs) && Holds(table, at, EncodeRuns(order, rs)) && rs != []
    ensures
      var header := ReadBytes(table, at, HEADER_SIZE);
      var n := HEADER_SIZE + |EncodeEntries(order, rs[0].entries)|;
      && ReadField(order, DIR_HEADER[0], header) + 1 == |rs[0].entries| &&
        ReadField(order, DIR_HEADER[1], header) == rs[0].start
      && RunEntries(rs[0].start, rs[0].entries)
      && Holds(table, at + HEADER_SIZE, EncodeEntries(order, rs[0].entries))
      && Holds(table, at + n, EncodeRuns(order, rs[1..])) && |EncodeRuns(order, rs)| == n + |EncodeRuns(order, rs[1..])|
  {
    hide ReadField, EncodeHeader, ReadBytes, EncodeEntries, EncodeRuns, Holds;
    RunParts(order, rs);
    var r, all := rs[0], EncodeRuns(order, rs);
    var n := HEADER_SIZE + |EncodeEntries(order, r.entries)|;
    HeaderExactly(order, |r.entries| - 1, r.start);
    HoldsPart(table, at, all, 0, HEADER_SIZE);
    HoldsPart(table, at, all, HEADER_SIZE, n);
    HoldsPart(table, at, all, n, |all|);
  }

  lemma {:induction false} RunParts(order: Order, rs: seq<Run>)
    requires RunsOk(rs) && rs != []
    ensures RunOk(rs[0]) && rs[0].start < 16777216
    ensures
      var r, all, n := rs[0], EncodeRuns(order, rs), HEADER_SIZE + |EncodeEntries(order, rs[0].entries)|;
      && |all| == n + |EncodeRuns(order, rs[1..])|
      && all[0..HEADER_SIZE] == EncodeHeader(order, |r.entries| - 1, r.start)
      && all[HEADER_SIZE..n] == EncodeEntries(order, r.entries) && all[n..|all|] == EncodeRuns(order, rs[1..])
  {
    hide EncodeHeader, EncodeEntries;
    var r := rs[0];
    assert RunOk(r) && EntryOk(r.entries[0]);
    ThreeParts(EncodeHeader(order, |r.entries| - 1, r.start), EncodeEntries(order, r.entries),
      EncodeRuns(order, rs[1..]));
  }

  // ---- writing

  /** SQUASHFS_SWAP_DIR_HEADER. */
  method PackHeader(order: Order, count: nat, start: nat) returns (b: seq<Octet>)
    ensures b == EncodeHeader(order, count, start)
  {
    DirectoryLayouts();
    hide Layout, Encode;
    b := PackStruct(order, DIR_HEADER, [Bits(count, 8), Bits(start, 24)], HEADER_SIZE);
  }

  /** SQUASHFS_SWAP_DIR_ENTRY. */
  method PackFields(order: Order, offset: nat, kind: nat, size: nat) returns (b: seq<Octet>)
    ensures b == EncodeFields(order, offset, kind, size)
  {
    DirectoryLayouts();
    hide Layout, Encode;
    b := PackStruct(order, DIR_ENTRY, [Bits(offset, 13), Bits(kind, 3), Bits(size, 8)], ENTRY_SIZE);
  }

  datatype Place = NoHeader | Header(at: nat)

  /** The directory structure of mksquashfs.c: a growing buffer with one header still to be filled in. */
  class Builder {
    const order: Order
    var buff: seq<Octet>
    var p: nat
    var startBlock: nat
    var entryCount: nat
    var countP: Place
    ghost var closed: seq<Run>
    ghost var open: seq<Entry>

    /** Every entry added so far, in order. */
    ghost function Entries(): seq<Entry>
      reads this
    {
      Flatten(closed) + open
    }

    /** The closed runs, room for a header, and the entries that will go under it. */
    ghost predicate Laid()
      reads this
    {
      && countP.Header? && p <= |buff| && RunsOk(closed) && RunEntries(startBlock, open) && entryCount == |open| <= 256
      && countP.at == |EncodeRuns(order, closed)|
      && p == countP.at + HEADER_SIZE + |EncodeEntries(order, open)|
      && buff[..countP.at] == EncodeRuns(order, closed)
      && buff[countP.at + HEADER_SIZE..p] == EncodeEntries(order, open)
    }

    ghost predicate Valid()
      reads this
    {
      && p <= |buff|
      && (countP.NoHeader? ==> p == 0 && closed == [] && open == [] && entryCount == 256)
      && (countP.Header? ==> Laid() && |open| >= 1 && Grouped(closed + [Run(startBlock, open)]))
    }

    /** init_dir. */
    constructor (o: Order)
      ensures Valid() && Entries() == [] && order == o
    {
      order := o;
      buff := seq(METADATA_SIZE, i => 0);
      p, startBlock, entryCount, countP := 0, 0, 256, NoHeader;
      closed, open := [], [];
    }

    /** The open header is filled in: the count less one, and the start block. */
    method FillHeader()
      requires Laid() && |open| >= 1
      modifies `buff
      ensures |buff| == old(|buff|) && buff[..p] == EncodeRuns(order, closed + [Run(startBlock, open)])
      ensures RunsOk(closed + [Run(startBlock, open)])
    {
      hide EncodeHeader, EncodeEntries, EncodeRuns, Overwrite;
      var at := countP.at;
      var header := PackHeader(order, entryCount - 1, startBlock);
      ghost var was := buff;
      buff := Overwrite(buff, at, header);
      EncodeRunsAppend(order, closed, Run(startBlock, open));
      FilledHeader(was, buff, at, header, p);
    }

    /** A new header is left open at the end of the listing. */
    method OpenHeader(start: nat)
      requires RunsOk(closed) && p + HEADER_SIZE <= |buff| && buff[..p] == EncodeRuns(order, closed)
      modifies `p, `startBlock, `entryCount, `countP, `open
      ensures Laid() && open == [] && startBlock == start && p == old(p) + HEADER_SIZE
    {
      hide EncodeRuns;
      countP := Header(p);
      startBlock, entryCount := start, 0;
      p := p + HEADER_SIZE;
      open := [];
    }

    /** The fields and the name of an entry go to the end of the listing. */
    method AddEntry(e: Entry)
      requires Laid() && |open| < 256 && EntryOk(e) && InodeBlk(e.inode) == startBlock &&
        p + ENTRY_SIZE + |e.name| <= |buff|
      modifies `buff, `p, `entryCount, `open
      ensures Laid() && open == old(open) + [e] && |buff| == old(|buff|)
    {
      hide EncodeEntries, EncodeRuns, EncodeFields, Overwrite;
      var fields := PackFields(order, InodeOffset(e.inode), e.kind, |e.name| - 1);
      ghost var was := buff;
      buff := Overwrite(buff, p, fields);
      ghost var mid := buff;
      buff := Overwrite(buff, p + ENTRY_SIZE, e.name);
      AddedEntry(was, mid, buff, countP.at, p, fields, e.name);
      p := p + ENTRY_SIZE + |e.name|;
      EncodeEntriesAppend(order, open, e);
      entryCount, open := entryCount + 1, open + [e];
    }

    /** Room for one more header and entry. */
    method MakeRoom(size: nat)
      requires Valid() && size <= NAME_LEN
      modifies `buff
      ensures Valid() && p + HEADER_SIZE + ENTRY_SIZE + size <= |buff|
    {
      hide EncodeEntries, EncodeRuns, Flatten, Grouped;
      if p + ENTRY_SIZE + size + 6 >= |buff| {
        ghost var was := buff;
        buff := Grow(buff, |buff| + METADATA_SIZE);
        SamePieces(was, buff, if countP.Header? then countP.at else 0, p);
      }
    }

    /** The open run is closed and another one started. */
    method NextRun(start: nat, ghost e: Entry)
      requires Valid() && (entryCount == 256 || start != startBlock) && p + HEADER_SIZE <= |buff|
      modifies this
      ensures Laid() && open == [] && startBlock == start && Grouped(closed + [Run(start, [e])])
      ensures Flatten(closed) == old(Entries()) && p == old(p) + HEADER_SIZE && |buff| == old(|buff|)
    {
      hide EncodeEntries, EncodeRuns, Flatten, Grouped;
      ghost var groups := [];
      if countP.Header? {
        FillHeader();
        groups := closed + [Run(startBlock, open)];
        EncodeRunsAppend(order, closed, Run(startBlock, open));
      } else {
        StartsEmpty(order, buff, [], 0);
        NoGroups();
      }
      NextGroup(groups, Run(start, [e]));
      closed := groups;
      OpenHeader(start);
    }

    /** add_dir: a longer name is cut to 256 bytes. */
    method AddDir(inode: nat, name: seq<Octet>, kind: nat)
      requires Valid() && |name| >= 1
      requires InodeOffset(inode) < 8192 && kind < 8 && InodeBlk(inode) < 16777216
      modifies this
      ensures Valid()
      ensures Entries() == old(Entries()) + [Entry(if |name| > NAME_LEN then name[..NAME_LEN] else name, inode, kind)]
    {
      hide EncodeEntries, EncodeRuns, Flatten, Grouped;
      var e := Entry(if |name| > NAME_LEN then name[..NAME_LEN] else name, inode, kind);
      MakeRoom(|e.name|);
      if entryCount == 256 || InodeBlk(inode) != startBlock {
        NextRun(InodeBlk(inode), e);
        assert [] + [e] == [e];
      } else {
        MoreInGroup(closed, startBlock, open, e);
      }
      AddEntry(e);
    }

    /** The part of write_dir that closes the listing and takes its bytes. */
    method Close(ghost o: Order) returns (listing: seq<Octet>, ghost runs: seq<Run>)
      requires Valid() && order == o
      modifies this
      ensures RunsOk(runs) && Fewest(runs) && Flatten(runs) == old(Entries()) && listing == EncodeRuns(o, runs)
    {
      hide EncodeEntries, EncodeRuns, Grouped, Fewest;
      runs := [];
      listing := [];
      if p != 0 {
        FillHeader();
        runs := closed + [Run(startBlock, open)];
        EncodeRunsAppend(order, closed, Run(startBlock, open));
        listing := buff[..p];
      } else {
        StartsEmpty(order, buff, [], 0);
        NoGroups();
      }
      GroupedIsFewest(runs);
    }
  }

  lemma FilledHeader(was: seq<Octet>, now: seq<Octet>, at: nat, header: seq<Octet>, p: nat)
    requires at + |header| <= p <= |was| && now == Overwrite(was, at, header)
    ensures now[..p] == was[..at] + (header + was[at + |header|..p])
  {
  }

  lemma AddedEntry(was: seq<Octet>, mid: seq<Octet>, now: seq<Octet>, at: nat, p: nat, fields: seq<Octet>,
                   name: seq<Octet>)
    requires at + HEADER_SIZE <= p && p + |fields| + |name| <= |was|
    requires mid == Overwrite(was, p, fields) && now == Overwrite(mid, p + |fields|, name)
    ensures now[..at] == was[..at]
    ensures now[at + HEADER_SIZE..p + |fields| + |name|] == was[at + HEADER_SIZE..p] + (fields + name)
  {
  }

  lemma SamePieces(a: seq<Octet>, b: seq<Octet>, at: nat, p: nat)
    requires |a| <= |b| && b[..|a|] == a && at <= |a| && p <= |a|
    ensures b[..at] == a[..at] && (at + HEADER_SIZE <= p ==> b[at + HEADER_SIZE..p] == a[at + HEADER_SIZE..p])
  {
    assert forall i :: 0 <= i < |a| ==> b[i] == a[i];
  }

  lemma {:induction false} StartsEmpty(order: Order, buff: seq<Octet>, closed: seq<Run>, p: nat)
    requires closed == [] && p == 0
    ensures EncodeRuns(order, closed) == buff[..p] && Flatten(closed) == []
  {
  }

  lemma NextGroup(groups: seq<Run>, r: Run)
    requires Grouped(groups)
    requires groups != [] ==> groups[|groups| - 1].start != r.start || |groups[|groups| - 1].entries| == 256
    ensures Grouped(groups + [r])
  {
  }

  lemma NoGroups()
    ensures Grouped([])
  {
  }

  lemma MoreInGroup(closed: seq<Run>, start: nat, open: seq<Entry>, e: Entry)
    requires Grouped(closed + [Run(start, open)])
    ensures Grouped(closed + [Run(start, open + [e])])
  {
    var a, b := closed + [Run(start, open)], closed + [Run(start, open + [e])];
    assert forall i :: 0 <= i < |closed| ==> a[i] == b[i];
  }

  /** A directory built entry by entry. */
  method BuildListing(order: Order, entries: seq<Entry>) returns (listing: seq<Octet>, ghost runs: seq<Run>)
    requires forall i :: 0 <= i < |entries| ==> EntryOk(entries[i])
    ensures RunsOk(runs) && Fewest(runs) && Flatten(runs) == entries && listing == EncodeRuns(order, runs)
  {
    hide EncodeRuns, Flatten, Grouped, EncodeEntries, Fewest;
    var dir := new Builder(order);
    for n := 0 to |entries|
      invariant dir.Valid() && dir.Entries() == entries[..n] && fresh(dir)
    {
      dir.AddDir(entries[n].inode, entries[n].name, entries[n].kind);
    }
    assert entries[..|entries|] == entries;
    listing, runs := dir.Close(order);
  }
}
