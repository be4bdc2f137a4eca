/**
  Scatterlist walks (kernel/linux/crypto/scatterwalk.c).

  Memory is one byte array; page p occupies the PAGE_SIZE bytes from p * PAGE_SIZE, so `page++`
  moves to the frame that follows.  A scatterlist denotes the sequence of byte addresses it covers,
  and a walk denotes the part of that sequence it has not consumed yet.
*/
module ScatterWalk {

  type Byte = bv8

  const PAGE_SIZE: nat := 4096

  datatype Sg = Sg(page: nat, offset: nat, length: nat)

  /** The n consecutive addresses from a. */
  ghost function Range(a: nat, n: nat): (r: seq<nat>)
    ensures |r| == n
    ensures forall i :: 0 <= i < n ==> r[i] == a + i
  {
    seq(n, i requires 0 <= i < n => a + i)
  }

  /** The byte addresses a scatterlist covers, in order. */
  ghost function Addrs(list: seq<Sg>): (r: seq<nat>)
  {
    if list == [] then []
    else Range(list[0].page * PAGE_SIZE + list[0].offset, list[0].length) + Addrs(list[1..])
  }

  /** What the walk demands of a list: offsets inside their page, segments inside memory. */
  ghost predicate Fits(list: seq<Sg>, size: nat)
  {
    forall k :: 0 <= k < |list| ==>
      list[k].offset < PAGE_SIZE &&
      list[k].page * PAGE_SIZE + list[k].offset + list[k].length <= size
  }

  ghost predicate Distinct(s: seq<nat>)
  {
    forall i, j :: 0 <= i < j < |s| ==> s[i] != s[j]
  }

  ghost predicate Within(addrs: seq<nat>, size: nat)
  {
    forall i :: 0 <= i < |addrs| ==> addrs[i] < size
  }

  lemma WithinSlice(addrs: seq<nat>, size: nat, i: nat, n: nat)
    requires Within(addrs, size) && i + n <= |addrs|
    ensures Within(addrs[i..], size) && Within(addrs[i..i + n], size) && Within(addrs[i..][..n], size)
    ensures addrs[i..][..n] == addrs[i..i + n]
  {
  }

  /** The bytes found at a sequence of addresses. */
  ghost function Gather(mem: seq<Byte>, addrs: seq<nat>): (r: seq<Byte>)
    requires Within(addrs, |mem|)
    ensures |r| == |addrs|
    ensures forall i :: 0 <= i < |r| ==> r[i] == mem[addrs[i]]
  {
    seq(|addrs|, i requires 0 <= i < |addrs| => mem[addrs[i]])
  }

  lemma {:induction false} AddrsInside(list: seq<Sg>, size: nat)
    requires Fits(list, size)
    ensures Within(Addrs(list), size)
  {
    if list != [] {
      AddrsInside(list[1..], size);
    }
  }

  /** Byte i of segment k comes after the bytes of the segments before, and is i bytes past the segment's own place. */
  lemma {:induction false} AddrsAt(list: seq<Sg>, k: nat, i: nat)
    requires k < |list| && i < list[k].length
    ensures |Addrs(list)| >= |Addrs(list[..k])| + list[k].length
    ensures |Addrs(list[..k + 1])| == |Addrs(list[..k])| + list[k].length
    ensures Addrs(list)[|Addrs(list[..k])| + i] == 4096 * list[k].page + list[k].offset + i
    decreases k
  {
    if k == 0 {
      assert list[..1][1..] == [];
    } else {
      AddrsAt(list[1..], k - 1, i);
      assert list[1..][..k - 1] == list[..k][1..] && list[1..][..k] == list[..k + 1][1..];
    }
  }

  lemma RangeDrop(a: nat, n: nat, k: nat, tail: seq<nat>)
    requires k <= n
    ensures (Range(a, n) + tail)[k..] == Range(a + k, n - k) + tail
    ensures (Range(a, n) + tail)[..k] == Range(a, k)
  {
  }

  /** What is left of a segment and the list after it once the rest of a page is gone. */
  lemma PageGone(a: nat, segment: nat, n: nat, list: seq<Sg>, k: nat)
    requires n <= segment && k <= |list|
    ensures (Range(a, segment) + Addrs(list[k..]))[n..] == Range(a + n, segment - n) + Addrs(list[k..])
    ensures n == segment ==> (Range(a, segment) + Addrs(list[k..]))[n..] == Addrs(list[k..])
    ensures n == segment < |Range(a, segment) + Addrs(list[k..])| ==> k < |list|
  {
    RangeDrop(a, segment, n, Addrs(list[k..]));
  }

  lemma DropDrop(s: seq<nat>, i: nat, j: nat)
    requires i + j <= |s|
    ensures s[i..][j..] == s[i + j..]
  {
  }

  lemma RangeHas(a: nat, n: nat, x: nat)
    ensures x in Range(a, n) <==> a <= x < a + n
  {
    if a <= x < a + n {
      assert Range(a, n)[x - a] == x;
    }
  }

  /** now is before with the bytes at addrs[..k] of mem laid down from off on. */
  ghost predicate Filled(now: seq<Byte>, before: seq<Byte>, off: nat, mem: seq<Byte>, addrs: seq<nat>, k: nat)
  {
    && |now| == |before| && off + k <= |now| && k <= |addrs|
    && (forall i :: 0 <= i < k ==> addrs[i] < |mem| && now[off + i] == mem[addrs[i]])
    && (forall i :: 0 <= i < |now| && !(off <= i < off + k) ==> now[i] == before[i])
  }

  /** now is before with buf[off..off + k] spread over addrs[..k]. */
  ghost predicate Spread(now: seq<Byte>, before: seq<Byte>, addrs: seq<nat>, buf: seq<Byte>, off: nat, k: nat)
  {
    && |now| == |before| && off + k <= |buf| && k <= |addrs|
    && (forall i :: 0 <= i < k ==> addrs[i] < |now| && now[addrs[i]] == buf[off + i])
    && (forall a :: 0 <= a < |now| && a !in addrs[..k] ==> now[a] == before[a])
  }

  /** Copying the next n bytes from one contiguous stretch extends what is filled. */
  lemma FilledMore(now: seq<Byte>, mid: seq<Byte>, before: seq<Byte>, off: nat, mem: seq<Byte>,
                   addrs: seq<nat>, k: nat, n: nat, a: nat)
    requires Filled(mid, before, off, mem, addrs, k)
    requires |now| == |mid| && off + k + n <= |now| && k + n <= |addrs| && a + n <= |mem|
    requires addrs[k..k + n] == Range(a, n)
    requires now == Put(mid, off + k, mem[a..a + n])
    ensures Filled(now, before, off, mem, addrs, k + n)
  {
    forall i | 0 <= i < k + n
      ensures addrs[i] < |mem| && now[off + i] == mem[addrs[i]]
    {
      if i >= k {
        assert addrs[k..k + n][i - k] == a + (i - k);
        assert now[off + i] == mem[a..a + n][i - k];
      }
    }
  }

  lemma SpreadMore(now: seq<Byte>, mid: seq<Byte>, before: seq<Byte>, addrs: seq<nat>, buf: seq<Byte>,
                   off: nat, k: nat, n: nat, total: nat, a: nat)
    requires Spread(mid, before, addrs, buf, off, k)
    requires |now| == |mid| && off + k + n <= |buf| && k + n <= |addrs| && a + n <= |now|
    requires k + n <= total <= |addrs| && Distinct(addrs[..total])
    requires addrs[k..k + n] == Range(a, n)
    requires now == Put(mid, a, buf[off + k..off + k + n])
    ensures Spread(now, before, addrs, buf, off, k + n)
  {
    forall i | k <= i < k + n
      ensures addrs[i] == a + (i - k)
    {
      assert addrs[k..k + n][i - k] == a + (i - k);
    }
    forall i | 0 <= i < k + n
      ensures addrs[i] < |now| && now[addrs[i]] == buf[off + i]
    {
      if i >= k {
        assert now[addrs[i]] == buf[off + k..off + k + n][i - k];
      } else {
        assert addrs[i] == addrs[..total][i];
        assert addrs[k..k + n] == addrs[..total][k..k + n];
        RangeHas(a, n, addrs[i]);
      }
    }
    forall b | 0 <= b < |now| && b !in addrs[..k + n]
      ensures now[b] == before[b]
    {
      assert addrs[..k] == addrs[..k + n][..k];
      assert addrs[k..k + n] == addrs[..k + n][k..];
      RangeHas(a, n, b);
    }
  }

  /** s with the bytes b put in place from offset o on. */
  ghost function Put(s: seq<Byte>, o: nat, b: seq<Byte>): (r: seq<Byte>)
    requires o + |b| <= |s|
    ensures |r| == |s| && r[o..o + |b|] == b
  {
    s[..o] + b + s[o + |b|..]
  }

  /** memcpy between two different buffers. */
  method Memcpy(dst: array<Byte>, d: nat, src: array<Byte>, s: nat, n: nat)
    requires dst != src && d + n <= dst.Length && s + n <= src.Length
    modifies dst
    ensures dst[..] == Put(old(dst[..]), d, src[s..s + n])
  {
    var k := 0;
    while k < n
      invariant 0 <= k <= n
      invariant dst[..] == old(dst[..d]) + src[s..s + k] + old(dst[d + k..])
    {
      dst[d + k] := src[s + k];
      assert src[s..s + k + 1] == src[s..s + k] + [src[s + k]];
      k := k + 1;
    }
  }

  class Walk {
    const list: seq<Sg>
    var sg: nat
    var page: nat
    var data: nat
    var lenThisPage: nat
    var lenThisSegment: nat
    var offset: nat

    ghost predicate Valid(size: nat)
      reads this
    {
      && Fits(list, size)
      && sg < |list|
      && lenThisPage <= lenThisSegment
      && offset + lenThisPage <= PAGE_SIZE
      && (lenThisPage < lenThisSegment ==> offset + lenThisPage == PAGE_SIZE)
      && page * PAGE_SIZE + offset + lenThisSegment <= size
    }

    ghost predicate Mapped()
      reads this
    {
      data == page * PAGE_SIZE + offset
    }

    /** The next byte is on the current page, unless the segment is one without bytes. */
    ghost predicate Ready()
      requires sg < |list|
      reads this
    {
      lenThisPage > 0 || list[sg].length == 0
    }

    /** The addresses still ahead of the walk. */
    ghost function Rest(): (r: seq<nat>)
      requires sg < |list|
      reads this
    {
      Range(page * PAGE_SIZE + offset, lenThisSegment) + Addrs(list[sg + 1..])
    }

    constructor (list: seq<Sg>, ghost size: nat)
      requires |list| > 0 && Fits(list, size)
      ensures this.list == list
      ensures Valid(size) && Rest() == Addrs(list)
    {
      this.list := list;
      new;
      Start(0, size);
      assert list[0..] == list;
    }

    /** scatterwalk_start: position the walk on segment k. */
    method Start(k: nat, ghost size: nat)
      requires k < |list| && Fits(list, size)
      modifies this
      ensures Valid(size)
      ensures Rest() == Addrs(list[k..]) && sg == k && Ready()
    {
      sg := k;
      page := list[k].page;
      lenThisSegment := list[k].length;
      var restOfPage := PAGE_SIZE - list[k].offset % PAGE_SIZE;
      lenThisPage := if list[k].length < restOfPage then list[k].length else restOfPage;
      offset := list[k].offset;
      assert list[k..][1..] == list[k + 1..];
    }

    /** scatterwalk_map: record the address of the next byte. */
    method Map(ghost size: nat)
      requires Valid(size)
      modifies this`data
      ensures Valid(size) && Mapped()
      ensures Rest() == old(Rest())
    {
      data := page * PAGE_SIZE + offset;
    }

    /** scatterwalk_whichbuf: use the page itself when the next n bytes lie inside it. */
    predicate Direct(n: nat)
      reads this
    {
      n <= lenThisPage && data % PAGE_SIZE + n <= PAGE_SIZE
    }

    /** The second half of the whichbuf test never changes its answer on a mapped walk. */
    lemma DirectExactly(n: nat, size: nat)
      requires Valid(size) && Mapped() && n > 0
      ensures Direct(n) <==> n <= lenThisPage
    {
      if n <= lenThisPage {
        assert data % PAGE_SIZE == offset;
      }
    }

    /** scatterwalk_pagedone: step over what is left of this page to the next page or segment. */
    method PageDone(more: bool, ghost size: nat)
      requires Valid(size)
      requires more ==> |Rest()| > lenThisPage
      modifies this
      ensures Valid(size)
      ensures !more ==> Rest() == old(Rest()) && sg == old(sg) && page == old(page) && offset == old(offset)
      ensures more ==> Rest() == old(Rest())[old(lenThisPage)..]
      ensures more ==> Ready() && (old(sg) < sg || (old(sg) == sg && lenThisPage > 0))
    {
      hide Rest, Fits;
      if more {
        if lenThisSegment != lenThisPage {
          NextPage(size);
        } else {
          NextSegment(size);
        }
      }
    }

    /** The segment goes on in the page that follows. */
    method NextPage(ghost size: nat)
      requires Valid(size) && lenThisPage < lenThisSegment
      modifies `lenThisSegment, `page, `lenThisPage, `offset
      ensures Valid(size) && lenThisPage > 0 && Rest() == old(Rest())[old(lenThisPage)..]
    {
      PageGone(page * PAGE_SIZE + offset, lenThisSegment, lenThisPage, list, sg + 1);
      hide Range, Addrs, Fits;
      lenThisSegment := lenThisSegment - lenThisPage;
      page := page + 1;
      lenThisPage := if lenThisSegment < PAGE_SIZE then lenThisSegment else PAGE_SIZE;
      offset := 0;
    }

    /** The segment is used up. */
    method NextSegment(ghost size: nat)
      requires Valid(size) && lenThisPage == lenThisSegment < |Rest()|
      modifies this
      ensures Valid(size) && sg == old(sg) + 1 && Rest() == old(Rest())[old(lenThisPage)..]
      ensures Ready()
    {
      PageGone(page * PAGE_SIZE + offset, lenThisSegment, lenThisPage, list, sg + 1);
      assert Rest()[lenThisPage..] == Addrs(list[sg + 1..]);
      hide Range, Addrs, Fits, Rest;
      lenThisSegment := lenThisSegment - lenThisPage;
      Start(sg + 1, size);
    }

    /** scatterwalk_done: move on when the page is used up and more bytes follow. */
    method Done(more: bool, ghost size: nat)
      requires Valid(size)
      requires more ==> |Rest()| > 0
      modifies this
      ensures Valid(size)
      ensures Rest() == old(Rest())
      ensures more ==> Ready()
      ensures more && old(lenThisPage) == 0 ==> old(sg) < sg || (old(sg) == sg && lenThisPage > 0)
      ensures old(lenThisPage) > 0 ==> sg == old(sg) && page == old(page) && offset == old(offset)
    {
      if lenThisPage == 0 || !more {
        PageDone(more, size);
      }
    }

    /**
      scatterwalk_copychunks.  The buffer is the walked memory itself at the walk's own address, in
      which case nothing is copied, or a scratch buffer, which is filled from (or, when out,
      spread over) the next n addresses however many pages and segments they cross.
    */
    method CopyChunks(mem: array<Byte>, buf: array<Byte>, off: nat, n: nat, out: bool)
      requires Valid(mem.Length) && Mapped()
      requires 0 < n <= |Rest()| && off + n <= buf.Length
      requires buf == mem ==> off == data && n <= lenThisPage
      requires out ==> Distinct(Rest()[..n])
      modifies this, if buf == mem then {} else if out then {mem} else {buf}
      ensures Valid(mem.Length)
      ensures Rest() == old(Rest())[n..]
      ensures buf == mem ==> mem[..] == old(mem[..])
      ensures buf != mem && !out ==> Filled(buf[..], old(buf[..]), off, mem[..], old(Rest()), n)
      ensures buf != mem && out ==> Spread(mem[..], old(mem[..]), old(Rest()), buf[..], off, n)
    {
      ghost var rest, mem0, buf0 := Rest(), mem[..], buf[..];
      assert buf != mem && !out ==> Filled(buf[..], buf0, off, mem0, rest, 0);
      assert buf != mem && out ==> Spread(mem[..], mem0, rest, buf0, off, 0);
      hide Filled, Spread, Distinct, Addrs, Range, Rest;
      var left := n;
      if !(buf == mem && off == data) {
        left := CopyPages(mem, buf, off, n, out, rest, mem0, buf0);
        CopyPart(mem, buf, off + (n - left), left, out, rest, off, n - left, n, mem0, buf0);
      }
      DropDrop(rest, n - left, left);
      Advance(left, mem.Length);
    }

    /** The loop of scatterwalk_copychunks: pages are copied until what is left lies within one. */
    method CopyPages(mem: array<Byte>, buf: array<Byte>, off: nat, n: nat, out: bool,
                     ghost rest: seq<nat>, ghost mem0: seq<Byte>, ghost buf0: seq<Byte>) returns (left: nat)
      requires Valid(mem.Length) && Mapped() && buf != mem && 0 < n <= |rest| && off + n <= buf.Length && Rest() == rest
      requires !out ==> mem[..] == mem0 && Filled(buf[..], buf0, off, mem0, rest, 0)
      requires out ==> Distinct(rest[..n]) && buf[..] == buf0 && Spread(mem[..], mem0, rest, buf0, off, 0)
      modifies this, if out then {mem} else {buf}
      ensures Valid(mem.Length) && Mapped() && 0 < left <= n && left <= lenThisPage && Rest() == rest[n - left..]
      ensures !out ==> mem[..] == mem0 && Filled(buf[..], buf0, off, mem0, rest, n - left)
      ensures out ==> buf[..] == buf0 && Spread(mem[..], mem0, rest, buf0, off, n - left)
    {
      hide Filled, Spread, Distinct, Addrs, Range, Rest;
      left := n;
      var b := off;
      while left > lenThisPage
        invariant Valid(mem.Length) && Mapped()
        invariant 0 < left <= n && b == off + (n - left)
        invariant Rest() == rest[n - left..]
        invariant !out ==> mem[..] == mem0 && Filled(buf[..], buf0, off, mem0, rest, n - left)
        invariant out ==> buf[..] == buf0 && Spread(mem[..], mem0, rest, buf0, off, n - left)
        decreases left, |list| - sg, if lenThisPage == 0 then 1 else 0
      {
        var part := lenThisPage;
        CopyPage(mem, buf, b, out, rest, off, n - left, n, mem0, buf0);
        b := b + part;
        left := left - part;
      }
    }

    /** One pass of the loop in scatterwalk_copychunks: copy the rest of this page, map the next. */
    method CopyPage(mem: array<Byte>, buf: array<Byte>, b: nat, out: bool, ghost rest: seq<nat>,
                    ghost off: nat, ghost k: nat, ghost total: nat, ghost mem0: seq<Byte>, ghost buf0: seq<Byte>)
      requires Valid(mem.Length) && Mapped() && buf != mem
      requires b + lenThisPage <= buf.Length && b == off + k
      requires k + lenThisPage < total <= |rest| && Rest() == rest[k..]
      requires !out ==> mem[..] == mem0 && Filled(buf[..], buf0, off, mem0, rest, k)
      requires out ==> Distinct(rest[..total]) && buf[..] == buf0 && Spread(mem[..], mem0, rest, buf0, off, k)
      modifies this, if out then mem else buf
      ensures Valid(mem.Length) && Mapped()
      ensures Rest() == rest[k + old(lenThisPage)..]
      ensures old(sg) < sg || (old(sg) == sg && lenThisPage > 0)
      ensures !out ==> Filled(buf[..], buf0, off, mem0, rest, k + old(lenThisPage))
      ensures out ==> Spread(mem[..], mem0, rest, buf0, off, k + old(lenThisPage))
    {
      hide Filled, Spread, Distinct, Addrs, Range, Rest;
      CopyPart(mem, buf, b, lenThisPage, out, rest, off, k, total, mem0, buf0);
      DropDrop(rest, k, lenThisPage);
      PageDone(true, mem.Length);
      Map(mem.Length);
    }

    /** The tail of scatterwalk_copychunks: account for n bytes of the current page. */
    method Advance(n: nat, ghost size: nat)
      requires Valid(size) && n <= lenThisPage
      modifies this
      ensures Valid(size)
      ensures Rest() == old(Rest())[n..]
    {
      RangeDrop(page * PAGE_SIZE + offset, lenThisSegment, n, Addrs(list[sg + 1..]));
      offset := offset + n;
      lenThisPage := lenThisPage - n;
      lenThisSegment := lenThisSegment - n;
    }

    /** The next bytes of the page, as part of the whole list. */
    lemma NextBytes(rest: seq<nat>, k: nat, n: nat, size: nat)
      requires Valid(size) && Mapped() && n <= lenThisPage && k + n <= |rest| && Rest() == rest[k..]
      ensures rest[k..k + n] == Range(data, n)
    {
      assert rest[k..k + n] == Rest()[..n];
    }


    /** memcpy_dir on the current page: bytes k .. k + n of the walked sequence. */
    method CopyPart(mem: array<Byte>, buf: array<Byte>, b: nat, n: nat, out: bool, ghost rest: seq<nat>,
                    ghost off: nat, ghost k: nat, ghost total: nat, ghost mem0: seq<Byte>, ghost buf0: seq<Byte>)
      requires Valid(mem.Length) && Mapped() && buf != mem
      requires n <= lenThisPage && b + n <= buf.Length && b == off + k
      requires k + n <= |rest| && Rest() == rest[k..]
      requires !out ==> mem[..] == mem0 && Filled(buf[..], buf0, off, mem0, rest, k)
      requires k + n <= total <= |rest|
      requires out ==> Distinct(rest[..total]) && buf[..] == buf0 && Spread(mem[..], mem0, rest, buf0, off, k)
      modifies if out then mem else buf
      ensures !out ==> Filled(buf[..], buf0, off, mem0, rest, k + n)
      ensures out ==> Spread(mem[..], mem0, rest, buf0, off, k + n)
    {
      hide Rest, Range, Filled, Spread, Addrs, Distinct, Put, Fits;
      NextBytes(rest, k, n, mem.Length);
      if out {
        ghost var mid := mem[..];
        assert buf[b..b + n] == buf0[b..b + n];
        Memcpy(mem, data, buf, b, n);
        SpreadMore(mem[..], mid, mem0, rest, buf0, off, k, n, total, data);
      } else {
        ghost var mid := buf[..];
        assert mem[data..data + n] == mem0[data..data + n];
        Memcpy(buf, b, mem, data, n);
        FilledMore(buf[..], mid, buf0, off, mem0, rest, k, n, data);
      }
    }
  }
}
