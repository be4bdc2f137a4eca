/**
  The per-CPU buffer LRUs of fs/buffer.c and the reference counts that keep a buffer in memory
  while some LRU or some caller has it. A null pointer is 0.
*/
module BhLru {

  const BH_LRU_SIZE := 8
  const NULL: nat := 0

  // ---- one LRU

  /** A buffer appears at most once. */
  ghost predicate Once(l: seq<nat>)
  {
    forall i, j :: 0 <= i < j < |l| && l[i] != NULL ==> l[i] != l[j]
  }

  function Without(l: seq<nat>, b: nat): seq<nat>
  {
    if l == [] then [] else if l[0] == b then Without(l[1..], b) else [l[0]] + Without(l[1..], b)
  }

  /** The buffer in front and the others in their order. */
  function Front(l: seq<nat>, b: nat): seq<nat>
  {
    [b] + Without(l, b)
  }

  /** Move to front: at most one buffer falls off the end. */
  ghost predicate MovedToFront(was: seq<nat>, now: seq<nat>, b: nat, evictee: nat)
  {
    && |was| == |now| == BH_LRU_SIZE <= |Front(was, b)| <= BH_LRU_SIZE + 1
    && now == Front(was, b)[..BH_LRU_SIZE]
    && evictee == if |Front(was, b)| > BH_LRU_SIZE then Front(was, b)[BH_LRU_SIZE] else NULL
  }

  /** A buffer that is there at most once leaves one gap. */
  lemma {:induction false} WithoutSize(l: seq<nat>, b: nat)
    requires Once(l) && b != NULL
    ensures |Without(l, b)| == |l| - if b in l then 1 else 0
    decreases |l|
  {
    if l != [] {
      if l[0] == b {
        assert b !in l[1..];
        WithoutAbsent(l[1..], b);
      } else {
        WithoutSize(l[1..], b);
      }
    }
  }

  lemma {:induction false} WithoutAbsent(l: seq<nat>, b: nat)
    requires b !in l
    ensures Without(l, b) == l
  {
    if l != [] {
      WithoutAbsent(l[1..], b);
    }
  }

  lemma {:induction false} WithoutAppend(l: seq<nat>, b: nat, x: nat)
    ensures Without(l + [x], b) == if x == b then Without(l, b) else Without(l, b) + [x]
  {
    if l == [] {
      assert [x][1..] == [];
    } else {
      assert (l + [x])[1..] == l[1..] + [x];
      WithoutAppend(l[1..], b, x);
    }
  }

  /** Taking out a buffer that is there once. */
  lemma {:induction false} WithoutOnce(l: seq<nat>, b: nat, k: nat)
    requires Once(l) && b != NULL && k < |l| && l[k] == b
    ensures Without(l, b) == l[..k] + l[k + 1..]
    decreases |l|
  {
    if k == 0 {
      assert b !in l[1..];
      WithoutAbsent(l[1..], b);
    } else {
      assert l[1..][k - 1] == b;
      WithoutOnce(l[1..], b, k - 1);
      assert [l[0]] + (l[1..][..k - 1] + l[1..][k..]) == l[..k] + l[k + 1..];
    }
  }

  /** bh_lru_install on the array of one CPU. dropped says that an old entry for the buffer gave up its reference. */
  method InstallList(lru: array<nat>, bh: nat) returns (changed: bool, dropped: bool, evictee: nat)
    requires lru.Length == BH_LRU_SIZE && Once(lru[..]) && bh != NULL
    modifies lru
    ensures changed <==> old(lru[..])[0] != bh
    ensures !changed ==> lru[..] == old(lru[..]) && evictee == NULL
    ensures changed ==> MovedToFront(old(lru[..]), lru[..], bh, evictee) && (dropped <==> bh in old(lru[..]))
  {
    changed, dropped, evictee := false, false, NULL;
    if lru[0] != bh {
      changed := true;
      var bhs := new nat[BH_LRU_SIZE];
      bhs[0] := bh;
      var out := 1;
      ghost var l := lru[..];
      assert l[..0] == [];
      for i := 0 to BH_LRU_SIZE
        invariant lru[..] == l && fresh(bhs) && bhs.Length == BH_LRU_SIZE
        invariant dropped <==> bh in l[..i]
        invariant |Front(l[..i], bh)| == i + 1 - (if dropped then 1 else 0)
        invariant out == if |Front(l[..i], bh)| < BH_LRU_SIZE then |Front(l[..i], bh)| else BH_LRU_SIZE
        invariant bhs[..out] == Front(l[..i], bh)[..out]
        invariant evictee == if |Front(l[..i], bh)| > BH_LRU_SIZE then Front(l[..i], bh)[BH_LRU_SIZE] else NULL
      {
        var bh2 := lru[i];
        InstallStep(l, bh, i);
        if bh2 == bh {
          dropped := true;
        } else if out >= BH_LRU_SIZE {
          assert evictee == NULL;
          evictee := bh2;
        } else {
          bhs[out] := bh2;
          out := out + 1;
        }
      }
      assert l[..BH_LRU_SIZE] == l;
      // Empty places have been copied like buffers, so nothing is left to fill with null.
      assert out == BH_LRU_SIZE;
      forall i | 0 <= i < BH_LRU_SIZE {
        lru[i] := bhs[i];
      }
      assert lru[..] == bhs[..];
    }
  }

  lemma InstallStep(l: seq<nat>, b: nat, i: nat)
    requires |l| == BH_LRU_SIZE && Once(l) && b != NULL && i < |l|
    ensures b in l[..i + 1] <==> b in l[..i] || l[i] == b
    ensures Front(l[..i + 1], b) == if l[i] == b then Front(l[..i], b) else Front(l[..i], b) + [l[i]]
    ensures b in l[..i] ==> l[i] != b
  {
    assert l[..i + 1] == l[..i] + [l[i]];
    WithoutAppend(l[..i], b, l[i]);
  }

  /** lookup_bh_lru on the array of one CPU: the first match moves to the front. */
  method LookupList(lru: array<nat>, matches: nat -> bool) returns (bh: nat)
    requires lru.Length == BH_LRU_SIZE && Once(lru[..])
    modifies lru
    ensures bh == NULL ==> lru[..] == old(lru[..]) && forall i :: 0 <= i < BH_LRU_SIZE && lru[i] != NULL ==>
      !matches(lru[i])
    ensures bh != NULL ==> bh in old(lru[..]) && matches(bh) && MovedToFront(old(lru[..]), lru[..], bh, NULL)
  {
    bh := NULL;
    ghost var l := lru[..];
    for i := 0 to BH_LRU_SIZE
      invariant lru[..] == l && bh == NULL
      invariant forall j :: 0 <= j < i && l[j] != NULL ==> !matches(l[j])
    {
      if lru[i] != NULL && matches(lru[i]) {
        bh := lru[i];
        var k := i;
        while k > 0
          invariant 0 <= k <= i
          invariant forall j :: k < j <= i ==> lru[j] == l[j - 1]
          invariant forall j :: 0 <= j <= k || i < j < BH_LRU_SIZE ==> lru[j] == l[j]
        {
          lru[k] := lru[k - 1];
          k := k - 1;
        }
        lru[0] := bh;
        WithoutOnce(l, bh, i);
        assert forall j :: 0 < j < BH_LRU_SIZE ==> lru[j] == (l[..i] + l[i + 1..])[j - 1];
        assert lru[..] == [bh] + (l[..i] + l[i + 1..]);
        return;
      }
    }
  }

  // ---- what a move to front does to membership

  lemma {:induction false} WithoutMembers(l: seq<nat>, b: nat, x: nat)
    ensures x in Without(l, b) <==> x in l && x != b
  {
    if l != [] {
      WithoutMembers(l[1..], b, x);
      assert l == [l[0]] + l[1..];
    }
  }

  lemma {:induction false} WithoutStaysOnce(l: seq<nat>, b: nat)
    requires Once(l)
    ensures Once(Without(l, b))
  {
    if l != [] {
      WithoutStaysOnce(l[1..], b);
      var rest := Without(l[1..], b);
      assert l == [l[0]] + l[1..];
      WithoutMembers(l[1..], b, l[0]);
      FrontOnce(l[0], rest);
    }
  }

  /** The buffer is in, the evictee is out, all others stay as they were, and nothing is there twice. */
  lemma MovedMembers(was: seq<nat>, now: seq<nat>, b: nat, evictee: nat)
    requires Once(was) && b != NULL && MovedToFront(was, now, b, evictee)
    ensures Once(now) && b in now && evictee != b
    ensures evictee != NULL ==> evictee in was && evictee !in now && b !in was
    ensures forall x :: x != NULL && x != b && x != evictee ==> (x in now <==> x in was)
  {
    var front, rest := Front(was, b), Without(was, b);
    WithoutStaysOnce(was, b);
    WithoutSize(was, b);
    forall x
      ensures x in rest <==> x in was && x != b
    {
      WithoutMembers(was, b, x);
    }
    assert Once(front) by { FrontOnce(b, rest); }
    assert |front| > BH_LRU_SIZE ==> front == now + [front[BH_LRU_SIZE]];
    assert |front| == BH_LRU_SIZE ==> front == now;
    assert front[0] == b;
    forall x
      ensures x in front <==> x == b || x in rest
    {
    }
  }

  lemma FrontOnce(b: nat, rest: seq<nat>)
    requires Once(rest) && (b == NULL || b !in rest)
    ensures Once([b] + rest)
  {
  }

  // ---- reference counts

  function One(b: bool): nat
  {
    if b then 1 else 0
  }

  /** The number of LRUs a buffer is in. */
  function Held(ls: seq<seq<nat>>, b: nat): nat
  {
    if ls == [] then 0 else One(b in ls[0]) + Held(ls[1..], b)
  }

  lemma {:induction false} HeldUpdate(ls: seq<seq<nat>>, c: nat, l: seq<nat>, b: nat)
    requires c < |ls|
    ensures Held(ls[c := l], b) + One(b in ls[c]) == Held(ls, b) + One(b in l)
    decreases |ls|
  {
    if c == 0 {
      assert ls[0 := l][1..] == ls[1..];
    } else {
      assert ls[c := l][1..] == ls[1..][c - 1 := l];
      HeldUpdate(ls[1..], c - 1, l, b);
    }
  }

  lemma {:induction false} HeldSome(ls: seq<seq<nat>>, c: nat, b: nat)
    requires c < |ls| && b in ls[c]
    ensures Held(ls, b) > 0
    decreases |ls|
  {
    if c > 0 {
      HeldSome(ls[1..], c - 1, b);
    }
  }

  /** Every LRU has a place for eight buffers, holds none twice, and holds only buffers that exist. */
  ghost predicate ListsOk(ls: seq<seq<nat>>, live: set<nat>)
  {
    forall c :: 0 <= c < |ls| ==> |ls[c]| == BH_LRU_SIZE && Once(ls[c]) && Live(ls[c], live)
  }

  ghost predicate Live(l: seq<nat>, live: set<nat>)
  {
    forall i :: 0 <= i < |l| && l[i] != NULL ==> l[i] in live
  }

  /** The count of a buffer is what callers hold and one for each LRU it is in. */
  ghost predicate CountsOk(count: map<nat, nat>, holders: map<nat, nat>, ls: seq<seq<nat>>)
  {
    && holders.Keys == count.Keys && NULL !in count && ListsOk(ls, count.Keys)
    && forall b :: b in count ==> count[b] == holders[b] + Held(ls, b)
  }

  /** One LRU changes from was to now by a move to front: the counts follow. */
  lemma CountsMoved(count: map<nat, nat>, holders: map<nat, nat>, ls: seq<seq<nat>>, c: nat, now: seq<nat>, b: nat,
                    evictee: nat,
                    count': map<nat, nat>)
    requires CountsOk(count, holders, ls) && c < |ls| && b in count && MovedToFront(ls[c], now, b, evictee)
    requires count'.Keys == count.Keys
    requires forall x :: x in count ==> count'[x] + One(x == evictee) == count[x] + One(x == b && b !in ls[c])
    ensures CountsOk(count', holders, ls[c := now])
  {
    MovedMembers(ls[c], now, b, evictee);
    hide MovedToFront;
    var ls' := ls[c := now];
    assert Live(now, count.Keys) by { MovedLive(ls[c], now, b, evictee, count.Keys); }
    forall x | x in count
      ensures count'[x] == holders[x] + Held(ls', x)
    {
      HeldUpdate(ls, c, now, x);
    }
  }

  /** The same when the evictee's reference is kept for the caller: no count goes down for it. */
  lemma KeptEvictee(count: map<nat, nat>, holders: map<nat, nat>, ls: seq<seq<nat>>, c: nat, now: seq<nat>, b: nat,
                    evictee: nat,
                    count': map<nat, nat>)
    requires CountsOk(count, holders, ls) && c < |ls| && b in count && MovedToFront(ls[c], now, b, evictee)
    requires evictee != NULL ==> evictee in count && count[evictee] > 0 && evictee != b
    requires count' == count[b := count[b] + One(b !in ls[c])]
    ensures evictee == NULL ==> CountsOk(count', holders, ls[c := now])
    ensures evictee != NULL ==> evictee in holders && CountsOk(count', holders[evictee := holders[evictee] + 1],
      ls[c := now])
  {
    hide MovedToFront, Held;
    if evictee == NULL {
      CountsMoved(count, holders, ls, c, now, b, evictee, count');
    } else {
      var less := count'[evictee := count'[evictee] - 1];
      CountsMoved(count, holders, ls, c, now, b, evictee, less);
      CountsTaken(less, holders, ls[c := now], evictee);
      assert less[evictee := less[evictee] + 1] == count';
    }
  }

  lemma MovedLive(was: seq<nat>, now: seq<nat>, b: nat, evictee: nat, live: set<nat>)
    requires Live(was, live) && b in live && (forall x :: x != NULL && x != b && x != evictee ==>
      (x in now <==> x in was))
    requires evictee != NULL ==> evictee !in now
    ensures Live(now, live)
  {
    forall i | 0 <= i < |now| && now[i] != NULL
      ensures now[i] in live
    {
      if now[i] != b {
        assert now[i] in was;
      }
    }
  }

  // ---- buffers, pages and the slow lookup

  datatype Bh = Bh(dev: nat, block: nat, size: nat, dirty: bool, locked: bool)

  datatype Key = Key(dev: nat, index: nat)

  /** The page of a block, by the number of blocks of the device on a page. */
  function PageOf(perPage: nat -> nat, dev: nat, block: nat): Key
  {
    Key(dev, if perPage(dev) == 0 then 0 else block / perPage(dev))
  }

  /** The first buffer of a page with a block number. */
  function FindBlock(bhs: map<nat, Bh>, page: seq<nat>, block: nat): nat
  {
    if page == [] then NULL
    else if page[0] in bhs && bhs[page[0]].block == block then page[0] else FindBlock(bhs, page[1..], block)
  }

  /** __find_get_block_slow, as a function of the page cache. */
  function Slow(bhs: map<nat, Bh>, pages: map<nat, seq<nat>>, cache: map<Key, nat>, key: Key, block: nat): nat
  {
    if key in cache && cache[key] in pages then FindBlock(bhs, pages[cache[key]], block) else NULL
  }

  /** The buffers of a page have different block numbers, and belong to the device unless they were discarded. */
  ghost predicate PageOk(bhs: map<nat, Bh>, page: seq<nat>)
  {
    && (forall i :: 0 <= i < |page| ==> page[i] in bhs && page[i] != NULL)
    && (forall i, j :: 0 <= i < j < |page| ==> bhs[page[i]].block != bhs[page[j]].block)
  }

  /** A buffer of a device is on the page the page cache has for its block. */
  ghost predicate Attached(perPage: nat -> nat, bhs: map<nat, Bh>, pages: map<nat, seq<nat>>, cache: map<Key, nat>)
  {
    && (forall p :: p in pages ==> PageOk(bhs, pages[p]))
    && (forall b :: b in bhs && bhs[b].dev != NULL ==> Homed(perPage, bhs[b], b, pages, cache))
    && (forall p, q, b :: p in pages && q in pages && b in pages[p] && b in pages[q] ==> p == q)
  }

  ghost predicate Homed(perPage: nat -> nat, bh: Bh, b: nat, pages: map<nat, seq<nat>>, cache: map<Key, nat>)
  {
    var key := PageOf(perPage, bh.dev, bh.block);
    key in cache && cache[key] in pages && b in pages[cache[key]]
  }

  lemma {:induction false} FindBlockUnique(bhs: map<nat, Bh>, page: seq<nat>, b: nat)
    requires PageOk(bhs, page) && b in page
    ensures FindBlock(bhs, page, bhs[b].block) == b
  {
    if page[0] != b {
      assert page == [page[0]] + page[1..];
      FindBlockUnique(bhs, page[1..], b);
    }
  }

  lemma {:induction false} FindBlockLive(bhs: map<nat, Bh>, page: seq<nat>, block: nat)
    requires PageOk(bhs, page)
    ensures FindBlock(bhs, page, block) != NULL ==>
      FindBlock(bhs, page, block) in page && FindBlock(bhs, page, block) in bhs
  {
    if page != [] && bhs[page[0]].block != block {
      FindBlockLive(bhs, page[1..], block);
    }
  }

  class BufferCache {
    const perPage: nat -> nat
    var lrus: seq<seq<nat>>
    var bhs: map<nat, Bh>
    var pages: map<nat, seq<nat>>
    var cache: map<Key, nat>
    var count: map<nat, nat>
    // What callers hold.
    var holders: map<nat, nat>
    var warned: bool

    ghost predicate Valid()
      reads this
    {
      CountsOk(count, holders, lrus) && bhs.Keys == count.Keys && Attached(perPage, bhs, pages, cache) && !warned
    }

    /** Empty LRUs and no buffers. */
    constructor (cpus: nat, blocksPerPage: nat -> nat)
      ensures Valid() && |lrus| == cpus && perPage == blocksPerPage && bhs == map[] && pages == map[] && cache == map[]
    {
      perPage := blocksPerPage;
      lrus := seq(cpus, c => [NULL, NULL, NULL, NULL, NULL, NULL, NULL, NULL]);
      bhs, pages, cache, count, holders, warned := map[], map[], map[], map[], map[], false;
    }

    /** __brelse. */
    method Brelse(b: nat)
      requires b in count && count[b] > 0 && !warned
      modifies `count, `warned
      ensures count == old(count)[b := old(count[b]) - 1] && !warned
    {
      warned := warned || count[b] == 0;
      count := count[b := if count[b] == 0 then 0 else count[b] - 1];
    }

    method GetBh(b: nat)
      requires b in count
      modifies `count
      ensures count == old(count)[b := old(count[b]) + 1]
    {
      count := count[b := count[b] + 1];
    }

    /** A caller lets go of a buffer. */
    method Release(b: nat)
      requires Valid() && b in holders && holders[b] > 0
      modifies `count, `holders, `warned
      ensures Valid() && holders == old(holders)[b := old(holders[b]) - 1]
    {
      CountsReleased(count, holders, lrus, b);
      hide Attached, CountsOk;
      Brelse(b);
      holders := holders[b := holders[b] - 1];
      assert count.Keys == old(count).Keys;
    }

    /**
      bh_lru_install under its lock. What falls off the end keeps the reference the LRU had, which is
      the caller's to release once the lock is gone.
    */
    method Install(cpu: nat, b: nat) returns (evictee: nat)
      requires Valid() && cpu < |lrus| && b in count
      modifies `lrus, `count, `holders, `warned
      ensures Valid() && |lrus| == old(|lrus|) && lrus == old(lrus)[cpu := lrus[cpu]]
      ensures old(lrus)[cpu][0] != b ==> MovedToFront(old(lrus)[cpu], lrus[cpu], b, evictee)
      ensures old(lrus)[cpu][0] == b ==> lrus == old(lrus) && count == old(count) && evictee == NULL
      ensures |lrus[cpu]| > 0 && lrus[cpu][0] == b
      ensures evictee == NULL ==> holders == old(holders)
      ensures evictee != NULL ==>
        evictee in old(holders) && holders == old(holders)[evictee := old(holders)[evictee] + 1]
    {
      var l := lrus[cpu];
      var lru := new nat[BH_LRU_SIZE](i requires 0 <= i < BH_LRU_SIZE && |l| == BH_LRU_SIZE => l[i]);
      assert lru[..] == l;
      var changed, dropped;
      changed, dropped, evictee := InstallList(lru, b);
      hide Attached, Held, CountsOk, MovedToFront;
      if changed {
        Swap(cpu, lru[..], b, dropped, evictee);
      } else {
        assert lrus == lrus[cpu := lrus[cpu]];
      }
    }

    /**
      The references that change hands in bh_lru_install: one for the new place, one from the old place,
      and the evictee's.
    */
    method Swap(cpu: nat, now: seq<nat>, b: nat, dropped: bool, evictee: nat)
      requires CountsOk(count, holders, lrus) && !warned && cpu < |lrus| && b in count
      requires MovedToFront(lrus[cpu], now, b, evictee) && (dropped <==> b in lrus[cpu])
      modifies `lrus, `count, `holders, `warned
      ensures CountsOk(count, holders, lrus) && !warned && count.Keys == old(count).Keys &&
        lrus == old(lrus)[cpu := now]
      ensures evictee == NULL ==> holders == old(holders)
      ensures evictee != NULL ==>
        evictee in old(holders) && holders == old(holders)[evictee := old(holders)[evictee] + 1]
    {
      hide Held, CountsOk, MovedToFront;
      ghost var c0 := count;
      MovedCounted(count, holders, lrus, cpu, now, b, evictee);
      GetBh(b);
      if dropped {
        Brelse(b);
      }
      assert count == c0[b := c0[b] + One(!dropped)];
      KeptEvictee(c0, holders, lrus, cpu, now, b, evictee, count);
      lrus := lrus[cpu := now];
      if evictee != NULL {
        holders := holders[evictee := holders[evictee] + 1];
      }
    }

    /** lookup_bh_lru: a hit is counted for the caller and moves to the front. */
    method LookupLru(cpu: nat, dev: nat, block: nat, size: nat) returns (b: nat)
      requires Valid() && cpu < |lrus| && dev != NULL
      modifies `lrus, `count, `holders
      ensures Valid() && |lrus| == old(|lrus|) && lrus == old(lrus)[cpu := lrus[cpu]]
      ensures b == NULL ==> lrus == old(lrus) && count == old(count) && holders == old(holders)
      ensures b == NULL ==> forall x :: x in lrus[cpu] && x in bhs ==>
        bhs[x].dev != dev || bhs[x].block != block || bhs[x].size != size
      ensures b != NULL ==> b in bhs && bhs[b].dev == dev && bhs[b].block == block
      ensures b != NULL ==> b == Slow(bhs, pages, cache, PageOf(perPage, dev, block), block)
      ensures b != NULL ==>
        b in bhs && bhs[b].size == size && b in old(holders) && holders == old(holders)[b := old(holders)[b] + 1]
      ensures b != NULL ==> b in old(lrus)[cpu] && MovedToFront(old(lrus)[cpu], lrus[cpu], b, NULL)
    {
      hide Held, Attached, CountsOk, Slow, MovedToFront;
      var now;
      b, now := Search(cpu, dev, block, size);
      if b != NULL {
        SlowAgrees(b);
        Refresh(cpu, b, now);
        Take(b);
      } else {
        assert lrus == lrus[cpu := lrus[cpu]];
      }
    }

    /** The loop of lookup_bh_lru. */
    method Search(cpu: nat, dev: nat, block: nat, size: nat) returns (b: nat, now: seq<nat>)
      requires Valid() && cpu < |lrus| && dev != NULL
      ensures b != NULL ==> b in lrus[cpu] && MovedToFront(lrus[cpu], now, b, NULL)
      ensures b != NULL ==> b in bhs && bhs[b].dev == dev && bhs[b].block == block && bhs[b].size == size
      ensures b == NULL ==> forall x :: x in lrus[cpu] && x in bhs ==>
        bhs[x].dev != dev || bhs[x].block != block || bhs[x].size != size
    {
      var l, all := lrus[cpu], bhs;
      var lru := new nat[BH_LRU_SIZE](i requires 0 <= i < BH_LRU_SIZE && |l| == BH_LRU_SIZE => l[i]);
      assert lru[..] == l;
      hide Held, Attached, CountsOk, MovedToFront;
      b := LookupList(lru, x => x in all && all[x].dev == dev && all[x].block == block && all[x].size == size);
      now := lru[..];
    }

    /** A hit moves to the front; no count changes for that. */
    method Refresh(cpu: nat, b: nat, now: seq<nat>)
      requires CountsOk(count, holders, lrus) && cpu < |lrus| && b in lrus[cpu] && b != NULL &&
        MovedToFront(lrus[cpu], now, b, NULL)
      modifies `lrus
      ensures CountsOk(count, holders, lrus) && lrus == old(lrus)[cpu := now] && b in count
    {
      ghost var i :| 0 <= i < |lrus[cpu]| && lrus[cpu][i] == b;
      assert Live(lrus[cpu], count.Keys);
      hide Held, MovedToFront;
      CountsMoved(count, holders, lrus, cpu, now, b, NULL, count);
      lrus := lrus[cpu := now];
    }

    /** A buffer of a device is the one the slow lookup finds for its block. */
    lemma SlowAgrees(b: nat)
      requires Attached(perPage, bhs, pages, cache) && b in bhs && bhs[b].dev != NULL
      ensures b == Slow(bhs, pages, cache, PageOf(perPage, bhs[b].dev, bhs[b].block), bhs[b].block)
    {
      assert Homed(perPage, bhs[b], b, pages, cache);
      FindBlockUnique(bhs, pages[cache[PageOf(perPage, bhs[b].dev, bhs[b].block)]], b);
    }

    /** A caller gets a reference. */
    method Take(b: nat)
      requires CountsOk(count, holders, lrus) && b in count
      modifies `count, `holders
      ensures CountsOk(count, holders, lrus) && b in old(holders) &&
        holders == old(holders)[b := old(holders)[b] + 1] && count.Keys == old(count).Keys
    {
      CountsTaken(count, holders, lrus, b);
      hide CountsOk;
      GetBh(b);
      holders := holders[b := holders[b] + 1];
      assert count.Keys == old(count).Keys;
    }

    /**
      The walk of __find_get_block_slow over the buffers of a page found earlier. While the page is
      still the one the page cache has, it gives the slow lookup's buffer.
    */
    method WalkPage(p: nat, block: nat) returns (b: nat)
      requires Valid() && p in pages
      modifies `count, `holders
      ensures Valid() && b == FindBlock(bhs, pages[p], block)
      ensures forall key :: key in cache && cache[key] == p ==> b == Slow(bhs, pages, cache, key, block)
      ensures b == NULL ==> count == old(count) && holders == old(holders)
      ensures b != NULL ==>
        b in pages[p] && b in count && b in old(holders) && holders == old(holders)[b := old(holders)[b] + 1]
    {
      assert PageOk(bhs, pages[p]);
      FindBlockLive(bhs, pages[p], block);
      hide Held, CountsOk, Attached, FindBlock;
      b := FindBlock(bhs, pages[p], block);
      if b != NULL {
        Take(b);
      }
    }

    /** __find_get_block: with or without the LRU, the caller gets what the slow lookup would give. */
    method FindGetBlock(cpu: nat, dev: nat, block: nat, size: nat) returns (b: nat)
      requires Valid() && cpu < |lrus| && dev != NULL
      modifies this
      ensures Valid() && bhs == old(bhs) && |lrus| == old(|lrus|)
      ensures b == Slow(bhs, pages, cache, PageOf(perPage, dev, block), block)
      ensures b == NULL ==> holders == old(holders)
      ensures b != NULL ==> b in old(holders) && holders == old(holders)[b := old(holders)[b] + 1]
    {
      hide Held, CountsOk, Attached;
      b := LookupLru(cpu, dev, block, size);
      if b == NULL {
        var key := PageOf(perPage, dev, block);
        if key in cache && cache[key] in pages {
          b := WalkPage(cache[key], block);
          if b != NULL {
            var evictee := Install(cpu, b);
            if evictee != NULL {
              Release(evictee);
            }
          }
        }
      }
    }

    /** invalidate_bh_lru: every place is emptied and its reference released. */
    method Invalidate(cpu: nat)
      requires Valid() && cpu < |lrus|
      modifies `lrus, `count, `warned
      ensures Valid() && |lrus| == old(|lrus|) && lrus == old(lrus)[cpu := lrus[cpu]]
      ensures forall i :: 0 <= i < |lrus[cpu]| ==> lrus[cpu][i] == NULL
    {
      hide Attached, Held;
      for i := 0 to BH_LRU_SIZE
        invariant Valid() && |lrus| == old(|lrus|) && lrus == old(lrus)[cpu := lrus[cpu]]
        invariant forall j :: 0 <= j < i ==> lrus[cpu][j] == NULL
      {
        var b := lrus[cpu][i];
        if b != NULL {
          CountsEmptied(count, holders, lrus, cpu, i);
          Brelse(b);
          lrus := lrus[cpu := Emptied(lrus[cpu], i)];
        }
      }
    }

    /** discard_buffer: the buffer belongs to no device any more, so no lookup by device matches it. */
    method Discard(b: nat)
      requires Valid() && b in bhs
      modifies `bhs
      ensures Valid() && bhs == old(bhs)[b := old(bhs)[b].(dev := NULL, dirty := false)]
    {
      bhs := bhs[b := bhs[b].(dev := NULL, dirty := false)];
      assert bhs.Keys == old(bhs).Keys;
    }

    /** Someone dirties, cleans, locks or unlocks a buffer. */
    method Touch(b: nat, dirty: bool, locked: bool)
      requires Valid() && b in bhs
      modifies `bhs
      ensures Valid() && bhs == old(bhs)[b := old(bhs)[b].(dirty := dirty, locked := locked)]
    {
      bhs := bhs[b := bhs[b].(dirty := dirty, locked := locked)];
      assert bhs.Keys == old(bhs).Keys;
    }

    /** buffer_busy. */
    predicate Busy(b: nat)
      requires b in count && b in bhs
      reads this
    {
      count[b] != 0 || bhs[b].dirty || bhs[b].locked
    }

    /** drop_buffers: all the buffers of a page go, or none; none that goes is in an LRU or in use. */
    method DropBuffers(p: nat) returns (ok: bool)
      requires Valid() && p in pages
      modifies `bhs, `count, `holders, `pages
      ensures Valid()
      ensures ok <==> forall i :: 0 <= i < |old(pages)[p]| ==> !old(Busy(pages[p][i]))
      ensures !ok ==> bhs == old(bhs) && pages == old(pages)
      ensures ok ==> pages == old(pages)[p := []] && bhs == old(bhs) - (set b | b in old(pages)[p])
      ensures ok ==> forall c, b :: 0 <= c < |lrus| && b in old(pages)[p] ==> b !in lrus[c]
    {
      hide Held;
      assert PageOk(bhs, pages[p]);
      var page := pages[p];
      for i := 0 to |page|
        invariant forall j :: 0 <= j < i ==> !Busy(page[j])
      {
        if Busy(page[i]) {
          return false;
        }
      }
      var gone := set b | b in page;
      NotHeld(count, holders, lrus, gone);
      CountsWithout(count, holders, lrus, gone);
      AttachedWithout(perPage, bhs, pages, cache, p, gone);
      hide Attached, CountsOk;
      bhs, count, holders := bhs - gone, count - gone, holders - gone;
      pages := pages[p := []];
      return true;
    }

    /** A buffer may be made for a block of a cached page that has no buffer for it yet. */
    predicate MayAttach(key: Key, b: nat, block: nat)
      reads this
    {
      && key.dev != NULL && b != NULL && b !in bhs && PageOf(perPage, key.dev, block) == key
      && key in cache && cache[key] in pages
      && forall x :: x in pages[cache[key]] && x in bhs ==> bhs[x].block != block
    }

    /** A page may go when all its buffers have been discarded. */
    predicate MayRemove(key: Key)
      reads this
    {
      key in cache && cache[key] in pages && forall b :: b in pages[cache[key]] ==> b in bhs && bhs[b].dev == NULL
    }

    /** A page of the page cache gets one more buffer, for a block of its own that no buffer has yet. */
    method AttachBuffer(key: Key, p: nat, b: nat, block: nat, size: nat)
      requires Valid() && MayAttach(key, b, block) && cache[key] == p
      modifies `bhs, `count, `holders, `pages
      ensures Valid() && pages == old(pages)[p := old(pages)[p] + [b]]
      ensures bhs == old(bhs)[b := Bh(key.dev, block, size, false, false)] && b in holders && holders[b] == 0
    {
      hide Held, Attached, CountsOk;
      var bh := Bh(key.dev, block, size, false, false);
      CountsWith(count, holders, lrus, b);
      AttachedWith(perPage, bhs, pages, cache, p, b, bh);
      bhs, count, holders := bhs[b := bh], count[b := 0], holders[b := 0];
      pages := pages[p := pages[p] + [b]];
    }

    /** A buffer of a cached page without a device may be given a block that no other buffer of the page has. */
    predicate MayRevive(key: Key, b: nat, block: nat)
      reads this
    {
      && key.dev != NULL && b in bhs && bhs[b].dev == NULL && PageOf(perPage, key.dev, block) == key
      && key in cache && cache[key] in pages && b in pages[cache[key]]
      && forall x :: x in pages[cache[key]] && x in bhs && x != b ==> bhs[x].block != block
    }

    /** init_page_buffers, for one buffer: without a device, it gets one, and its block. */
    method Revive(key: Key, b: nat, block: nat)
      requires Valid() && MayRevive(key, b, block)
      modifies `bhs
      ensures Valid() && bhs == old(bhs)[b := Bh(key.dev, block, old(bhs)[b].size, false, false)]
    {
      var bh := Bh(key.dev, block, bhs[b].size, false, false);
      AttachedAgain(perPage, bhs, pages, cache, b, bh);
      hide Attached, CountsOk;
      bhs := bhs[b := bh];
      assert bhs.Keys == old(bhs).Keys;
    }

    /** A page without buffers enters the page cache. */
    method AddPage(key: Key, p: nat)
      requires Valid() && key !in cache && p !in pages
      modifies `pages, `cache
      ensures Valid() && pages == old(pages)[p := []] && cache == old(cache)[key := p]
    {
      ghost var pages0, cache0 := pages, cache;
      pages, cache := pages[p := []], cache[key := p];
      forall b | b in bhs && bhs[b].dev != NULL
        ensures Homed(perPage, bhs[b], b, pages, cache)
      {
        assert Homed(perPage, bhs[b], b, pages0, cache0);
      }
    }

    /** A page whose buffers have all been discarded leaves the page cache. */
    method RemovePage(key: Key)
      requires Valid() && MayRemove(key)
      modifies `cache
      ensures Valid() && cache == old(cache) - {key}
    {
      cache := cache - {key};
      forall b | b in bhs && bhs[b].dev != NULL
        ensures Homed(perPage, bhs[b], b, pages, cache)
      {
        assert Homed(perPage, bhs[b], b, pages, old(cache));
      }
    }

    lemma MovedCounted(count: map<nat, nat>, holders: map<nat, nat>, ls: seq<seq<nat>>, c: nat, now: seq<nat>, b: nat,
                       evictee: nat)
      requires CountsOk(count, holders, ls) && c < |ls| && b in count && MovedToFront(ls[c], now, b, evictee)
      ensures evictee != NULL ==> evictee in count && count[evictee] > 0 && evictee != b
    {
      MovedMembers(ls[c], now, b, evictee);
      if evictee != NULL {
        var i :| 0 <= i < |ls[c]| && ls[c][i] == evictee;
        HeldSome(ls, c, evictee);
      }
    }
  }

  function Emptied(l: seq<nat>, i: nat): seq<nat>
    requires i < |l|
  {
    l[i := NULL]
  }

  lemma CountsEmptied(count: map<nat, nat>, holders: map<nat, nat>, ls: seq<seq<nat>>, c: nat, i: nat)
    requires CountsOk(count, holders, ls) && c < |ls| && i < |ls[c]| && ls[c][i] != NULL
    ensures ls[c][i] in count && count[ls[c][i]] > 0
    ensures CountsOk(count[ls[c][i] := count[ls[c][i]] - 1], holders, ls[c := Emptied(ls[c], i)])
  {
    var b, now := ls[c][i], Emptied(ls[c], i);
    assert Live(ls[c], count.Keys);
    HeldSome(ls, c, b);
    assert b !in now;
    forall x | x in count
      ensures Held(ls[c := now], x) == Held(ls, x) - One(x == b)
    {
      HeldUpdate(ls, c, now, x);
      if x != b && x in ls[c] {
        var j :| 0 <= j < |ls[c]| && ls[c][j] == x;
        assert now[j] == x;
      }
      assert x in now ==> x in ls[c];
    }
    assert Once(now) && Live(now, count.Keys);
    assert count[b := count[b] - 1].Keys == count.Keys;
  }

  lemma CountsReleased(count: map<nat, nat>, holders: map<nat, nat>, ls: seq<seq<nat>>, b: nat)
    requires CountsOk(count, holders, ls) && b in holders && holders[b] > 0
    ensures b in count && count[b] > 0 && CountsOk(count[b := count[b] - 1], holders[b := holders[b] - 1], ls)
  {
    hide ListsOk, Held;
    assert count[b := count[b] - 1].Keys == count.Keys;
  }

  lemma CountsTaken(count: map<nat, nat>, holders: map<nat, nat>, ls: seq<seq<nat>>, b: nat)
    requires CountsOk(count, holders, ls) && b in count
    ensures b in holders && CountsOk(count[b := count[b] + 1], holders[b := holders[b] + 1], ls)
  {
    hide ListsOk, Held;
    assert count[b := count[b] + 1].Keys == count.Keys;
  }

  lemma NotHeld(count: map<nat, nat>, holders: map<nat, nat>, ls: seq<seq<nat>>, gone: set<nat>)
    requires CountsOk(count, holders, ls) && forall b :: b in gone ==> b in count && count[b] == 0
    ensures forall c, b :: 0 <= c < |ls| && b in gone ==> b !in ls[c]
  {
    forall c, b | 0 <= c < |ls| && b in gone
      ensures b !in ls[c]
    {
      if b in ls[c] {
        HeldSome(ls, c, b);
      }
    }
  }

  lemma CountsWithout(count: map<nat, nat>, holders: map<nat, nat>, ls: seq<seq<nat>>, gone: set<nat>)
    requires CountsOk(count, holders, ls) && forall c, b :: 0 <= c < |ls| && b in gone ==> b !in ls[c]
    ensures CountsOk(count - gone, holders - gone, ls)
  {
    forall c | 0 <= c < |ls|
      ensures Live(ls[c], (count - gone).Keys)
    {
      assert Live(ls[c], count.Keys);
    }
  }

  lemma CountsWith(count: map<nat, nat>, holders: map<nat, nat>, ls: seq<seq<nat>>, b: nat)
    requires CountsOk(count, holders, ls) && b !in count && b != NULL
    ensures CountsOk(count[b := 0], holders[b := 0], ls)
  {
    forall c | 0 <= c < |ls|
      ensures Live(ls[c], count[b := 0].Keys)
    {
      assert Live(ls[c], count.Keys);
    }
    HeldNone(ls, count.Keys, b);
  }

  lemma {:induction false} HeldNone(ls: seq<seq<nat>>, live: set<nat>, b: nat)
    requires b !in live && b != NULL && forall c :: 0 <= c < |ls| ==> Live(ls[c], live)
    ensures Held(ls, b) == 0
  {
    if ls != [] {
      assert Live(ls[0], live);
      assert b !in ls[0];
      forall c | 0 <= c < |ls[1..]|
        ensures Live(ls[1..][c], live)
      {
        assert ls[1..][c] == ls[c + 1];
      }
      HeldNone(ls[1..], live, b);
    }
  }

  lemma AttachedWithout(perPage: nat -> nat, bhs: map<nat, Bh>, pages: map<nat, seq<nat>>, cache: map<Key, nat>,
                        p: nat, gone: set<nat>)
    requires Attached(perPage, bhs, pages, cache) && p in pages && (forall b :: b in gone <==> b in pages[p])
    ensures Attached(perPage, bhs - gone, pages[p := []], cache)
  {
    var bhs', pages' := bhs - gone, pages[p := []];
    forall q | q in pages'
      ensures PageOk(bhs', pages'[q])
    {
      if q != p {
        assert PageOk(bhs, pages[q]);
        assert forall i :: 0 <= i < |pages[q]| ==> pages[q][i] !in gone;
      }
    }
    forall b | b in bhs' && bhs'[b].dev != NULL
      ensures Homed(perPage, bhs'[b], b, pages', cache)
    {
      assert Homed(perPage, bhs[b], b, pages, cache);
    }
  }

  lemma AttachedWith(perPage: nat -> nat, bhs: map<nat, Bh>, pages: map<nat, seq<nat>>, cache: map<Key, nat>, p: nat,
                     b: nat, bh: Bh)
    requires Attached(perPage, bhs, pages, cache) && p in pages && b !in bhs && b != NULL
    requires PageOf(perPage, bh.dev, bh.block) in cache && cache[PageOf(perPage, bh.dev, bh.block)] == p
    requires forall x :: x in pages[p] && x in bhs ==> bhs[x].block != bh.block
    ensures Attached(perPage, bhs[b := bh], pages[p := pages[p] + [b]], cache)
  {
    var bhs', pages' := bhs[b := bh], pages[p := pages[p] + [b]];
    forall q | q in pages'
      ensures PageOk(bhs', pages'[q])
    {
      assert PageOk(bhs, pages[q]);
    }
    forall x | x in bhs' && bhs'[x].dev != NULL
      ensures Homed(perPage, bhs'[x], x, pages', cache)
    {
      if x != b {
        assert Homed(perPage, bhs[x], x, pages, cache);
      }
    }
    forall q, r, x | q in pages' && r in pages' && x in pages'[q] && x in pages'[r]
      ensures q == r
    {
      assert PageOk(bhs, pages[q]) && PageOk(bhs, pages[r]);
    }
  }

  lemma AttachedAgain(perPage: nat -> nat, bhs: map<nat, Bh>, pages: map<nat, seq<nat>>, cache: map<Key, nat>, b: nat,
                      bh: Bh)
    requires Attached(perPage, bhs, pages, cache) && b in bhs && Homed(perPage, bh, b, pages, cache)
    requires forall x :: x in pages[cache[PageOf(perPage, bh.dev, bh.block)]] && x in bhs && x != b ==>
      bhs[x].block != bh.block
    ensures Attached(perPage, bhs[b := bh], pages, cache)
  {
    var bhs', p := bhs[b := bh], cache[PageOf(perPage, bh.dev, bh.block)];
    forall q | q in pages
      ensures PageOk(bhs', pages[q])
    {
      assert PageOk(bhs, pages[q]);
      assert b in pages[q] ==> q == p;
    }
    forall x | x in bhs' && bhs'[x].dev != NULL
      ensures Homed(perPage, bhs'[x], x, pages, cache)
    {
      if x != b {
        assert Homed(perPage, bhs[x], x, pages, cache);
      }
    }
  }

  // ---- runs

  /**
    What runs in one piece; __find_get_block is a lookup, then the walk of a page, then an install, with
    others in between.
  */
  datatype Op =
    | LookupLru(cpu: nat, dev: nat, block: nat, size: nat) | WalkPage(page: nat, block: nat) | Install(cpu: nat, b: nat)
    | Release(b: nat) | Invalidate(cpu: nat) | Discard(b: nat) | Touch(b: nat, dirty: bool, locked: bool)
    | Drop(page: nat)
    | AddPage(key: Key, page: nat) | AttachBuffer(key: Key, b: nat, block: nat, size: nat)
    | Revive(key: Key, b: nat, block: nat)
    | RemovePage(key: Key)

  predicate OnLists(op: Op)
  {
    op.LookupLru? || op.WalkPage? || op.Install? || op.Release? || op.Invalidate?
  }

  /** An operation on the LRUs or the holders. */
  method StepLists(bc: BufferCache, op: Op)
    requires bc.Valid() && OnLists(op)
    modifies bc
    ensures bc.Valid() && |bc.lrus| == old(|bc.lrus|)
    ensures op.LookupLru? && op.cpu < |bc.lrus| && op.dev != NULL ==>
      (forall x :: x in old(bc.lrus)[op.cpu] && x in bc.bhs ==>
         bc.bhs[x].dev != op.dev || bc.bhs[x].block != op.block || bc.bhs[x].size != op.size)
      || exists b :: b in old(bc.holders) && bc.holders == old(bc.holders)[b := old(bc.holders)[b] + 1]
    ensures op.WalkPage? && op.page in old(bc.pages) ==>
      var b := FindBlock(bc.bhs, old(bc.pages)[op.page], op.block);
      b != NULL ==> b in old(bc.holders) && bc.holders == old(bc.holders)[b := old(bc.holders)[b] + 1]
    ensures op.Install? && op.cpu < |bc.lrus| && op.b in old(bc.count) && op.b in old(bc.holders) ==>
      old(bc.holders)[op.b] > 0 ==> |bc.lrus[op.cpu]| > 0 && bc.lrus[op.cpu][0] == op.b
    ensures op.Release? && op.b in old(bc.holders) && old(bc.holders)[op.b] > 0 ==>
      bc.holders == old(bc.holders)[op.b := old(bc.holders)[op.b] - 1]
    ensures op.Invalidate? && op.cpu < |bc.lrus| ==> forall b :: b in bc.lrus[op.cpu] ==> b == NULL
  {
    hide BufferCache.Valid, FindBlock, Slow, MovedToFront;
    ListsThere(bc);
    match op
    case LookupLru(cpu, dev, block, size) =>
      if cpu < |bc.lrus| && dev != NULL { var b := bc.LookupLru(cpu, dev, block, size); }
    case WalkPage(page, block) =>
      if page in bc.pages { var b := bc.WalkPage(page, block); }
    case Install(cpu, b) =>
      if cpu < |bc.lrus| && b in bc.count && b in bc.holders && bc.holders[b] > 0 { var evictee := bc.Install(cpu, b); }
    case Release(b) =>
      if b in bc.holders && bc.holders[b] > 0 { bc.Release(b); }
    case Invalidate(cpu) =>
      if cpu < |bc.lrus| { bc.Invalidate(cpu); }
  }

  /** An operation on pages and buffers. */
  method StepBuffers(bc: BufferCache, op: Op)
    requires bc.Valid() && !OnLists(op)
    modifies bc
    ensures bc.Valid() && |bc.lrus| == old(|bc.lrus|)
    ensures op.Discard? && op.b in old(bc.bhs) ==>
      bc.bhs == old(bc.bhs)[op.b := old(bc.bhs)[op.b].(dev := NULL, dirty := false)]
    ensures op.Touch? && op.b in old(bc.bhs) ==>
      bc.bhs == old(bc.bhs)[op.b := old(bc.bhs)[op.b].(dirty := op.dirty, locked := op.locked)]
    ensures op.Drop? && op.page in old(bc.pages) ==>
      bc.pages == old(bc.pages) || bc.pages == old(bc.pages)[op.page := []]
    ensures op.AddPage? && op.key !in old(bc.cache) && op.page !in old(bc.pages) ==>
      bc.cache == old(bc.cache)[op.key := op.page] && bc.pages == old(bc.pages)[op.page := []]
    ensures op.AttachBuffer? && old(bc.MayAttach(op.key, op.b, op.block)) ==> op.b in bc.bhs
    ensures op.Revive? && old(bc.MayRevive(op.key, op.b, op.block)) ==> op.b in bc.bhs && bc.bhs[op.b].dev == op.key.dev
    ensures op.RemovePage? && old(bc.MayRemove(op.key)) ==> op.key !in bc.cache
  {
    hide BufferCache.Valid;
    match op
    case Discard(b) =>
      if b in bc.bhs { bc.Discard(b); }
    case Touch(b, dirty, locked) =>
      if b in bc.bhs { bc.Touch(b, dirty, locked); }
    case Drop(page) =>
      if page in bc.pages { var ok := bc.DropBuffers(page); }
    case AddPage(key, page) =>
      if key !in bc.cache && page !in bc.pages { bc.AddPage(key, page); }
    case AttachBuffer(key, b, block, size) =>
      if bc.MayAttach(key, b, block) { bc.AttachBuffer(key, bc.cache[key], b, block, size); }
    case Revive(key, b, block) =>
      if bc.MayRevive(key, b, block) { bc.Revive(key, b, block); }
    case RemovePage(key) =>
      if bc.MayRemove(key) { bc.RemovePage(key); }
  }

  lemma ListsThere(bc: BufferCache)
    requires bc.Valid()
    ensures bc.holders.Keys == bc.count.Keys == bc.bhs.Keys && forall c :: 0 <= c < |bc.lrus| ==>
      |bc.lrus[c]| == BH_LRU_SIZE
  {
  }

  /** One operation, if some caller is in a position to do it. */
  method Step(bc: BufferCache, op: Op)
    requires bc.Valid()
    modifies bc
    ensures bc.Valid() && |bc.lrus| == old(|bc.lrus|)
    ensures op.LookupLru? && op.cpu < |bc.lrus| && op.dev != NULL ==>
      (forall x :: x in old(bc.lrus)[op.cpu] && x in bc.bhs ==>
         bc.bhs[x].dev != op.dev || bc.bhs[x].block != op.block || bc.bhs[x].size != op.size)
      || exists b :: b in old(bc.holders) && bc.holders == old(bc.holders)[b := old(bc.holders)[b] + 1]
    ensures op.WalkPage? && op.page in old(bc.pages) ==>
      var b := FindBlock(bc.bhs, old(bc.pages)[op.page], op.block);
      b != NULL ==> b in old(bc.holders) && bc.holders == old(bc.holders)[b := old(bc.holders)[b] + 1]
    ensures op.Install? && op.cpu < |bc.lrus| && op.b in old(bc.count) && op.b in old(bc.holders) ==>
      old(bc.holders)[op.b] > 0 ==> |bc.lrus[op.cpu]| > 0 && bc.lrus[op.cpu][0] == op.b
    ensures op.Release? && op.b in old(bc.holders) && old(bc.holders)[op.b] > 0 ==>
      bc.holders == old(bc.holders)[op.b := old(bc.holders)[op.b] - 1]
    ensures op.Invalidate? && op.cpu < |bc.lrus| ==> forall b :: b in bc.lrus[op.cpu] ==> b == NULL
    ensures op.Discard? && op.b in old(bc.bhs) ==>
      bc.bhs == old(bc.bhs)[op.b := old(bc.bhs)[op.b].(dev := NULL, dirty := false)]
    ensures op.Touch? && op.b in old(bc.bhs) ==>
      bc.bhs == old(bc.bhs)[op.b := old(bc.bhs)[op.b].(dirty := op.dirty, locked := op.locked)]
    ensures op.Drop? && op.page in old(bc.pages) ==>
      bc.pages == old(bc.pages) || bc.pages == old(bc.pages)[op.page := []]
    ensures op.AddPage? && op.key !in old(bc.cache) && op.page !in old(bc.pages) ==>
      bc.cache == old(bc.cache)[op.key := op.page] && bc.pages == old(bc.pages)[op.page := []]
    ensures op.AttachBuffer? && old(bc.MayAttach(op.key, op.b, op.block)) ==> op.b in bc.bhs
    ensures op.Revive? && old(bc.MayRevive(op.key, op.b, op.block)) ==> op.b in bc.bhs && bc.bhs[op.b].dev == op.key.dev
    ensures op.RemovePage? && old(bc.MayRemove(op.key)) ==> op.key !in bc.cache
  {
    hide BufferCache.Valid, FindBlock;
    ListsThere(bc);
    if OnLists(op) {
      StepLists(bc, op);
    } else {
      StepBuffers(bc, op);
    }
  }

  /**
    Every reachable state: from no pages and no buffers, any operations by any callers on any CPUs.
    Each LRU holds a buffer at most once and only buffers that exist, each count is what callers hold
    and one for each LRU, no release finds a count of zero, and a buffer of a device is the one the
    slow lookup finds.
  */
  method Run(cpus: nat, blocksPerPage: nat -> nat, ops: seq<Op>) returns (bc: BufferCache)
    ensures bc.Valid() && !bc.warned && |bc.lrus| == cpus
    ensures forall c :: 0 <= c < cpus ==> Once(bc.lrus[c]) && Live(bc.lrus[c], bc.bhs.Keys)
    ensures forall b :: b in bc.bhs ==>
      b in bc.count && b in bc.holders && bc.count[b] == bc.holders[b] + Held(bc.lrus, b)
    ensures forall b :: b in bc.bhs && bc.bhs[b].dev != NULL ==>
      b == Slow(bc.bhs, bc.pages, bc.cache, PageOf(bc.perPage, bc.bhs[b].dev, bc.bhs[b].block), bc.bhs[b].block)
    ensures |ops| == 1 && ops[0].AddPage? ==> bc.cache == map[ops[0].key := ops[0].page]
  {
    bc := new BufferCache(cpus, blocksPerPage);
    for n := 0 to |ops|
      invariant fresh(bc) && bc.Valid() && |bc.lrus| == cpus && (n == 0 ==> bc.cache == map[] && bc.pages == map[])
      invariant n == 1 && ops[0].AddPage? ==> bc.cache == map[ops[0].key := ops[0].page]
    {
      Step(bc, ops[n]);
    }
    forall b | b in bc.bhs && bc.bhs[b].dev != NULL
      ensures b == Slow(bc.bhs, bc.pages, bc.cache, PageOf(bc.perPage, bc.bhs[b].dev, bc.bhs[b].block), bc.bhs[b].block)
    {
      bc.SlowAgrees(b);
    }
  }
}
