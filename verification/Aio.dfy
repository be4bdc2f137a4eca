/**
  The completion ring and the reference counts of fs/aio.c. A context is shared by submitters,
  completions, readers, deferred file puts and destroys; every method is one section that the
  kernel runs under the context lock, and sections of different tasks may come in any order.
*/
module Aio {

  const PAGE_SIZE := 4096
  const RING_HEADER := 32
  const EVENT_SIZE := 32

  datatype Event = Event(obj: nat, data: nat, res: int, res2: int)

  // ---- the ring

  /** The slots aio_setup_ring makes: whole pages that hold at least two more events than requests. */
  function RingSlots(maxReqs: nat): (nr: nat)
    ensures nr >= maxReqs + 2
  {
    var size := RING_HEADER + EVENT_SIZE * (maxReqs + 2);
    var pages := (size + PAGE_SIZE - 1) / PAGE_SIZE;
    (PAGE_SIZE * pages - RING_HEADER) / EVENT_SIZE
  }

  /**
    The ring fills whole pages of 128 places of 32 bytes, one of them for the header, and no page more
    than it takes.
  */
  lemma RingIsPages(maxReqs: nat)
    ensures (RingSlots(maxReqs) + 1) % 128 == 0 && RingSlots(maxReqs) - 128 < maxReqs + 2 <= RingSlots(maxReqs)
  {
    var size := 32 + 32 * (maxReqs + 2);
    var pages := (size + 4095) / 4096;
    assert RingSlots(maxReqs) == (4096 * pages - 32) / 32 == 128 * pages - 1;
  }

  /** aio_ring_avail. */
  function RingAvail(nr: nat, head: nat, tail: nat): nat
    requires head < nr && tail < nr
  {
    (head + nr - 1 - tail) % nr
  }

  /** The slot of event i: the ring starts again every nr events. */
  function Slot(i: nat, nr: nat): (s: nat)
    requires nr > 0
    ensures s < nr
  {
    if i < nr then i else Slot(i - nr, nr)
  }

  lemma {:induction false} SlotNext(i: nat, nr: nat)
    requires nr > 0
    ensures Slot(i + 1, nr) == (if Slot(i, nr) + 1 == nr then 0 else Slot(i, nr) + 1)
  {
    if i >= nr {
      SlotNext(i - nr, nr);
    }
  }

  lemma Wrap(x: nat, nr: nat)
    requires 0 < nr && x < 2 * nr
    ensures x % nr == if x < nr then x else x - nr
  {
    if x >= nr {
      assert x == nr * 1 + (x - nr);
    }
  }

  /** Positions less than a turn apart have different slots. */
  lemma {:induction false} SlotsApart(i: nat, j: nat, nr: nat)
    requires nr > 0 && i < j < i + nr
    ensures Slot(i, nr) != Slot(j, nr)
    ensures Slot(j, nr) == (if Slot(i, nr) + (j - i) < nr then Slot(i, nr) + (j - i) else Slot(i, nr) + (j - i) - nr)
    decreases j
  {
    hide Slot;
    SlotNext(j - 1, nr);
    if i + 1 < j {
      SlotsApart(i, j - 1, nr);
    }
  }

  /** The free slots are all but one of those that hold no unread event. */
  lemma {:induction false} AvailIsFree(nr: nat, read: nat, done: nat)
    requires nr > 0 && read <= done < read + nr
    ensures RingAvail(nr, Slot(read, nr), Slot(done, nr)) == nr - 1 - (done - read)
    ensures Slot(read, nr) == Slot(done, nr) <==> read == done
  {
    hide Slot;
    if read < done {
      SlotsApart(read, done, nr);
    }
    Wrap(Slot(read, nr) + nr - 1 - Slot(done, nr), nr);
  }

  /** Slot i of the ring holds event i for every event not read yet. */
  ghost predicate Holds(slots: seq<Event>, log: seq<Event>, read: nat)
  {
    && |slots| > 0 && read <= |log| < read + |slots|
    && forall i :: read <= i < |log| ==> slots[Slot(i, |slots|)] == log[i]
  }

  /** A completion goes to a slot that no unread event is in. */
  lemma CompleteKeeps(slots: seq<Event>, log: seq<Event>, read: nat, e: Event)
    requires Holds(slots, log, read) && |log| + 1 < read + |slots|
    ensures Holds(slots[Slot(|log|, |slots|) := e], log + [e], read)
  {
    hide Slot;
    var slots' := slots[Slot(|log|, |slots|) := e];
    forall i | read <= i < |log| + 1
      ensures slots'[Slot(i, |slots|)] == (log + [e])[i]
    {
      if i < |log| {
        SlotsApart(i, |log|, |slots|);
      }
    }
  }

  // ---- a context

  function One(b: bool): nat
  {
    if b then 1 else 0
  }

  lemma SubsetSize<T>(a: set<T>, b: set<T>)
    requires a <= b
    ensures |a| <= |b|
  {
    assert |b - a| == |b| - |a|;
  }

  /** Who holds each request: on the active list its count is the number of its holders; on its way out nobody does. */
  ghost predicate Requests(ki: map<nat, int>, sub: set<nat>, pend: set<nat>, fputs: set<nat>, active: int)
  {
    && ki.Keys == sub + pend && ki.Keys !! fputs
    && (forall r :: r in ki ==> ki[r] == One(r in sub) + One(r in pend))
    && active == |ki.Keys| + |fputs|
  }

  lemma RequestAdded(ki: map<nat, int>, sub: set<nat>, pend: set<nat>, fputs: set<nat>, active: int, r: nat)
    requires Requests(ki, sub, pend, fputs, active) && r !in ki && r !in fputs
    ensures Requests(ki[r := 2], sub + {r}, pend + {r}, fputs, active + 1) && |pend + {r}| == |pend| + 1 &&
      |pend| <= active
  {
    assert |pend| <= active by {
      SubsetSize(pend, ki.Keys);
    }
    assert ki[r := 2].Keys == ki.Keys + {r};
    assert |ki.Keys + {r}| == |ki.Keys| + 1;
  }

  /** One holder of a request lets go and another one is left. */
  lemma HolderGone(ki: map<nat, int>, sub: set<nat>, pend: set<nat>, fputs: set<nat>, active: int, r: nat)
    requires Requests(ki, sub, pend, fputs, active) && r in sub && r in pend
    ensures Requests(ki[r := 1], sub - {r}, pend, fputs, active) && Requests(ki[r := 1], sub, pend - {r}, fputs, active)
  {
    assert ki[r := 1].Keys == ki.Keys;
  }

  /** The last holder lets go: the request is freed, or waits for the put of its file. */
  lemma LastHolderGone(ki: map<nat, int>, sub: set<nat>, pend: set<nat>, fputs: set<nat>, active: int, r: nat,
                       bySub: bool)
    requires Requests(ki, sub, pend, fputs, active) && r in ki && ki[r] == 1 && r in (if bySub then sub else pend)
    ensures
      var sub', pend' := if bySub then sub - {r} else sub, if bySub then pend else pend - {r};
      Requests(ki - {r}, sub', pend', fputs, active - 1) && Requests(ki - {r}, sub', pend', fputs + {r}, active)
  {
    assert (ki - {r}).Keys == ki.Keys - {r};
    assert bySub ==> r !in pend;
  }

  lemma FputGone(ki: map<nat, int>, sub: set<nat>, pend: set<nat>, fputs: set<nat>, active: int, r: nat)
    requires Requests(ki, sub, pend, fputs, active) && r in fputs
    ensures Requests(ki, sub, pend, fputs - {r}, active - 1)
  {
  }

  lemma OneFacts()
    ensures One(true) == 1 && One(false) == 0
  {
  }

  lemma HolderFacts(ki: map<nat, int>, sub: set<nat>, pend: set<nat>, fputs: set<nat>, active: int, r: nat)
    requires Requests(ki, sub, pend, fputs, active) && (r in sub || r in pend)
    ensures r in ki && active > 0 && ki[r] == if r in sub && r in pend then 2 else 1
  {
  }

  lemma ActiveNotNegative(ki: map<nat, int>, sub: set<nat>, pend: set<nat>, fputs: set<nat>, active: int)
    requires Requests(ki, sub, pend, fputs, active)
    ensures active >= 0
  {
  }

  /**
    The ring holds the unread completions, every request still to complete has a free slot, and what a
    reader has copied is the oldest unread completion.
  */
  ghost predicate Ring(slots: seq<Event>, log: seq<Event>, read: nat, head: nat, tail: nat, pending: nat,
                       completed: nat, copied: seq<Event>)
  {
    && Holds(slots, log, read) && head == Slot(read, |slots|) && tail == Slot(|log|, |slots|)
    && pending <= |slots| - 1 - (|log| - read) && completed == |log|
    && |copied| <= 1 && (copied != [] ==> read < |log| && copied[0] == log[read])
  }

  lemma RingFacts(slots: seq<Event>, log: seq<Event>, read: nat, head: nat, tail: nat, pending: nat, completed: nat,
                  copied: seq<Event>)
    requires Ring(slots, log, read, head, tail, pending, completed, copied)
    ensures 0 < |slots| && read <= |log| < read + |slots| && completed == |log| && head < |slots| && tail < |slots|
    ensures RingAvail(|slots|, head, tail) == |slots| - 1 - (|log| - read) && (head == tail <==> read == |log|)
    ensures read < |log| ==> slots[head] == log[read]
    ensures head % |slots| == head
  {
    hide Slot;
    AvailIsFree(|slots|, read, |log|);
    Wrap(head, |slots|);
  }

  lemma RingPending(slots: seq<Event>, log: seq<Event>, read: nat, head: nat, tail: nat, pending: nat, completed: nat,
                    copied: seq<Event>, n: nat)
    requires Ring(slots, log, read, head, tail, pending, completed, copied) && n <= |slots| - 1 - (|log| - read)
    ensures Ring(slots, log, read, head, tail, n, completed, copied)
  {
    hide Slot, Holds;
  }

  lemma RingLess(slots: seq<Event>, log: seq<Event>, read: nat, head: nat, tail: nat, pending: nat, completed: nat,
                 copied: seq<Event>)
    requires Ring(slots, log, read, head, tail, pending, completed, copied) && pending > 0
    ensures Ring(slots, log, read, head, tail, pending - 1, completed, copied)
  {
    hide Slot, Holds;
  }

  /** A completion: the event goes to the tail, where no unread event is. */
  lemma RingCompletes(slots: seq<Event>, log: seq<Event>, read: nat, head: nat, tail: nat, pending: nat,
                      completed: nat, copied: seq<Event>, e: Event)
    requires Ring(slots, log, read, head, tail, pending, completed, copied) && pending > 0
    ensures tail < |slots| && Ring(slots[tail := e], log + [e], read, head, (tail + 1) % |slots|, pending - 1,
      completed + 1, copied)
  {
    hide Slot;
    CompleteKeeps(slots, log, read, e);
    SlotNext(|log|, |slots|);
    Wrap(tail + 1, |slots|);
    hide Holds;
  }

  lemma RingCopied(slots: seq<Event>, log: seq<Event>, read: nat, head: nat, tail: nat, pending: nat, completed: nat,
                   copied: seq<Event>)
    requires Ring(slots, log, read, head, tail, pending, completed, copied) && copied != []
    ensures read < |log| && copied[0] == log[read]
  {
  }

  /** A reader copies the oldest unread event, and then takes it off. */
  lemma RingReads(slots: seq<Event>, log: seq<Event>, read: nat, head: nat, tail: nat, pending: nat, completed: nat,
                  copied: seq<Event>)
    requires Ring(slots, log, read, head, tail, pending, completed, copied) && read < |log|
    ensures head < |slots| && Ring(slots, log, read, head, tail, pending, completed, [slots[head]])
    ensures Ring(slots, log, read + 1, (head + 1) % |slots|, tail, pending, completed, [])
  {
    hide Slot;
    SlotNext(read, |slots|);
    Wrap(head + 1, |slots|);
  }

  /**
    Wake-ups are of completions there have been; one without a reference comes from an early completion,
    and so does a late use.
  */
  ghost predicate Wakes(n: nat, waking: set<nat>, bare: set<nat>, early: bool, stale: bool)
  {
    && (forall k :: k in waking || k in bare ==> k < n) && waking !! bare
    && (bare != {} ==> early) && (stale ==> early)
  }

  /** One completion more is to wake the readers. */
  lemma WakeAdded(n: nat, waking: set<nat>, bare: set<nat>, early: bool, stale: bool)
    requires Wakes(n, waking, bare, early, stale)
    ensures Wakes(n + 1, waking + {n}, bare, early, stale) && Wakes(n + 1, waking, bare + {n}, true, stale)
    ensures |waking + {n}| == |waking| + 1
  {
    assert n !in waking;
  }

  lemma Woken(n: nat, waking: set<nat>, bare: set<nat>, early: bool, stale: bool, k: nat, freed: bool)
    requires Wakes(n, waking, bare, early, stale)
    ensures Wakes(n, waking - {k}, bare, early, stale) && (k in waking ==> |waking - {k}| == |waking| - 1)
    ensures k in bare ==> Wakes(n, waking, bare - {k}, early, stale || freed)
  {
  }

  class Kioctx {
    const maxReqs: nat
    const nr: nat
    const slots: array<Event>
    var head: nat
    var tail: nat
    var users: int
    var dead: bool
    var reqsActive: int
    var kiUsers: map<nat, int>
    var fputs: set<nat>
    var freed: bool
    var bugged: bool

    // The completions so far and how many of them have been read.
    ghost var log: seq<Event>
    ghost var read: nat
    // What is held: requests whose submitter has its reference, and requests whose completion is still to come.
    var submitting: set<nat>
    var pending: set<nat>
    // References held by system calls that looked the context up, and references about to be put.
    var lookups: nat
    var puts: nat
    // The number of completions, and by their number those that have left the lock and are still to wake the
    // readers: those that took the last reference to their request hold one to the context, the others hold none.
    var completed: nat
    var waking: set<nat>
    var bare: set<nat>
    // The event a reader has copied under the ring lock and not yet taken off the ring.
    var copied: seq<Event>
    // Puts that were not the last one and are still to look at the count again, without a reference.
    var checks: nat
    // Whether a completion came while the submitter still held its request, and whether its wake-up used a
    // freed context.
    ghost var early: bool
    ghost var stale: bool
    // Whether a put was not the last one, and whether the look at the count after it used a freed context.
    ghost var shared: bool
    ghost var late: bool

    ghost predicate RingOk()
      reads this, slots
    {
      nr == RingSlots(maxReqs) == slots.Length && Ring(slots[..], log, read, head, tail, |pending|, completed, copied)
    }

    ghost predicate RequestsOk()
      reads this
    {
      Requests(kiUsers, submitting, pending, fputs, reqsActive)
    }

    /**
      The user count: the list until the context is dead, the lookups, the puts and wake-ups under way,
      and one for each request.
    */
    ghost predicate CountsOk()
      reads this
    {
      users == One(!dead) + lookups + puts + |waking| + reqsActive && (freed <==> users == 0) && |copied| <= lookups
    }

    ghost predicate WakesOk()
      reads this
    {
      Wakes(|log|, waking, bare, early, stale)
    }

    /** A look at the count, and a late one, comes from a put that was not the last one. */
    ghost predicate ChecksOk()
      reads this
    {
      checks > 0 || late ==> shared
    }

    ghost predicate Valid()
      reads this, slots
    {
      RingOk() && RequestsOk() && CountsOk() && WakesOk() && ChecksOk() && !bugged
    }

    /** ioctx_alloc of a context that gets linked into the list. */
    constructor (max: nat)
      ensures Valid() && maxReqs == max && users == 1 && !dead && !freed && fresh(slots)
      ensures lookups == 0 && puts == 0 && log == [] && read == 0 && kiUsers == map[] && fputs == {} && copied == [] &&
        !early && checks == 0 && !late
    {
      maxReqs := max;
      nr := RingSlots(max);
      slots := new Event[RingSlots(max)];
      head, tail, users, dead, reqsActive := 0, 0, 1, false, 0;
      kiUsers, fputs, freed, bugged := map[], {}, false, false;
      log, read, submitting, pending, lookups, puts := [], 0, {}, {}, 0, 0;
      completed, waking, bare, copied, early, stale := 0, {}, {}, [], false, false;
      checks, shared, late := 0, false, false;
    }

    /** get_ioctx. */
    method Get()
      requires users > 0 && !bugged
      modifies `users, `bugged
      ensures users == old(users) + 1 && !bugged
    {
      bugged := bugged || users <= 0;
      users := users + 1;
    }

    /** lookup_ioctx finds a context only while it is on the list and not dead. */
    method Lookup()
      requires Valid() && !dead
      modifies `users, `bugged, `lookups
      ensures Valid() && lookups == old(lookups) + 1 && users == old(users) + 1
    {
      Get();
      lookups := lookups + 1;
    }

    /** __aio_get_req: a request is accepted only if the ring has a slot for its completion. */
    method GetReq(r: nat) returns (ok: bool)
      requires Valid() && lookups > 0 && r !in kiUsers && r !in fputs
      modifies `users, `bugged, `kiUsers, `reqsActive, `submitting, `pending
      ensures Valid()
      ensures ok <==> old(reqsActive) < nr - 1 - (|log| - read)
      ensures ok ==> r in submitting && r in pending && kiUsers == old(kiUsers)[r := 2]
      ensures !ok ==> kiUsers == old(kiUsers) && users == old(users) && reqsActive == old(reqsActive)
    {
      hide RingSlots, Ring, Requests, Wakes, RingAvail;
      RingFacts(slots[..], log, read, head, tail, |pending|, completed, copied);
      ActiveNotNegative(kiUsers, submitting, pending, fputs, reqsActive);
      ok := reqsActive < RingAvail(nr, head, tail);
      if ok {
        Reserve(r);
      }
    }

    /** The accepted request, with a reference for its submitter and one for its completion. */
    method Reserve(r: nat)
      requires Valid() && users > 0 && r !in kiUsers && r !in fputs && reqsActive < nr - 1 - (|log| - read)
      modifies `users, `bugged, `kiUsers, `reqsActive, `submitting, `pending
      ensures Valid() && kiUsers == old(kiUsers)[r := 2]
      ensures submitting == old(submitting) + {r} && pending == old(pending) + {r}
    {
      hide RingSlots, Ring, Requests, Wakes;
      RequestAdded(kiUsers, submitting, pending, fputs, reqsActive, r);
      RingPending(slots[..], log, read, head, tail, |pending|, completed, copied, |pending| + 1);
      Get();
      kiUsers := kiUsers[r := 2];
      reqsActive := reqsActive + 1;
      submitting, pending := submitting + {r}, pending + {r};
    }

    /**
      __aio_put_req: one reference to a request goes, the submitter's or the completion's. The last
      one takes the request off the active list; if it also held the last reference to its file the
      request waits for the deferred put and keeps a reference to the context for it.
    */
    method PutReqLocked(r: nat, lastFile: bool, sub: bool) returns (last: bool)
      requires RequestsOk() && CountsOk() && !bugged && (if sub then r in submitting else r in pending)
      modifies `users, `reqsActive, `kiUsers, `fputs, `bugged, `submitting, `pending, `puts
      ensures RequestsOk() && CountsOk() && !bugged
      ensures submitting == (if sub then old(submitting) - {r} else old(submitting))
      ensures pending == (if sub then old(pending) else old(pending) - {r})
      ensures last <==> (r !in submitting && r !in pending)
      ensures puts == old(puts) + One(last) && fputs == if last && lastFile then old(fputs) + {r} else old(fputs)
    {
      hide Requests, One;
      OneFacts();
      HolderFacts(kiUsers, submitting, pending, fputs, reqsActive, r);
      var sub', pend' := if sub then submitting - {r} else submitting, if sub then pending else pending - {r};
      var n := kiUsers[r] - 1;
      bugged := bugged || n < 0;
      last := n == 0;
      if !last {
        HolderGone(kiUsers, submitting, pending, fputs, reqsActive, r);
        kiUsers := kiUsers[r := n];
      } else {
        LastHolderGone(kiUsers, submitting, pending, fputs, reqsActive, r, sub);
        Retire(r, lastFile, sub', pend');
      }
      submitting, pending := sub', pend';
    }

    /** The end of __aio_put_req for the last reference. */
    method Retire(r: nat, lastFile: bool, ghost sub: set<nat>, ghost pend: set<nat>)
      requires Requests(kiUsers - {r}, sub, pend, fputs, reqsActive - 1)
      requires Requests(kiUsers - {r}, sub, pend, fputs + {r}, reqsActive)
      requires CountsOk() && reqsActive > 0 && !bugged
      modifies `users, `reqsActive, `kiUsers, `fputs, `bugged, `puts
      ensures Requests(kiUsers, sub, pend, fputs, reqsActive) && CountsOk() && !bugged
      ensures puts == old(puts) + 1 && fputs == if lastFile then old(fputs) + {r} else old(fputs)
    {
      hide Requests;
      kiUsers := kiUsers - {r};
      if lastFile {
        Get();
        fputs := fputs + {r};
      } else {
        reqsActive := reqsActive - 1;
      }
      puts := puts + 1;
    }

    /** aio_put_req by the submitter; the reference the request held is put after the lock is released. */
    method PutReq(r: nat, lastFile: bool) returns (last: bool)
      requires Valid() && r in submitting
      modifies `users, `reqsActive, `kiUsers, `fputs, `bugged, `submitting, `pending, `puts
      ensures Valid() && submitting == old(submitting) - {r} && pending == old(pending) && puts == old(puts) + One(last)
    {
      hide RingSlots, Ring, Requests, Wakes;
      last := PutReqLocked(r, lastFile, true);
    }

    /** The error path of io_submit_one drops the completion's reference without a completion. */
    method DropReq(r: nat, lastFile: bool) returns (last: bool)
      requires Valid() && r in pending
      modifies `users, `reqsActive, `kiUsers, `fputs, `bugged, `submitting, `pending, `puts
      ensures Valid() && submitting == old(submitting) && pending == old(pending) - {r} && puts == old(puts) + One(last)
    {
      hide RingSlots, Ring, Requests, Wakes;
      RingLess(slots[..], log, read, head, tail, |pending|, completed, copied);
      assert |pending - {r}| == |pending| - 1;
      last := PutReqLocked(r, lastFile, false);
    }

    /** The event goes to the tail of the ring. */
    method Store(e: Event)
      requires RingOk() && |pending| > 0
      modifies `tail, `log, `completed, slots
      ensures log == old(log) + [e] && completed == |log|
      ensures nr == RingSlots(maxReqs) == slots.Length &&
        Ring(slots[..], log, read, head, tail, |pending| - 1, completed, copied)
    {
      hide RingSlots, Ring;
      RingFacts(slots[..], log, read, head, tail, |pending|, completed, copied);
      RingCompletes(slots[..], log, read, head, tail, |pending|, completed, copied, e);
      ghost var before := slots[..];
      slots[tail] := e;
      assert slots[..] == before[tail := e];
      tail := (tail + 1) % nr;
      log, completed := log + [e], completed + 1;
    }

    /** The event is stored and the completion's reference to the request goes. */
    method StoreAndPut(r: nat, e: Event, lastFile: bool) returns (last: bool)
      requires Valid() && r in pending
      modifies `tail, `log, `completed, `users, `reqsActive, `kiUsers, `fputs, `bugged, `submitting, `pending, `puts,
        slots
      ensures RingOk() && RequestsOk() && CountsOk() && !bugged
      ensures log == old(log) + [e] && submitting == old(submitting) && pending == old(pending) - {r}
      ensures (last <==> r !in submitting) && puts == old(puts) + One(last) && completed == |log|
    {
      hide RingSlots, Ring, Requests, Wakes;
      assert |pending - {r}| == |pending| - 1;
      Store(e);
      last := PutReqLocked(r, lastFile, false);
    }

    /**
      aio_complete under its lock. The wake-up comes after the lock, and the completion has a reference
      for it only if it took the last one to its request, that is if the submitter had let go.
    */
    method Complete(r: nat, e: Event, lastFile: bool) returns (last: bool)
      requires Valid() && r in pending
      modifies `tail, `log, `completed, `users, `reqsActive, `kiUsers, `fputs, `bugged, `submitting, `pending, `puts,
        `waking, `bare, `early, slots
      ensures Valid() && log == old(log) + [e] && submitting == old(submitting) && pending == old(pending) - {r}
      ensures last <==> r !in submitting
      ensures puts == old(puts) && early == (old(early) || !last)
      ensures waking == (if last then old(waking) + {|old(log)|} else old(waking))
      ensures bare == (if last then old(bare) else old(bare) + {|old(log)|})
    {
      hide RingSlots, Ring, Requests, Wakes, Kioctx.CountsOk, Kioctx.RingOk, Kioctx.RequestsOk;
      last := StoreAndPut(r, e, lastFile);
      if last {
        KeepForWake();
      } else {
        OweWake();
      }
    }

    /** The completion is still to wake the readers, and has the reference to the context its request held. */
    method KeepForWake()
      requires RingOk() && RequestsOk() && CountsOk() && ChecksOk() && !bugged && puts > 0
      requires completed == |log| > 0 && Wakes(|log| - 1, waking, bare, early, stale)
      modifies `puts, `waking
      ensures Valid() && puts == old(puts) - 1 && waking == old(waking) + {|log| - 1}
    {
      hide RingSlots, Ring, Requests, Wakes;
      var k := completed - 1;
      WakeAdded(k, waking, bare, early, stale);
      puts, waking := puts - 1, waking + {k};
    }

    /** The completion is still to wake the readers, and has no reference to the context. */
    method OweWake()
      requires RingOk() && RequestsOk() && CountsOk() && ChecksOk() && !bugged
      requires completed == |log| > 0 && Wakes(|log| - 1, waking, bare, early, stale)
      modifies `bare, `early
      ensures Valid() && early && bare == old(bare) + {|log| - 1}
    {
      hide RingSlots, Ring, Requests, Wakes;
      var k := completed - 1;
      WakeAdded(k, waking, bare, early, stale);
      bare, early := bare + {k}, true;
    }

    /** The wake-up of aio_complete after its lock, for a completion with a reference; that one is put next. */
    method Wake(k: nat)
      requires Valid() && k in waking
      modifies `waking, `puts
      ensures Valid() && !freed && waking == old(waking) - {k} && puts == old(puts) + 1
    {
      hide RingSlots, Ring, Requests, Wakes;
      ActiveNotNegative(kiUsers, submitting, pending, fputs, reqsActive);
      Woken(|log|, waking, bare, early, stale, k, freed);
      waking, puts := waking - {k}, puts + 1;
    }

    /** The same for a completion without one: nothing keeps the context for it. */
    method WakeBare(k: nat)
      requires Valid() && k in bare
      modifies `bare, `stale
      ensures Valid() && bare == old(bare) - {k} && stale == (old(stale) || freed)
    {
      hide RingSlots, Ring, Requests, Wakes;
      Woken(|log|, waking, bare, early, stale, k, freed);
      bare, stale := bare - {k}, stale || freed;
    }

    /**
      aio_read_evt up to the update of the head, under the ring lock, which completions do not take: the
      oldest unread event is copied.
    */
    method ReadCopy() returns (ret: nat)
      requires Valid() && copied == [] && lookups > 0
      modifies `copied
      ensures Valid() && ret == (if read < |log| then 1 else 0)
      ensures copied == if ret == 1 then [log[read]] else []
    {
      hide RingSlots, Ring, Requests, Wakes;
      RingFacts(slots[..], log, read, head, tail, |pending|, completed, copied);
      ret := 0;
      if head != tail {
        RingReads(slots[..], log, read, head, tail, |pending|, completed, copied);
        var h := head % nr;
        copied := [slots[h]];
        ret := 1;
      }
    }

    /** The update of the head: the event copied is off the ring, and completions may have come meanwhile. */
    method ReadAdvance() returns (ent: Event)
      requires Valid() && copied != []
      modifies `head, `read, `copied
      ensures Valid() && read == old(read) + 1 <= |log| && ent == log[old(read)] && copied == []
    {
      RingCopied(slots[..], log, read, head, tail, |pending|, completed, copied);
      RingFacts(slots[..], log, read, head, tail, |pending|, completed, copied);
      RingReads(slots[..], log, read, head, tail, |pending|, completed, copied);
      hide RingSlots, Ring, Requests, Wakes;
      ent := copied[0];
      head := (head % nr + 1) % nr;
      read, copied := read + 1, [];
    }

    /** One turn of aio_fput_routine: the file has been put, the request goes, and its reference is put next. */
    method FputOne(r: nat)
      requires Valid() && r in fputs
      modifies `fputs, `reqsActive, `puts
      ensures Valid() && fputs == old(fputs) - {r} && puts == old(puts) + 1
    {
      hide RingSlots, Ring, Requests, Wakes;
      FputGone(kiUsers, submitting, pending, fputs, reqsActive, r);
      fputs := fputs - {r};
      reqsActive := reqsActive - 1;
      puts := puts + 1;
    }

    /** io_destroy, before its last put: only the first of several destroys puts the list's reference. */
    method Kill()
      requires Valid() && lookups > 0
      modifies `dead, `puts
      ensures Valid() && dead && puts == old(puts) + One(!old(dead))
    {
      hide RingSlots, Ring, Requests, Wakes;
      var wasDead := dead;
      dead := true;
      if !wasDead {
        puts := puts + 1;
      }
    }

    /** A system call is done with the context, and not in the middle of reading: its reference is about to be put. */
    method Release()
      requires Valid() && lookups > |copied|
      modifies `lookups, `puts
      ensures Valid() && lookups == old(lookups) - 1 && puts == old(puts) + 1
    {
      lookups, puts := lookups - 1, puts + 1;
    }

    /**
      The decrement of put_ioctx and the check of __put_ioctx: the last put finds no request, so the
      check never fires. Any other put is still to look at the count.
    */
    method Put() returns (last: bool)
      requires Valid() && puts > 0
      modifies `users, `puts, `bugged, `freed, `checks, `shared
      ensures Valid() && puts == old(puts) - 1
      ensures last == freed == (old(users) == 1)
      ensures checks == old(checks) + One(!last)
      ensures last ==> dead && reqsActive == 0 && lookups == 0 && puts == 0 && waking == {}
    {
      hide RingSlots, Ring, Requests, Wakes;
      ActiveNotNegative(kiUsers, submitting, pending, fputs, reqsActive);
      users := users - 1;
      puts := puts - 1;
      last := users == 0;
      if last {
        bugged := bugged || reqsActive != 0;
        freed := true;
      } else {
        checks, shared := checks + 1, true;
      }
    }

    /**
      The second half of put_ioctx: the count is not negative, and the look at it is late if the context
      has been freed.
    */
    method Check()
      requires Valid() && checks > 0
      modifies `checks, `bugged, `late
      ensures Valid() && checks == old(checks) - 1 && late == (old(late) || freed)
    {
      hide RingSlots, Ring, Requests, Wakes;
      ActiveNotNegative(kiUsers, submitting, pending, fputs, reqsActive);
      checks, late := checks - 1, late || freed;
      bugged := bugged || users < 0;
    }
  }

  // ---- runs

  datatype Section =
    | Lookup | GetReq(req: nat) | PutReq(req: nat, lastFile: bool) | DropReq(req: nat, lastFile: bool)
    | Complete(req: nat, event: Event, lastFile: bool) | Wake(k: nat) | ReadCopy | ReadAdvance | Fput(req: nat) | Kill
    | Release
    | Put | Check

  /** Some thread is in a position to run the section. */
  predicate Enabled(ctx: Kioctx, s: Section)
    reads ctx
  {
    match s
    case Lookup => !ctx.dead
    case GetReq(r) => ctx.lookups > 0 && r !in ctx.kiUsers && r !in ctx.fputs
    case PutReq(r, _) => r in ctx.submitting
    case DropReq(r, _) => r in ctx.pending
    case Complete(r, _, _) => r in ctx.pending
    case Wake(k) => k in ctx.waking || k in ctx.bare
    case ReadCopy => ctx.lookups > 0 && ctx.copied == []
    case ReadAdvance => ctx.copied != []
    case Fput(r) => r in ctx.fputs
    case Kill => ctx.lookups > 0
    case Release => ctx.lookups > |ctx.copied|
    case Put => ctx.puts > 0
    case Check => ctx.checks > 0
  }

  /**
    All that can still happen to a freed context is the wake-up of a completion without a reference and
    the second look at the count by a put that was not the last one.
  */
  lemma FreedIsQuiet(ctx: Kioctx, s: Section)
    requires ctx.Valid() && ctx.freed
    ensures Enabled(ctx, s) <==> (s.Wake? && s.k in ctx.bare) || (s.Check? && ctx.checks > 0)
    ensures !ctx.early && ctx.checks == 0 ==> !Enabled(ctx, s)
  {
    hide Slot, RingSlots, Holds;
    assert ctx.kiUsers.Keys == {} && ctx.fputs == {} && ctx.waking == {};
  }

  /** A section was taken: the context is in order, what was read comes next in the log, and no wake-up is forgotten. */
  twostate predicate Taken(ctx: Kioctx, s: Section, got: seq<Event>)
    reads ctx, ctx.slots
  {
    && ctx.Valid() && old(ctx.log) <= ctx.log && ctx.read == old(ctx.read) + |got| <= |ctx.log|
    && got == ctx.log[old(ctx.read)..ctx.read] && (!s.Put? ==> ctx.freed == old(ctx.freed))
    && (!s.Kill? ==> ctx.dead == old(ctx.dead)) && (!s.Release? ==> ctx.lookups >= old(ctx.lookups))
    && forall k :: k in old(ctx.waking) && s != Section.Wake(k) ==> k in ctx.waking
  }

  /** What a section does when some thread is in a position to run it. */
  twostate predicate Happens(ctx: Kioctx, s: Section, got: seq<Event>)
    reads ctx
  {
    match s
    case Lookup => !old(ctx.dead) ==> ctx.lookups == old(ctx.lookups) + 1
    case GetReq(r) =>
      old(ctx.lookups) > 0 && r !in old(ctx.kiUsers) && r !in old(ctx.fputs) ==>
        (ctx.kiUsers == if old(ctx.reqsActive) < ctx.nr - 1 - (|old(ctx.log)| - old(ctx.read)) then
                          old(ctx.kiUsers)[r := 2] else old(ctx.kiUsers))
    case PutReq(r, _) => r in old(ctx.submitting) ==> ctx.submitting == old(ctx.submitting) - {r}
    case DropReq(r, _) => r in old(ctx.pending) ==> ctx.pending == old(ctx.pending) - {r} && ctx.log == old(ctx.log)
    case Complete(r, e, _) =>
      r in old(ctx.pending) ==> ctx.pending == old(ctx.pending) - {r} && ctx.log == old(ctx.log) + [e]
    case Wake(k) =>
      && (k in old(ctx.waking) ==> ctx.waking == old(ctx.waking) - {k})
      && (k !in old(ctx.waking) && k in old(ctx.bare) ==> ctx.bare == old(ctx.bare) - {k})
    case ReadCopy =>
      old(ctx.lookups) > 0 && old(ctx.copied) == [] ==>
        (ctx.copied != [] <==> old(ctx.read) < |old(ctx.log)|)
    case ReadAdvance => old(ctx.copied) != [] ==> |got| == 1 && ctx.copied == []
    case Fput(r) => r in old(ctx.fputs) ==> ctx.fputs == old(ctx.fputs) - {r}
    case Kill => old(ctx.lookups) > 0 ==> ctx.dead
    case Release => old(ctx.lookups) > |old(ctx.copied)| ==> ctx.lookups == old(ctx.lookups) - 1
    case Put => old(ctx.puts) > 0 ==> ctx.puts == old(ctx.puts) - 1
    case Check => old(ctx.checks) > 0 ==> ctx.checks == old(ctx.checks) - 1
  }

  /** A section on a request. */
  method TakeRequest(ctx: Kioctx, s: Section)
    requires ctx.Valid() && Enabled(ctx, s) && (s.GetReq? || s.PutReq? || s.DropReq? || s.Complete? || s.Fput?)
    modifies ctx, ctx.slots
    ensures Taken(ctx, s, []) && Happens(ctx, s, [])
  {
    hide Kioctx.Valid;
    ReadSoFar(ctx);
    match s
    case GetReq(r) => var ok := ctx.GetReq(r);
    case PutReq(r, lastFile) => var last := ctx.PutReq(r, lastFile);
    case DropReq(r, lastFile) => var last := ctx.DropReq(r, lastFile);
    case Complete(r, e, lastFile) => var last := ctx.Complete(r, e, lastFile);
    case Fput(r) => ctx.FputOne(r);
  }

  /** A wake-up, or a step of a reader. */
  method TakeReader(ctx: Kioctx, s: Section) returns (got: seq<Event>)
    requires ctx.Valid() && Enabled(ctx, s) && (s.Wake? || s.ReadCopy? || s.ReadAdvance?)
    modifies ctx, ctx.slots
    ensures Taken(ctx, s, got) && Happens(ctx, s, got)
  {
    hide Kioctx.Valid;
    ReadSoFar(ctx);
    got := [];
    match s
    case Wake(k) => if k in ctx.waking { ctx.Wake(k); } else { ctx.WakeBare(k); }
    case ReadCopy => var ret := ctx.ReadCopy();
    case ReadAdvance =>
      var e := ctx.ReadAdvance();
      got := [e];
  }

  /** One section, if some thread is in a position to run it. */
  method Take(ctx: Kioctx, s: Section) returns (got: seq<Event>)
    requires ctx.Valid()
    modifies ctx, ctx.slots
    ensures Taken(ctx, s, got) && Happens(ctx, s, got)
    ensures s.Complete? && s.req in old(ctx.pending) ==> ctx.log == old(ctx.log) + [s.event]
    ensures s.ReadAdvance? && old(ctx.copied) != [] ==> got == [ctx.log[old(ctx.read)]]
    ensures s.Lookup? && !old(ctx.dead) ==> ctx.lookups == old(ctx.lookups) + 1
    ensures s.Put? && old(ctx.puts) > 0 ==> ctx.puts == old(ctx.puts) - 1
    ensures s.Check? && old(ctx.checks) > 0 ==> ctx.checks == old(ctx.checks) - 1
    ensures s.Kill? && old(ctx.lookups) > 0 ==> ctx.dead
    ensures s.Release? && old(ctx.lookups) > |old(ctx.copied)| ==> ctx.lookups == old(ctx.lookups) - 1
    ensures s.ReadCopy? && old(ctx.lookups > 0 && ctx.copied == []) ==>
      (ctx.copied != [] <==> old(ctx.read < |ctx.log|))
    ensures s.Wake? && s.k in old(ctx.waking) ==> s.k !in ctx.waking
    ensures s.Fput? && s.req in old(ctx.fputs) ==> s.req !in ctx.fputs
    ensures s.PutReq? && s.req in old(ctx.submitting) ==> s.req !in ctx.submitting
    ensures s.DropReq? && s.req in old(ctx.pending) ==> s.req !in ctx.pending
  {
    hide Kioctx.Valid;
    got := [];
    ReadSoFar(ctx);
    if Enabled(ctx, s) {
      match s
      case Lookup => ctx.Lookup();
      case Kill => ctx.Kill();
      case Release => ctx.Release();
      case Put => var last := ctx.Put();
      case Check => ctx.Check();
      case Wake(_) => got := TakeReader(ctx, s);
      case ReadCopy => got := TakeReader(ctx, s);
      case ReadAdvance => got := TakeReader(ctx, s);
      case _ => TakeRequest(ctx, s);
    }
  }

  lemma RoomLeft(ctx: Kioctx)
    requires ctx.Valid()
    ensures |ctx.pending| <= ctx.nr - 1 - (|ctx.log| - ctx.read) && ctx.users >= ctx.reqsActive && !ctx.bugged
  {
  }

  lemma ReadSoFar(ctx: Kioctx)
    requires ctx.Valid()
    ensures ctx.read <= |ctx.log|
  {
  }

  /**
    Any sections of any tasks in any order: no check fires, no unread event is overwritten, and the
    readers have between them the completions in order, each of them once.
  */
  method Run(ctx: Kioctx, sections: seq<Section>) returns (got: seq<Event>)
    requires ctx.Valid() && ctx.read == 0
    modifies ctx, ctx.slots
    ensures ctx.Valid() && !ctx.bugged && got <= ctx.log && |got| == ctx.read
    ensures |ctx.pending| <= ctx.nr - 1 - (|ctx.log| - ctx.read) && ctx.users >= ctx.reqsActive
    ensures |sections| == 1 ==> Happens(ctx, sections[0], got)
  {
    hide Kioctx.Valid;
    got := [];
    ReadSoFar(ctx);
    for n := 0 to |sections|
      invariant ctx.Valid() && ctx.read == |got| && got <= ctx.log
      invariant (n == 0 ==> unchanged(ctx) && got == []) && (n == 1 ==> Happens(ctx, sections[0], got))
    {
      ghost var was := ctx.log;
      var more := Take(ctx, sections[n]);
      got := got + more;
      ReadSoFar(ctx);
    }
    RoomLeft(ctx);
  }

  // ---- when a completion may still wake the readers

  /**
    A completion that found its submitter gone: whatever runs, the context is not freed before it has
    woken the readers.
  */
  method KeptUntilWoken(ctx: Kioctx, r: nat, e: Event, lastFile: bool, sections: seq<Section>)
    requires ctx.Valid() && r in ctx.pending && r !in ctx.submitting
    requires forall i :: 0 <= i < |sections| ==> sections[i] != Section.Wake(|ctx.log|)
    modifies ctx, ctx.slots
    ensures ctx.Valid() && |old(ctx.log)| in ctx.waking && !ctx.freed
  {
    hide RingSlots, Ring, Requests, Wakes;
    ghost var k := |ctx.log|;
    var last := ctx.Complete(r, e, lastFile);
    for n := 0 to |sections|
      invariant ctx.Valid() && k in ctx.waking
    {
      var got := Take(ctx, sections[n]);
    }
    StillUsed(ctx, k);
  }

  lemma StillUsed(ctx: Kioctx, k: nat)
    requires ctx.Valid() && k in ctx.waking
    ensures !ctx.freed
  {
    hide RingSlots, Ring, Requests, Wakes;
    ActiveNotNegative(ctx.kiUsers, ctx.submitting, ctx.pending, ctx.fputs, ctx.reqsActive);
    assert ctx.waking != {};
  }

  /**
    A completion that found its submitter still there: from every state there is a run that frees the
    context before it has woken the readers. The submitters let go, the other requests complete and
    their completions wake the readers, the deferred puts are done, the context is destroyed, and all
    references are put.
  */
  method FreedBeforeWoken(ctx: Kioctx, r: nat, e: Event, lastFile: bool)
    requires ctx.Valid() && r in ctx.pending && r in ctx.submitting
    modifies ctx, ctx.slots
    ensures ctx.Valid() && |old(ctx.log)| in ctx.bare && ctx.freed
  {
    hide RingSlots, Ring, Requests, Wakes;
    var last := ctx.Complete(r, e, lastFile);
    LetGo(ctx);
    CompleteAll(ctx, e);
    Quiet(ctx);
    Destroy(ctx);
  }

  /**
    Such a run from a new context to the end: one request, completed before it is let go, and a wake-up
    in a freed context.
  */
  method LateWake(e: Event) returns (ctx: Kioctx)
    ensures ctx.Valid() && ctx.freed && ctx.stale
  {
    hide Ring, Requests, Wakes;
    ctx := new Kioctx(1);
    ActiveNotNegative(ctx.kiUsers, ctx.submitting, ctx.pending, ctx.fputs, ctx.reqsActive);
    ctx.Lookup();
    var ok := ctx.GetReq(0);
    FreedBeforeWoken(ctx, 0, e, false);
    ctx.WakeBare(0);
  }

  method LetGo(ctx: Kioctx)
    requires ctx.Valid()
    modifies ctx`users, ctx`reqsActive, ctx`kiUsers, ctx`fputs, ctx`bugged, ctx`submitting, ctx`pending, ctx`puts
    ensures ctx.Valid() && ctx.submitting == {}
  {
    hide RingSlots, Ring, Requests, Wakes;
    while ctx.submitting != {}
      invariant ctx.Valid()
      decreases |ctx.submitting|
    {
      var r :| r in ctx.submitting;
      var last := ctx.PutReq(r, false);
    }
  }

  method CompleteAll(ctx: Kioctx, e: Event)
    requires ctx.Valid() && ctx.submitting == {}
    modifies ctx, ctx.slots
    ensures ctx.Valid() && ctx.submitting == {} && ctx.pending == {}
    ensures ctx.bare == old(ctx.bare) && ctx.checks == old(ctx.checks) && ctx.early == old(ctx.early)
  {
    hide RingSlots, Ring, Requests, Wakes;
    while ctx.pending != {}
      invariant ctx.Valid() && ctx.submitting == {}
      invariant ctx.bare == old(ctx.bare) && ctx.checks == old(ctx.checks) && ctx.early == old(ctx.early)
      decreases |ctx.pending|
    {
      var r :| r in ctx.pending;
      var last := ctx.Complete(r, e, false);
    }
  }

  method Quiet(ctx: Kioctx)
    requires ctx.Valid() && ctx.submitting == {} && ctx.pending == {}
    modifies ctx`waking, ctx`puts, ctx`fputs, ctx`reqsActive, ctx`head, ctx`read, ctx`copied
    ensures ctx.Valid() && ctx.waking == {} && ctx.reqsActive == 0 && ctx.copied == []
  {
    hide RingSlots, Ring, Requests, Wakes;
    WakeAll(ctx);
    FputAll(ctx);
    if ctx.copied != [] {
      var ent := ctx.ReadAdvance();
    }
    NoneActive(ctx.kiUsers, ctx.fputs, ctx.reqsActive);
  }

  method WakeAll(ctx: Kioctx)
    requires ctx.Valid()
    modifies ctx`waking, ctx`puts
    ensures ctx.Valid() && ctx.waking == {}
  {
    hide Kioctx.Valid;
    while ctx.waking != {}
      invariant ctx.Valid()
      decreases |ctx.waking|
    {
      var k :| k in ctx.waking;
      ctx.Wake(k);
    }
  }

  method FputAll(ctx: Kioctx)
    requires ctx.Valid()
    modifies ctx`fputs, ctx`reqsActive, ctx`puts
    ensures ctx.Valid() && ctx.fputs == {}
  {
    hide Kioctx.Valid;
    while ctx.fputs != {}
      invariant ctx.Valid()
      decreases |ctx.fputs|
    {
      var r :| r in ctx.fputs;
      ctx.FputOne(r);
    }
  }

  lemma NoneActive(ki: map<nat, int>, fputs: set<nat>, active: int)
    requires Requests(ki, {}, {}, fputs, active) && fputs == {}
    ensures active == 0
  {
    assert ki.Keys == {};
  }

  method Destroy(ctx: Kioctx)
    requires ctx.Valid() && ctx.waking == {} && ctx.reqsActive == 0 && ctx.copied == []
    modifies ctx`users, ctx`bugged, ctx`lookups, ctx`dead, ctx`puts, ctx`freed, ctx`checks, ctx`shared
    ensures ctx.Valid() && ctx.freed && ctx.checks >= old(ctx.checks)
  {
    hide Kioctx.Valid;
    if !ctx.dead {
      ctx.Lookup();
      ctx.Kill();
    }
    while ctx.lookups > 0
      invariant ctx.Valid() && ctx.dead && ctx.checks == old(ctx.checks)
    {
      ctx.Release();
    }
    PutAll(ctx);
  }

  method PutAll(ctx: Kioctx)
    requires ctx.Valid() && ctx.dead && ctx.lookups == 0 && ctx.waking == {} && ctx.reqsActive == 0
    modifies ctx`users, ctx`puts, ctx`bugged, ctx`freed, ctx`checks, ctx`shared
    ensures ctx.Valid() && ctx.freed && ctx.checks >= old(ctx.checks)
  {
    hide RingSlots, Ring, Requests, Wakes;
    while ctx.puts > 0
      invariant ctx.Valid() && ctx.checks >= old(ctx.checks)
    {
      var last := ctx.Put();
    }
  }

  // ---- when a put may still look at the count

  /**
    A put that is not the last one, with the context on the list or in use by a system call: whatever
    runs, the context is not freed before the put has looked at the count, as long as no destroy takes
    it off the list, or no system call ends.
  */
  method KeptUntilChecked(ctx: Kioctx, sections: seq<Section>, listed: bool)
    requires ctx.Valid() && ctx.puts > 0 && (if listed then !ctx.dead else ctx.lookups > 0)
    requires forall i :: 0 <= i < |sections| ==> !(if listed then sections[i].Kill? else sections[i].Release?)
    modifies ctx, ctx.slots
    ensures ctx.Valid() && !ctx.freed
  {
    hide RingSlots, Ring, Requests, Wakes;
    var last := ctx.Put();
    for n := 0 to |sections|
      invariant ctx.Valid() && if listed then !ctx.dead else ctx.lookups > 0
    {
      var got := Take(ctx, sections[n]);
    }
    ActiveNotNegative(ctx.kiUsers, ctx.submitting, ctx.pending, ctx.fputs, ctx.reqsActive);
  }

  /**
    Without such limits, from every state with a put that is not the last one some run frees the context
    before its look.
  */
  method FreedBeforeChecked(ctx: Kioctx, e: Event)
    requires ctx.Valid() && ctx.puts > 0 && ctx.users > 1
    modifies ctx, ctx.slots
    ensures ctx.Valid() && ctx.freed && ctx.checks > 0 && ctx.early == old(ctx.early)
  {
    hide RingSlots, Ring, Requests, Wakes;
    var last := ctx.Put();
    LetGo(ctx);
    CompleteAll(ctx, e);
    Quiet(ctx);
    Destroy(ctx);
  }

  /** Such a run from a new context to the late look, without any request. */
  method LateCheck(e: Event) returns (ctx: Kioctx)
    ensures ctx.Valid() && ctx.freed && ctx.late && !ctx.early
  {
    hide Kioctx.Valid;
    ctx := new Kioctx(1);
    ctx.Lookup();
    ctx.Kill();
    FreedBeforeChecked(ctx, e);
    ctx.Check();
  }

  // ---- the total of all contexts

  /** The requests all of these contexts may have. */
  ghost function Total(cs: set<Kioctx>): nat
  {
    if cs == {} then 0 else var c :| c in cs; c.maxReqs + Total(cs - {c})
  }

  lemma {:induction false} TotalWithout(cs: set<Kioctx>, c: Kioctx)
    requires c in cs
    ensures Total(cs) == c.maxReqs + Total(cs - {c})
    decreases |cs|
  {
    var d :| d in cs && Total(cs) == d.maxReqs + Total(cs - {d});
    if d != c {
      TotalWithout(cs - {d}, c);
      TotalWithout(cs - {c}, d);
      assert cs - {d} - {c} == cs - {c} - {d};
    }
  }

  /** What nr_events may be, whatever the limit: the sizes of the ring and of the requests fit in 28 bits. */
  predicate NoOverflow(nrEvents: nat, kiocbSize: nat)
    requires kiocbSize > 0
  {
    nrEvents <= 0x10000000 / EVENT_SIZE && nrEvents <= 0x10000000 / kiocbSize
  }

  datatype Alloc = Added | Invalid | Again

  /** A section did what it does, whatever was read. */
  twostate predicate Happened(ctx: Kioctx, s: Section)
    reads ctx
  {
    exists got :: Happens(ctx, s, got)
  }

  /** What was read before and what is read next. */
  lemma NextRead(a: seq<Event>, b: seq<Event>, log: seq<Event>, i: nat, j: nat)
    requires a <= log && |a| == i <= j <= |log| && b == log[i..j]
    ensures a + b <= log && |a + b| == j
  {
  }

  /** All contexts of the system, and the count of what they may use. */
  class System {
    var aioNr: int
    const aioMaxNr: nat
    const kiocbSize: nat
    // The contexts not freed yet, and all that were ever made.
    var contexts: set<Kioctx>
    var made: seq<Kioctx>
    // The events the readers of each context received.
    var delivered: seq<seq<Event>>
    // Added by allocations not decided yet, accepted but not linked yet, and refused or freed but not taken off yet.
    var adding: nat
    var accepted: nat
    var releasing: nat

    /** The contexts share nothing. */
    ghost predicate Apart()
      reads this, made
    {
      forall i, j :: 0 <= i < j < |made| ==> made[i] != made[j] && made[i].slots != made[j].slots
    }

    /** Each context is in order, and its readers have its completions up to some point. */
    ghost predicate AllValid()
      reads this, made, set c | c in made :: c.slots
    {
      && |delivered| == |made|
      && forall i :: 0 <= i < |made| ==>
        made[i].Valid() && made[i].read == |delivered[i]| && delivered[i] <= made[i].log
    }

    /** The contexts counted are exactly those made and not freed. */
    ghost predicate Live()
      reads this, made
    {
      && (forall i :: 0 <= i < |made| ==> (made[i] in contexts <==> !made[i].freed))
      && forall c :: c in contexts ==> c in made
    }

    ghost predicate Valid()
      reads this, made, set c | c in made :: c.slots
    {
      aioNr == Total(contexts) + adding + accepted + releasing && Apart() && AllValid() && Live() && kiocbSize > 0
    }

    constructor (max: nat, size: nat)
      requires size > 0
      ensures Valid() && aioMaxNr == max && kiocbSize == size && made == [] && adding == 0 && accepted == 0 &&
        releasing == 0
    {
      aioNr, aioMaxNr, kiocbSize, contexts, made, delivered := 0, max, size, {}, [], [];
      adding, accepted, releasing := 0, 0, 0;
    }

    /** ioctx_alloc: the request is added to the total first. */
    method AllocAdd(nrEvents: nat) returns (status: Alloc)
      requires Valid()
      modifies `aioNr, `adding
      ensures Valid()
      ensures status == Invalid <==> !NoOverflow(nrEvents, kiocbSize)
      ensures status == Added <==> NoOverflow(nrEvents, kiocbSize) && nrEvents <= aioMaxNr
      ensures adding == old(adding) + if status == Added then nrEvents else 0
    {
      hide Total, Kioctx.Valid;
      if nrEvents > 0x10000000 / EVENT_SIZE || nrEvents > 0x10000000 / kiocbSize {
        return Invalid;
      }
      if nrEvents > aioMaxNr {
        return Again;
      }
      aioNr, adding := aioNr + nrEvents, adding + nrEvents;
      return Added;
    }

    /** Then the total is read: if it is too large, the addition is still to be taken back. */
    method AllocDecide(nrEvents: nat) returns (ok: bool)
      requires Valid() && nrEvents <= adding
      modifies `adding, `accepted, `releasing
      ensures Valid() && adding == old(adding) - nrEvents
      ensures ok <==> aioNr <= aioMaxNr
      ensures accepted == old(accepted) + (if ok then nrEvents else 0) &&
        releasing == old(releasing) + if ok then 0 else nrEvents
    {
      hide Total, Kioctx.Valid;
      ok := aioNr <= aioMaxNr;
      adding := adding - nrEvents;
      if ok {
        accepted := accepted + nrEvents;
      } else {
        releasing := releasing + nrEvents;
      }
    }

    /** A context more, which leaves the others alone. */
    method MakeContext(nrEvents: nat) returns (ctx: Kioctx)
      requires Apart() && AllValid()
      modifies `made, `delivered
      ensures Apart() && AllValid() && made == old(made) + [ctx] && ctx !in old(made)
      ensures fresh(ctx) && fresh(ctx.slots) && ctx.maxReqs == nrEvents && !ctx.freed
    {
      hide Kioctx.Valid;
      ctx := new Kioctx(nrEvents);
      made, delivered := made + [ctx], delivered + [[]];
    }

    /** An accepted context is linked. */
    method AllocLink(nrEvents: nat) returns (ctx: Kioctx)
      requires Valid() && nrEvents <= accepted
      modifies `accepted, `contexts, `made, `delivered
      ensures Valid() && accepted == old(accepted) - nrEvents
      ensures fresh(ctx) && fresh(ctx.slots) && ctx.maxReqs == nrEvents
      ensures contexts == old(contexts) + {ctx} && made == old(made) + [ctx]
    {
      hide Total, Kioctx.Valid;
      ctx := MakeContext(nrEvents);
      TotalWithout(contexts + {ctx}, ctx);
      assert contexts + {ctx} - {ctx} == contexts;
      accepted, contexts := accepted - nrEvents, contexts + {ctx};
    }

    /** put_ioctx on one of the contexts, which leaves the others alone. */
    method PutAt(k: nat) returns (last: bool)
      requires Apart() && AllValid() && k < |made| && made[k].puts > 0
      modifies made[k]
      ensures Apart() && AllValid() && last == made[k].freed && made[k].puts == old(made[k].puts) - 1
      ensures forall i :: 0 <= i < |made| && i != k ==> made[i].freed == old(made[i].freed)
    {
      hide Kioctx.Valid;
      last := made[k].Put();
    }

    /** The last put frees the context, which is then no longer counted. */
    method PutIoctx(k: nat) returns (last: bool)
      requires Valid() && k < |made| && made[k] in contexts && made[k].puts > 0
      modifies `contexts, `releasing, made[k]
      ensures Valid() && last == made[k].freed && made[k].puts == old(made[k].puts) - 1
      ensures contexts == (if last then old(contexts) - {made[k]} else old(contexts))
      ensures releasing == old(releasing) + if last then made[k].maxReqs else 0
    {
      hide Total, Kioctx.Valid;
      var ctx := made[k];
      last := PutAt(k);
      if last {
        TotalWithout(contexts, ctx);
        contexts, releasing := contexts - {ctx}, releasing + ctx.maxReqs;
      }
    }

    /** The subtraction at the end of __put_ioctx, or that of a refused allocation. */
    method SubReleased(n: nat)
      requires Valid() && n <= releasing
      modifies `aioNr, `releasing
      ensures Valid() && releasing == old(releasing) - n && aioNr == old(aioNr) - n
    {
      hide Total, Kioctx.Valid;
      aioNr, releasing := aioNr - n, releasing - n;
    }

    /** A section on one of the contexts, which leaves the others alone. */
    method TakeAt(k: nat, s: Section)
      requires Apart() && AllValid() && k < |made| && !s.Put?
      modifies `delivered, made[k], made[k].slots
      ensures Apart() && AllValid()
      ensures forall i :: 0 <= i < |made| ==> made[i].freed == old(made[i].freed)
      ensures Happened(made[k], s)
    {
      hide Kioctx.Valid;
      var ctx := made[k];
      ghost var was := ctx.read;
      var got := Take(ctx, s);
      NextRead(delivered[k], got, ctx.log, was, ctx.read);
      delivered := delivered[k := delivered[k] + got];
    }

    /** Any other section on a context. */
    method RunSection(k: nat, s: Section)
      requires Valid() && k < |made| && !s.Put?
      modifies `delivered, made[k], made[k].slots
      ensures Valid() && Happened(made[k], s)
      ensures s.Complete? && s.req in old(made[k].pending) ==> made[k].log == old(made[k].log) + [s.event]
    {
      hide Total, Kioctx.Valid, Taken;
      TakeAt(k, s);
    }

    /** One step, if it can be taken: of an allocation, of a release, or on any context. */
    method Step(step: Step)
      requires Valid()
      modifies this, made, set c | c in made :: c.slots
      ensures Valid() && old(made) <= made
      ensures forall i :: |old(made)| <= i < |made| ==> fresh(made[i]) && fresh(made[i].slots)
      ensures step.AllocAdd? && NoOverflow(step.nrEvents, kiocbSize) && step.nrEvents <= aioMaxNr ==>
        adding == old(adding) + step.nrEvents
      ensures step.AllocDecide? && step.nrEvents <= old(adding) ==> adding == old(adding) - step.nrEvents
      ensures step.AllocLink? && step.nrEvents <= old(accepted) ==>
        |made| == |old(made)| + 1 && made[|old(made)|].maxReqs == step.nrEvents
      ensures step.SubReleased? && step.n <= old(releasing) ==> aioNr == old(aioNr) - step.n
      ensures step.On? && step.k < |old(made)| && !step.section.Put? ==> Happened(old(made)[step.k], step.section)
      ensures step.On? && step.section.Put? && step.k < old(|made|) && old(made[step.k] in contexts) ==>
        old(made[step.k].puts > 0) ==> made[step.k].puts == old(made[step.k].puts) - 1
    {
      hide Slot, RingSlots, Holds, Requests, Total, Kioctx.Valid;
      match step
      case AllocAdd(n) => var status := AllocAdd(n);
      case AllocDecide(n) =>
        if n <= adding { var ok := AllocDecide(n); }
      case AllocLink(n) =>
        if n <= accepted { var ctx := AllocLink(n); }
      case SubReleased(n) =>
        if n <= releasing { SubReleased(n); }
      case On(k, s) =>
        if k < |made| && !s.Put? {
          RunSection(k, s);
        } else if k < |made| && made[k] in contexts && made[k].puts > 0 {
          var last := PutIoctx(k);
        }
    }
  }

  /** On(k, s) is section s on the context made k-th. */
  datatype Step =
    | AllocAdd(nrEvents: nat) | AllocDecide(nrEvents: nat) | AllocLink(nrEvents: nat) | SubReleased(n: nat)
    | On(k: nat, section: Section)

  /**
    Every run of a whole system: allocations, destroys, submissions, completions, reads, deferred puts
    and releases on any contexts in any order. No check fires in any context, the readers of each have
    its completions in order and each once, and with no allocation and no release under way aio_nr is
    the sum over the contexts that are not freed. A context is used after it was freed only by the
    wake-up of a completion that came before the submitter had let go, or by the second look at the
    count of a put that was not the last one.
  */
  method RunSystem(max: nat, kiocbSize: nat, steps: seq<Step>) returns (sys: System)
    requires kiocbSize > 0
    ensures sys.Valid() && sys.aioMaxNr == max
    ensures sys.adding == 0 && sys.accepted == 0 && sys.releasing == 0 ==> sys.aioNr == Total(sys.contexts)
    ensures forall i :: 0 <= i < |sys.made| ==> (sys.made[i] in sys.contexts <==> !sys.made[i].freed)
    ensures forall i :: 0 <= i < |sys.made| ==> !sys.made[i].bugged && sys.made[i].users >= sys.made[i].reqsActive
    ensures forall i :: 0 <= i < |sys.made| ==>
      |sys.made[i].pending| <= sys.made[i].nr - 1 - (|sys.made[i].log| - sys.made[i].read)
    ensures forall i :: 0 <= i < |sys.made| ==>
      (sys.made[i].stale ==> sys.made[i].early) && (sys.made[i].late ==> sys.made[i].shared)
    ensures forall i :: 0 <= i < |sys.made| ==> sys.delivered[i] == sys.made[i].log[..sys.made[i].read]
    ensures |steps| == 1 && steps[0].AllocAdd? && steps[0].nrEvents <= max && NoOverflow(steps[0].nrEvents, kiocbSize)
      ==> sys.adding == steps[0].nrEvents
  {
    hide Slot, RingSlots, Holds, Requests, Total;
    sys := new System(max, kiocbSize);
    for n := 0 to |steps|
      invariant fresh(sys) && sys.Valid() && sys.aioMaxNr == max && sys.kiocbSize == kiocbSize &&
        (n == 0 ==> sys.adding == 0)
      invariant n == 1 && steps[0].AllocAdd? && NoOverflow(steps[0].nrEvents, kiocbSize) && steps[0].nrEvents <= max ==>
        sys.adding == steps[0].nrEvents
      invariant forall i :: 0 <= i < |sys.made| ==> fresh(sys.made[i]) && fresh(sys.made[i].slots)
    {
      sys.Step(steps[n]);
    }
  }
}
