/**
  Page reads and writes of fs/buffer.c: one page has many buffers, each buffer completes on its
  own, and the completion that finds no other buffer under I/O finishes the page. Completions may
  come in any order, also while the page is still being submitted.
*/
module PageIo {

  /** The buffer m places after buffer b on the circular list of n buffers. */
  function After(b: nat, m: nat, n: nat): (i: nat)
    requires b < n && m <= n
    ensures i < n
  {
    if b + m < n then b + m else b + m - n
  }

  /** Every buffer is met within one turn. */
  lemma Around(b: nat, i: nat, n: nat) returns (m: nat)
    requires b < n && i < n
    ensures m < n && After(b, m, n) == i
  {
    m := if b <= i then i - b else i + n - b;
  }

  /** Every flag has one value. */
  ghost predicate Every(flags: seq<bool>, v: bool)
  {
    forall i :: 0 <= i < |flags| ==> flags[i] == v
  }

  /** The first m flags from b on have one value. */
  ghost predicate EveryFrom(flags: seq<bool>, b: nat, m: nat, v: bool)
  {
    b < |flags| && m <= |flags| && forall j :: 0 <= j < m ==> flags[After(b, j, |flags|)] == v
  }

  lemma FullTurn(flags: seq<bool>, b: nat, v: bool)
    requires EveryFrom(flags, b, |flags|, v)
    ensures Every(flags, v)
  {
    forall i | 0 <= i < |flags|
      ensures flags[i] == v
    {
      var m := Around(b, i, |flags|);
    }
  }

  /** Who is marked: the buffers still to be started and those under I/O, no buffer twice. */
  ghost predicate Marked(marks: seq<bool>, todo: seq<nat>, inFlight: set<nat>)
  {
    && (forall i :: 0 <= i < |todo| ==> todo[i] < |marks| && todo[i] !in inFlight)
    && (forall i, j :: 0 <= i < j < |todo| ==> todo[i] != todo[j])
    && (forall b :: b in inFlight ==> b < |marks|)
    && (forall b :: 0 <= b < |marks| ==> (marks[b] <==> (b in todo || b in inFlight)))
  }

  lemma MarkedStart(marks: seq<bool>, todo: seq<nat>, inFlight: set<nat>)
    requires Marked(marks, todo, inFlight) && todo != []
    ensures Marked(marks, todo[1..], inFlight + {todo[0]})
  {
    assert todo == [todo[0]] + todo[1..];
  }

  lemma MarkedEnd(marks: seq<bool>, todo: seq<nat>, inFlight: set<nat>, b: nat)
    requires Marked(marks, todo, inFlight) && b in inFlight
    ensures b < |marks| && marks[b] && Marked(marks[b := false], todo, inFlight - {b})
  {
  }

  // ---- reading a page

  /** What get_block does for a buffer that is not mapped. */
  datatype Lookup = Lookup(fails: bool, maps: bool, fills: bool)

  /**
    The steps of a read: a buffer is started, and a completion has a part before its lock, one under it
    and one after it.
  */
  datatype ReadEvent = Start | Arrive(buffer: nat, ok: bool) | Leave(buffer: nat) | Unlock

  /** A buffer that is not up to date has no block, or none that get_block finds: its part of the page is cleared. */
  predicate Hole(uptodate: bool, mapped: bool, inFile: bool, lookup: Lookup)
  {
    !uptodate && !mapped && !(inFile && lookup.maps)
  }

  /** The buffer has to come from the disk: it is not up to date and has a block that its lookup did not fill. */
  predicate ToRead(uptodate: bool, mapped: bool, inFile: bool, lookup: Lookup)
  {
    !uptodate && (mapped || (inFile && lookup.maps && !lookup.fills))
  }

  /** get_block was asked for the buffer and failed. */
  predicate Failed(uptodate: bool, mapped: bool, inFile: bool, lookup: Lookup)
  {
    !uptodate && !mapped && inFile && lookup.fails
  }

  class ReadPage {
    var uptodate: seq<bool>
    var mapped: seq<bool>
    var locked: seq<bool>
    var asyncRead: seq<bool>
    var pageLocked: bool
    var pageUptodate: bool
    var pageError: bool
    var unlocks: nat
    var bugged: bool
    // Which parts of the page have been cleared.
    var zeroed: seq<bool>
    // The buffers still to be started, those under I/O, and of these the ones whose completion is about to take
    // the lock.
    var todo: seq<nat>
    var inFlight: set<nat>
    var arrived: set<nat>
    // A completion found no other buffer marked and is about to unlock the page; whether it found all of them
    // up to date.
    var leaving: bool
    var leavingUp: bool

    ghost predicate Shape()
      reads this
    {
      |uptodate| == |asyncRead| == |locked| == |mapped| == |zeroed| > 0 && !bugged
    }

    /** A locked page of n buffers, of which nothing is known to be in memory. */
    constructor (n: nat)
      requires n > 0
      ensures Shape() && |uptodate| == n && Every(asyncRead, false) && todo == [] && inFlight == {} && arrived == {}
      ensures pageLocked && !pageUptodate && !pageError && unlocks == 0 && !leaving
      ensures Every(uptodate, false) && Every(mapped, false) && Every(zeroed, false)
    {
      uptodate, mapped, locked, asyncRead := seq(n, b => false), seq(n, b => false), seq(n, b => false),
        seq(n, b => false);
      zeroed, pageLocked, pageUptodate, pageError := seq(n, b => false), true, false, false;
      unlocks, bugged, todo, inFlight, arrived, leaving, leavingUp := 0, false, [], {}, {}, false, false;
    }

    /** A buffer is marked exactly while it waits to be started or is under I/O, and it is locked then. */
    ghost predicate Valid()
      reads this
    {
      && Shape() && Marked(asyncRead, todo, inFlight) && arrived <= inFlight
      && forall b :: 0 <= b < |asyncRead| && asyncRead[b] ==> locked[b]
    }

    /**
      The page is locked until the last marked buffer is done; then it is unlocked once, by the completion
      that found that.
    */
    ghost predicate Decided()
      reads this
    {
      if Every(asyncRead, false) && !leaving then !pageLocked && unlocks == 1 &&
        (pageUptodate <==> Every(uptodate, true) && !pageError)
      else
        && pageLocked && unlocks == 0 && !pageUptodate
        && (leaving ==> Every(asyncRead, false) && (leavingUp <==> Every(uptodate, true)))
    }

    /** The circular walk of end_buffer_async_read: is any buffer still marked, and are all of them up to date? */
    method Busy(b: nat) returns (busy: bool, up: bool)
      requires Valid() && b < |asyncRead|
      modifies `bugged
      ensures !bugged && (busy <==> !Every(asyncRead, false))
      ensures !busy ==> (up <==> Every(uptodate, true))
    {
      busy, up := false, true;
      var tmp, started := b, false;
      ghost var m := 0;
      while !started || tmp != b
        invariant m <= |asyncRead| && tmp == After(b, m, |asyncRead|) && (started <==> m > 0) && !bugged
        invariant EveryFrom(asyncRead, b, m, false)
        invariant if up then EveryFrom(uptodate, b, m, true) else !Every(uptodate, true)
        decreases |asyncRead| - m
      {
        if !uptodate[tmp] {
          up := false;
        }
        if asyncRead[tmp] {
          bugged := bugged || !locked[tmp];
          busy := true;
          return;
        }
        tmp, started := if tmp + 1 == |asyncRead| then 0 else tmp + 1, true;
        m := m + 1;
      }
      FullTurn(asyncRead, b, false);
      if up {
        FullTurn(uptodate, b, true);
      }
    }

    /** end_buffer_async_read before its lock: the result is noted. */
    method Arrive(b: nat, ok: bool)
      requires Valid() && Decided() && b in inFlight && b !in arrived
      modifies `uptodate, `arrived, `bugged, `pageError
      ensures Valid() && Decided() && arrived == old(arrived) + {b}
      ensures uptodate == old(uptodate)[b := ok] && pageError == (old(pageError) || !ok)
    {
      MarkedEnd(asyncRead, todo, inFlight, b);
      OneIsSet(asyncRead, b);
      hide Marked, Every;
      bugged := bugged || !asyncRead[b];
      uptodate := uptodate[b := ok];
      if !ok {
        pageError := true;
      }
      arrived := arrived + {b};
    }

    /** Under its lock: the mark goes, and the walk tells whether this was the last one. */
    method Leave(b: nat)
      requires Valid() && Decided() && b in arrived
      modifies `asyncRead, `locked, `inFlight, `arrived, `bugged, `leaving, `leavingUp
      ensures Valid() && Decided() && inFlight == old(inFlight) - {b} && arrived == old(arrived) - {b} &&
        |asyncRead| == old(|asyncRead|)
      ensures leaving <==> Every(asyncRead, false)
      ensures b < |old(locked)| && locked == old(locked)[b := false]
    {
      hide Marked, Every;
      MarkedEnd(asyncRead, todo, inFlight, b);
      OneIsSet(asyncRead, b);
      asyncRead := asyncRead[b := false];
      locked := locked[b := false];
      inFlight := inFlight - {b};
      arrived := arrived - {b};
      var busy, up := Busy(b);
      if !busy {
        leaving, leavingUp := true, up;
      }
    }

    /** After its lock: the last completion decides the state of the page and unlocks it. */
    method Unlock()
      requires Valid() && Decided() && leaving
      modifies `pageUptodate, `pageLocked, `unlocks, `leaving
      ensures Valid() && Decided() && !leaving && unlocks == old(unlocks) + 1
    {
      hide Marked, Every;
      if leavingUp && !pageError {
        pageUptodate := true;
      }
      pageLocked, unlocks, leaving := false, unlocks + 1, false;
    }

    /**
      One turn of stage three: start the I/O, or begin at once the completion of a buffer that someone
      else has read meanwhile.
    */
    method StartNext()
      requires Valid() && Decided() && todo != []
      modifies this
      ensures Valid() && Decided() && todo == old(todo)[1..] && |asyncRead| == old(|asyncRead|)
      ensures inFlight == old(inFlight) + {old(todo)[0]}
      ensures arrived == old(arrived) + if old(uptodate)[old(todo)[0]] then {old(todo)[0]} else {}
      ensures uptodate == old(uptodate) && pageError == old(pageError)
    {
      var b := todo[0];
      MarkedStart(asyncRead, todo, inFlight);
      MarkedIndex(asyncRead, todo, inFlight);
      hide Marked, Every;
      todo := todo[1..];
      inFlight := inFlight + {b};
      if uptodate[b] {
        Arrive(b, true);
      }
    }

    /** One turn of stage one: has the buffer to be read? */
    method LookUp(b: nat, lookup: Lookup, inFile: bool) returns (read: bool)
      requires Shape() && b < |uptodate|
      modifies `uptodate, `mapped, `pageError, `zeroed
      ensures read <==> !old(uptodate)[b] && (old(mapped)[b] || (inFile && lookup.maps && !lookup.fills))
      ensures Shape() && uptodate == old(uptodate)[b := !read]
      ensures mapped == old(mapped)[b := old(mapped)[b] || (!old(uptodate)[b] && inFile && lookup.maps)]
      ensures zeroed == old(zeroed)[b := old(zeroed)[b] || Hole(old(uptodate)[b], old(mapped)[b], inFile, lookup)]
      ensures pageError == (old(pageError) || Failed(old(uptodate)[b], old(mapped)[b], inFile, lookup))
    {
      read := false;
      if !uptodate[b] {
        if !mapped[b] {
          if inFile {
            pageError := pageError || lookup.fails;
            mapped := mapped[b := lookup.maps];
            uptodate := uptodate[b := lookup.fills];
          }
          if !mapped[b] {
            zeroed := zeroed[b := true];
            uptodate := uptodate[b := true];
          }
        }
        read := !uptodate[b];
      }
    }

    /**
      Stage one of block_read_full_page: buffers that are not up to date are looked up, holes are
      cleared, and the rest will be read. inFile says which blocks lie before the end of the file.
    */
    method Gather(lookups: seq<Lookup>, inFile: seq<bool>) returns (arr: seq<nat>)
      requires Shape() && |lookups| == |inFile| == |uptodate|
      modifies `uptodate, `mapped, `pageError, `zeroed
      ensures Shape() && |uptodate| == old(|uptodate|)
      ensures forall b :: 0 <= b < |zeroed| ==> (zeroed[b] <==>
        old(zeroed)[b] || Hole(old(uptodate)[b], old(mapped)[b], inFile[b], lookups[b]))
      ensures pageError <==>
        old(pageError) || exists b ::
        0 <= b < |inFile| && Failed(old(uptodate)[b], old(mapped)[b], inFile[b], lookups[b])
      ensures (forall i :: 0 <= i < |arr| ==> arr[i] < |uptodate|) &&
        (forall i, j :: 0 <= i < j < |arr| ==> arr[i] < arr[j])
      ensures forall b :: 0 <= b < |uptodate| ==>
        (b in arr <==> ToRead(old(uptodate)[b], old(mapped)[b], inFile[b], lookups[b])) && (uptodate[b] <==> b !in arr)
      ensures forall b :: 0 <= b < |mapped| ==>
        (mapped[b] <==> old(mapped)[b] || (!old(uptodate)[b] && inFile[b] && lookups[b].maps))
    {
      arr := [];
      for b := 0 to |uptodate|
        invariant Shape() && |uptodate| == old(|uptodate|)
        invariant forall c :: b <= c < |uptodate| ==>
          uptodate[c] == old(uptodate)[c] && mapped[c] == old(mapped)[c] && zeroed[c] == old(zeroed)[c]
        invariant forall c :: 0 <= c < b ==> (zeroed[c] <==>
          old(zeroed)[c] || Hole(old(uptodate)[c], old(mapped)[c], inFile[c], lookups[c]))
        invariant pageError <==>
          old(pageError) || exists c :: 0 <= c < b && Failed(old(uptodate)[c], old(mapped)[c], inFile[c], lookups[c])
        invariant (forall i :: 0 <= i < |arr| ==> arr[i] < b) && (forall i, j :: 0 <= i < j < |arr| ==> arr[i] < arr[j])
        invariant forall c :: 0 <= c < b ==>
          (c in arr <==> ToRead(old(uptodate)[c], old(mapped)[c], inFile[c], lookups[c])) &&
            (uptodate[c] <==> c !in arr)
        invariant forall c :: 0 <= c < b ==>
          (mapped[c] <==> old(mapped)[c] || (!old(uptodate)[c] && inFile[c] && lookups[c].maps))
      {
        var read := LookUp(b, lookups[b], inFile[b]);
        if read {
          arr := arr + [b];
        }
      }
    }

    /**
      Stage two: every buffer to be read is locked and marked before any I/O starts; someone may have read
      it meanwhile.
    */
    method MarkAll(arr: seq<nat>, brought: set<nat>)
      requires Shape() && Every(asyncRead, false) && inFlight == {} && arrived == {}
      requires (forall i :: 0 <= i < |arr| ==> arr[i] < |uptodate|) &&
        (forall i, j :: 0 <= i < j < |arr| ==> arr[i] != arr[j])
      modifies `locked, `asyncRead, `uptodate, `todo
      ensures Valid() && todo == arr && |uptodate| == old(|uptodate|)
      ensures forall b :: 0 <= b < |uptodate| ==> (uptodate[b] <==> old(uptodate)[b] || (b in arr && b in brought))
      ensures forall b :: 0 <= b < |locked| ==> (locked[b] <==> old(locked)[b] || b in arr)
    {
      for n := 0 to |arr|
        invariant Shape() && |uptodate| == old(|uptodate|)
        invariant forall b :: 0 <= b < |asyncRead| ==> (asyncRead[b] <==> b in arr[..n]) && (asyncRead[b] ==> locked[b])
        invariant forall b :: 0 <= b < |uptodate| ==>
          (uptodate[b] <==> old(uptodate)[b] || (b in arr[..n] && b in brought))
        invariant forall b :: 0 <= b < |locked| ==> (locked[b] <==> old(locked)[b] || b in arr[..n])
      {
        var b := arr[n];
        assert arr[..n + 1] == arr[..n] + [b];
        locked := locked[b := true];
        if b in brought {
          uptodate := uptodate[b := true];
        }
        asyncRead := asyncRead[b := true];
      }
      assert arr[..|arr|] == arr;
      todo := arr;
    }

    /**
      block_read_full_page up to the start of its I/O. The buffers to be started are exactly those that
      have to come from the disk, in order; the page is up to date at once exactly if there is none and
      no lookup failed, so that each buffer was up to date, was cleared or was filled by its lookup.
    */
    method BlockReadFullPage(lookups: seq<Lookup>, inFile: seq<bool>, brought: set<nat>)
      requires Shape() && |lookups| == |inFile| == |uptodate| && Every(asyncRead, false) && todo == [] &&
        inFlight == {} && arrived == {}
      requires pageLocked && !pageUptodate && unlocks == 0 && !leaving
      modifies this
      ensures Valid() && Decided() && inFlight == {} && |uptodate| == old(|uptodate|)
      ensures forall b :: 0 <= b < |uptodate| ==>
        (b in todo <==> ToRead(old(uptodate)[b], old(mapped)[b], inFile[b], lookups[b]))
      ensures forall i, j :: 0 <= i < j < |todo| ==> todo[i] < todo[j]
      ensures forall b :: 0 <= b < |uptodate| ==> (uptodate[b] <==> b !in todo || b in brought)
      ensures forall b :: 0 <= b < |zeroed| ==> (zeroed[b] <==>
        old(zeroed)[b] || Hole(old(uptodate)[b], old(mapped)[b], inFile[b], lookups[b]))
      ensures pageError <==>
        old(pageError) || exists b ::
        0 <= b < |inFile| && Failed(old(uptodate)[b], old(mapped)[b], inFile[b], lookups[b])
      ensures pageUptodate <==> todo == [] && !pageError
      ensures pageUptodate ==> forall b :: 0 <= b < |uptodate| ==>
        old(uptodate)[b] || zeroed[b] || (inFile[b] && lookups[b].maps && lookups[b].fills)
    {
      hide Every, Marked;
      var arr := Gather(lookups, inFile);
      if arr == [] {
        NothingMarked(asyncRead);
        if !pageError {
          pageUptodate := true;
        }
        pageLocked, unlocks := false, unlocks + 1;
        AllUp(uptodate);
        return;
      }
      MarkAll(arr, brought);
      SomeMarked(asyncRead, todo, inFlight);
    }

    /** What an event that can come does. */
    twostate predicate ReadDone(e: ReadEvent)
      reads this
    {
      match e
      case Start => old(todo) != [] ==> todo == old(todo)[1..]
      case Arrive(b, ok) => b in old(inFlight) && b !in old(arrived) ==> arrived == old(arrived) + {b}
      case Leave(b) => b in old(arrived) ==> inFlight == old(inFlight) - {b}
      case Unlock => old(leaving) ==> !leaving && unlocks == old(unlocks) + 1
    }

    /** One event, if it can come. */
    method ReadStep(e: ReadEvent)
      requires Valid() && Decided()
      modifies this
      ensures Valid() && Decided()
      ensures e.Start? && old(todo) != [] ==> todo == old(todo)[1..] && inFlight == old(inFlight) + {old(todo)[0]}
      ensures e.Arrive? && e.buffer in old(inFlight) && e.buffer !in old(arrived) ==>
        arrived == old(arrived) + {e.buffer} && uptodate == old(uptodate)[e.buffer := e.ok]
      ensures e.Leave? && e.buffer in old(arrived) ==> inFlight == old(inFlight) - {e.buffer}
      ensures e.Unlock? && old(leaving) ==> !leaving && unlocks == old(unlocks) + 1
    {
      hide Marked, Every;
      match e
      case Start =>
        if todo != [] { StartNext(); }
      case Arrive(b, ok) =>
        if b in inFlight && b !in arrived { Arrive(b, ok); }
      case Leave(b) =>
        if b in arrived { Leave(b); }
      case Unlock =>
        if leaving { Unlock(); }
    }

    /**
      Any order of starts and of the parts of completions: the page is unlocked exactly once, by the
      last buffer, and is up to date then exactly if every buffer is and no error was seen.
    */
    method RunRead(events: seq<ReadEvent>)
      requires Valid() && Decided()
      modifies this
      ensures Valid() && Decided()
      ensures todo == [] && inFlight == {} && !leaving ==>
        unlocks == 1 && !pageLocked && (pageUptodate <==> Every(uptodate, true) && !pageError)
      ensures todo != [] || inFlight != {} || leaving ==> unlocks == 0 && pageLocked
      ensures |events| == 1 ==> ReadDone(events[0])
    {
      for n := 0 to |events|
        invariant Valid() && Decided() && (n == 0 ==> unchanged(this)) && (n == 1 ==> ReadDone(events[0]))
      {
        ReadStep(events[n]);
      }
      if todo != [] {
        assert asyncRead[todo[0]];
      } else if inFlight != {} {
        var b :| b in inFlight;
        assert asyncRead[b];
      }
    }

    /** From every state the page can still be unlocked: the rest is started, and the completions come. */
    method FinishRead(results: seq<bool>)
      requires Valid() && Decided() && |results| == |asyncRead|
      modifies this
      ensures Valid() && Decided() && todo == [] && inFlight == {} && !leaving && unlocks == 1 && !pageLocked
    {
      while todo != []
        invariant Valid() && Decided() && |results| == |asyncRead|
        decreases |todo|
      {
        StartNext();
      }
      while inFlight != {}
        invariant Valid() && Decided() && todo == [] && |results| == |asyncRead|
        decreases |inFlight|
      {
        var b :| b in inFlight;
        if b !in arrived {
          Arrive(b, results[b]);
        }
        Leave(b);
      }
      if leaving {
        Unlock();
      }
    }
  }

  lemma NothingMarked(marks: seq<bool>)
    requires Every(marks, false)
    ensures Marked(marks, [], {})
  {
  }

  lemma SomeMarked(marks: seq<bool>, todo: seq<nat>, inFlight: set<nat>)
    requires Marked(marks, todo, inFlight) && todo != []
    ensures !Every(marks, false)
  {
    assert marks[todo[0]];
  }

  lemma AllUp(flags: seq<bool>)
    requires forall b :: 0 <= b < |flags| ==> flags[b]
    ensures Every(flags, true)
  {
  }

  lemma OneIsSet(marks: seq<bool>, b: nat)
    requires b < |marks| && marks[b]
    ensures !Every(marks, false)
  {
  }

  lemma MarkedIndex(marks: seq<bool>, todo: seq<nat>, inFlight: set<nat>)
    requires Marked(marks, todo, inFlight) && todo != []
    ensures todo[0] < |marks| && todo[0] !in inFlight
  {
  }

  // ---- writing a page

  /** A marked buffer keeps its mark and its lock until it has been submitted and is done. */
  ghost predicate Writing(marks: seq<bool>, locked: seq<bool>, marked: set<nat>, at: nat, inFlight: set<nat>,
                          underway: nat)
  {
    && at <= |marks| == |locked|
    && (forall b :: b in marked ==> b < |marks|)
    && (forall b :: b in inFlight ==> b in marked && b < at)
    && (forall b :: 0 <= b < |marks| ==>
      (marks[b] <==> (b in marked && b >= at) || b in inFlight) && (marks[b] ==> locked[b]))
    && (underway == 0 <==> forall b :: b in marked ==> b >= at)
  }

  ghost predicate Nothing(s: set<nat>)
  {
    s == {}
  }

  lemma WritingStart(marks: seq<bool>, locked: seq<bool>, marked: set<nat>)
    requires |marks| == |locked| && forall b :: b in marked ==> b < |marks|
    requires forall b :: 0 <= b < |marks| ==> (marks[b] <==> b in marked) && (marks[b] ==> locked[b])
    ensures Writing(marks, locked, marked, 0, {}, 0) && (Nothing(marked) || !Every(marks, false))
  {
    if marked != {} {
      var b :| b in marked;
      assert marks[b];
    }
  }

  lemma WritingSubmit(marks: seq<bool>, locked: seq<bool>, marked: set<nat>, at: nat, inFlight: set<nat>, underway: nat)
    requires Writing(marks, locked, marked, at, inFlight, underway) && at < |marks|
    ensures marks[at] <==> at in marked
    ensures if marks[at] then Writing(marks, locked, marked, at + 1, inFlight + {at}, underway + 1)
            else Writing(marks, locked, marked, at + 1, inFlight, underway)
  {
    assert forall b :: b in marked && b != at ==> (b >= at <==> b >= at + 1);
  }

  lemma WritingEnd(marks: seq<bool>, locked: seq<bool>, marked: set<nat>, at: nat, inFlight: set<nat>, underway: nat,
                   b: nat)
    requires Writing(marks, locked, marked, at, inFlight, underway) && b in inFlight
    ensures b < |marks| && marks[b] && !Nothing(marked) && !Every(marks, false)
    ensures Writing(marks[b := false], locked[b := false], marked, at, inFlight - {b}, underway)
  {
    assert marks[b];
  }

  /** The steps of a write; a completion has a part before its lock, one under it and one after it. */
  datatype WriteEvent = Submit | Arrive(buffer: nat, ok: bool) | Leave(buffer: nat) | EndWriteback | Return

  class WritePage {
    var uptodate: seq<bool>
    var mapped: seq<bool>
    var dirty: seq<bool>
    var locked: seq<bool>
    var asyncWrite: seq<bool>
    var pageLocked: bool
    var pageDirty: bool
    var pageWriteback: bool
    var pageUptodate: bool
    var pageError: bool
    var ends: nat
    var bugged: bool
    // Where the submitting loop is, what it has submitted, whether the call has returned, and what is under I/O.
    var at: nat
    var underway: nat
    var returned: bool
    var inFlight: set<nat>
    // Of these, the ones whose completion is about to take the lock; and a completion about to end the writeback.
    var arrived: set<nat>
    var ending: bool
    ghost var marked: set<nat>

    ghost predicate Shape()
      reads this
    {
      |uptodate| == |mapped| == |dirty| == |locked| == |asyncWrite| > 0 && !bugged
    }

    ghost predicate Valid()
      reads this
    {
      && Shape() && Writing(asyncWrite, locked, marked, at, inFlight, underway) && (returned ==> at == |asyncWrite|)
      && arrived <= inFlight
    }

    /** A locked page of n dirty buffers without blocks. */
    constructor (n: nat)
      requires n > 0
      ensures Shape() && |dirty| == n && Every(asyncWrite, false) && inFlight == {} && arrived == {} && !ending
      ensures pageLocked && !pageWriteback && !pageError && ends == 0 && Every(dirty, true) && Every(mapped, false)
    {
      uptodate, mapped, dirty, locked := seq(n, b => true), seq(n, b => false), seq(n, b => true), seq(n, b => false);
      asyncWrite, pageLocked, pageDirty, pageWriteback := seq(n, b => false), true, false, false;
      pageUptodate, pageError, ends, bugged := true, false, 0, false;
      at, underway, returned, inFlight, arrived, ending, marked := 0, 0, false, {}, {}, false, {};
    }

    /** Writeback is over: every marked buffer is done, or there was none and the call has returned. */
    ghost predicate Over()
      reads this
    {
      if Nothing(marked) then returned else Every(asyncWrite, false)
    }

    /** It has ended once then, or the completion that found that is about to end it. */
    ghost predicate Decided()
      reads this
    {
      && (ending ==> Over() && !Nothing(marked))
      && pageWriteback == !(Over() && !ending) && ends == if Over() && !ending then 1 else 0
    }

    /** The circular walk of end_buffer_async_write over the other buffers. */
    method Busy(b: nat) returns (busy: bool)
      requires Shape() && b < |asyncWrite| && !asyncWrite[b] &&
        Writing(asyncWrite, locked, marked, at, inFlight, underway)
      modifies `bugged
      ensures !bugged && (busy <==> !Every(asyncWrite, false))
    {
      busy := false;
      var tmp := if b + 1 == |asyncWrite| then 0 else b + 1;
      ghost var m := 1;
      while tmp != b
        invariant 0 < m <= |asyncWrite| && tmp == After(b, m, |asyncWrite|) && !bugged
        invariant EveryFrom(asyncWrite, b, m, false)
        decreases |asyncWrite| - m
      {
        if asyncWrite[tmp] {
          bugged := bugged || !locked[tmp];
          busy := true;
          return;
        }
        tmp := if tmp + 1 == |asyncWrite| then 0 else tmp + 1;
        m := m + 1;
      }
      FullTurn(asyncWrite, b, false);
    }

    /** end_buffer_async_write before its lock: the result is noted. */
    method Arrive(b: nat, ok: bool)
      requires Valid() && Decided() && b in inFlight && b !in arrived
      modifies `uptodate, `arrived, `bugged, `pageError
      ensures Valid() && Decided() && arrived == old(arrived) + {b}
      ensures uptodate == old(uptodate)[b := ok] && pageError == (old(pageError) || !ok)
    {
      WritingEnd(asyncWrite, locked, marked, at, inFlight, underway, b);
      hide Writing, Every, Nothing;
      bugged := bugged || !asyncWrite[b];
      uptodate := uptodate[b := ok];
      if !ok {
        pageError := true;
      }
      arrived := arrived + {b};
    }

    /** Mark and lock of a buffer go. */
    method Clear(b: nat)
      requires Valid() && b in inFlight
      modifies `asyncWrite, `locked, `inFlight, `arrived
      ensures Valid() && b < |asyncWrite| && !asyncWrite[b] && !Nothing(marked) && !Every(old(asyncWrite), false)
      ensures b < |old(locked)| && locked == old(locked)[b := false]
      ensures inFlight == old(inFlight) - {b} && arrived == old(arrived) - {b}
    {
      WritingEnd(asyncWrite, locked, marked, at, inFlight, underway, b);
      hide Writing, Every, Nothing;
      asyncWrite := asyncWrite[b := false];
      locked := locked[b := false];
      inFlight, arrived := inFlight - {b}, arrived - {b};
    }

    /** Under its lock: the mark goes, and the walk tells whether this was the last one. */
    method Leave(b: nat)
      requires Valid() && Decided() && b in arrived
      modifies `asyncWrite, `locked, `inFlight, `arrived, `bugged, `ending
      ensures Valid() && Decided() && inFlight == old(inFlight) - {b} && arrived == old(arrived) - {b}
      ensures ending <==> Every(asyncWrite, false)
      ensures b < |old(locked)| && locked == old(locked)[b := false]
    {
      hide Writing, Every, Nothing;
      Clear(b);
      var busy := Busy(b);
      if !busy {
        ending := true;
      }
    }

    /** After its lock: the last completion ends the writeback. */
    method EndWriteback()
      requires Valid() && Decided() && ending
      modifies `pageWriteback, `ends, `ending
      ensures Valid() && Decided() && !ending && ends == old(ends) + 1
    {
      hide Writing, Every, Nothing;
      pageWriteback, ends, ending := false, ends + 1, false;
    }

    /** One turn of the submitting loop, in the normal path or in the recovery. */
    method SubmitNext(recovering: bool)
      requires Valid() && Decided() && at < |asyncWrite|
      modifies `dirty, `inFlight, `underway, `at
      ensures Valid() && Decided() && at == old(at) + 1 && (asyncWrite[old(at)] <==> old(at) in marked)
      ensures inFlight == (if asyncWrite[old(at)] then old(inFlight) + {old(at)} else old(inFlight))
      ensures underway == old(underway) + if asyncWrite[old(at)] then 1 else 0
      ensures dirty == if asyncWrite[old(at)] && recovering then old(dirty)[old(at) := false] else old(dirty)
    {
      WritingSubmit(asyncWrite, locked, marked, at, inFlight, underway);
      hide Writing, Every;
      if asyncWrite[at] {
        if recovering {
          dirty := dirty[at := false];
        }
        inFlight := inFlight + {at};
        underway := underway + 1;
      }
      at := at + 1;
    }

    /** The end of __block_write_full_page: if nothing was submitted, writeback ends here. */
    method Finish()
      requires Valid() && Decided() && at == |asyncWrite| && !returned
      modifies `pageUptodate, `pageWriteback, `ends, `returned
      ensures Valid() && Decided() && returned
      ensures pageUptodate <==> old(pageUptodate) || (underway == 0 && Every(uptodate, true))
    {
      if underway == 0 {
        var up, i := true, 0;
        while i < |uptodate| && up
          invariant i <= |uptodate|
          invariant if up then forall c :: 0 <= c < i ==> uptodate[c] else !Every(uptodate, true)
        {
          up, i := uptodate[i], i + 1;
        }
        if up {
          pageUptodate := true;
        }
        pageWriteback, ends := false, ends + 1;
      }
      returned := true;
    }

    /**
      Marking, normal path: dirty mapped buffers that can be locked; the page is dirtied again for those
      that cannot.
    */
    method MarkNormal(blocking: bool, held: set<nat>)
      requires Shape() && Every(asyncWrite, false)
      modifies `locked, `dirty, `asyncWrite, `pageDirty, `marked
      ensures Shape() && |asyncWrite| == old(|asyncWrite|)
      ensures forall b :: b in marked <==>
        0 <= b < |asyncWrite| && mapped[b] && old(dirty)[b] && (blocking || b !in held)
      ensures forall b :: 0 <= b < |asyncWrite| ==> (asyncWrite[b] <==> b in marked) && (asyncWrite[b] ==> locked[b])
      ensures forall b :: 0 <= b < |dirty| ==> (dirty[b] <==> old(dirty)[b] && b !in marked)
      ensures forall b :: 0 <= b < |locked| ==>
        (locked[b] <==> b in marked || (old(locked)[b] && (!mapped[b] || (!blocking && b in held))))
      ensures pageDirty <==> old(pageDirty) || (!blocking && exists b :: 0 <= b < |mapped| && mapped[b] && b in held)
    {
      marked := {};
      for b := 0 to |asyncWrite|
        invariant Shape() && |asyncWrite| == old(|asyncWrite|) && |dirty| == |old(dirty)|
        invariant forall c :: b <= c < |asyncWrite| ==> !asyncWrite[c] && dirty[c] == old(dirty)[c]
        invariant forall c :: b <= c < |locked| ==> locked[c] == old(locked)[c]
        invariant forall c :: 0 <= c < b ==> (dirty[c] <==> old(dirty)[c] && c !in marked)
        invariant forall c :: 0 <= c < b ==>
          (locked[c] <==> c in marked || (old(locked)[c] && (!mapped[c] || (!blocking && c in held))))
        invariant pageDirty <==> old(pageDirty) || (!blocking && exists c :: 0 <= c < b && mapped[c] && c in held)
        invariant forall c :: c in marked <==> 0 <= c < b && mapped[c] && old(dirty)[c] && (blocking || c !in held)
        invariant forall c :: 0 <= c < b ==> (asyncWrite[c] <==> c in marked) && (asyncWrite[c] ==> locked[c])
      {
        MarkOne(b, blocking, held);
      }
    }

    /** One turn of the marking loop. */
    method MarkOne(b: nat, blocking: bool, held: set<nat>)
      requires Shape() && b < |asyncWrite| && !asyncWrite[b]
      modifies `locked, `dirty, `asyncWrite, `pageDirty, `marked
      ensures Shape() && |asyncWrite| == old(|asyncWrite|)
      ensures
        var open := mapped[b] && (blocking || b !in held);
        && marked == (if open && old(dirty)[b] then old(marked) + {b} else old(marked))
        && asyncWrite == old(asyncWrite)[b := open && old(dirty)[b]]
        && dirty == old(dirty)[b := old(dirty)[b] && !open]
        && locked == old(locked)[b := if open then old(dirty)[b] else old(locked)[b]]
        && pageDirty == (old(pageDirty) || (mapped[b] && !blocking && b in held))
    {
      if mapped[b] {
        if !blocking && b in held {
          pageDirty := true;
        } else {
          locked := locked[b := true];
          if dirty[b] {
            dirty := dirty[b := false];
            asyncWrite := asyncWrite[b := true];
            marked := marked + {b};
          } else {
            locked := locked[b := false];
          }
        }
      }
    }

    /** Marking, recovery path: the dirty buffers that did get mapped; the others are just cleaned. */
    method MarkRecovery()
      requires Shape() && Every(asyncWrite, false)
      modifies `locked, `dirty, `asyncWrite, `marked
      ensures Shape() && |asyncWrite| == old(|asyncWrite|)
      ensures forall b :: b in marked <==> 0 <= b < |asyncWrite| && mapped[b] && old(dirty)[b]
      ensures forall b :: 0 <= b < |asyncWrite| ==> (asyncWrite[b] <==> b in marked) && (asyncWrite[b] ==> locked[b])
      ensures forall b :: 0 <= b < |dirty| ==>
        (dirty[b] <==> b in marked) && (locked[b] <==> old(locked)[b] || b in marked)
    {
      marked := {};
      for b := 0 to |asyncWrite|
        invariant Shape() && |asyncWrite| == old(|asyncWrite|) && |dirty| == |old(dirty)|
        invariant forall c :: b <= c < |asyncWrite| ==>
          !asyncWrite[c] && dirty[c] == old(dirty)[c] && locked[c] == old(locked)[c]
        invariant forall c :: 0 <= c < b ==>
          (dirty[c] <==> c in marked) && (locked[c] <==> old(locked)[c] || c in marked)
        invariant forall c :: c in marked <==> 0 <= c < b && mapped[c] && old(dirty)[c]
        invariant forall c :: 0 <= c < b ==> (asyncWrite[c] <==> c in marked) && (asyncWrite[c] ==> locked[c])
      {
        if mapped[b] && dirty[b] {
          locked := locked[b := true];
          asyncWrite := asyncWrite[b := true];
          marked := marked + {b};
        } else {
          dirty := dirty[b := false];
        }
      }
    }

    /**
      The mapping loop: buffers past the end of the file are cleaned, dirty unmapped ones get a block,
      until the lookup of one fails. stop is the first buffer whose lookup fails, or the end.
    */
    method MapBuffers(inFile: seq<bool>, maps: seq<bool>) returns (failed: bool, stop: nat)
      requires Shape() && |inFile| == |maps| == |dirty|
      modifies `dirty, `uptodate, `mapped
      ensures Shape() && |dirty| == old(|dirty|) && stop <= |dirty| && (failed <==> stop < |dirty|)
      ensures forall b :: 0 <= b < stop ==> !(old(dirty)[b] && inFile[b] && !old(mapped)[b] && !maps[b])
      ensures failed ==> old(dirty)[stop] && inFile[stop] && !old(mapped)[stop] && !maps[stop]
      ensures forall b :: 0 <= b < stop ==> (dirty[b] <==> old(dirty)[b] && inFile[b])
      ensures forall b :: 0 <= b < stop ==> (mapped[b] <==> old(mapped)[b] || (old(dirty)[b] && inFile[b]))
      ensures forall b :: 0 <= b < stop ==> (uptodate[b] <==> old(uptodate)[b] || !inFile[b])
      ensures forall b :: stop <= b < |dirty| ==>
        dirty[b] == old(dirty)[b] && mapped[b] == old(mapped)[b] && uptodate[b] == old(uptodate)[b]
    {
      for b := 0 to |dirty|
        invariant Shape() && |dirty| == old(|dirty|)
        invariant forall c :: 0 <= c < b ==> !(old(dirty)[c] && inFile[c] && !old(mapped)[c] && !maps[c])
        invariant forall c :: 0 <= c < b ==> (dirty[c] <==> old(dirty)[c] && inFile[c])
        invariant forall c :: 0 <= c < b ==> (mapped[c] <==> old(mapped)[c] || (old(dirty)[c] && inFile[c]))
        invariant forall c :: 0 <= c < b ==> (uptodate[c] <==> old(uptodate)[c] || !inFile[c])
        invariant forall c :: b <= c < |dirty| ==>
          dirty[c] == old(dirty)[c] && mapped[c] == old(mapped)[c] && uptodate[c] == old(uptodate)[c]
      {
        if !inFile[b] {
          dirty := dirty[b := false];
          uptodate := uptodate[b := true];
        } else if !mapped[b] && dirty[b] {
          if !maps[b] {
            return true, b;
          }
          mapped := mapped[b := true];
        }
      }
      return false, |dirty|;
    }

    /**
      __block_write_full_page up to its submitting loop. It fails exactly if some dirty buffer of the
      file without a block does not get one. Marked, and so to be written, are exactly the buffers that
      were dirty, lie in the file and can be locked; after a failure, the dirty ones of the file before
      the failing one and the dirty ones that had a block from there on.
    */
    method BlockWriteFullPage(inFile: seq<bool>, maps: seq<bool>, blocking: bool, held: set<nat>)
      returns (failed: bool, stop: nat)
      requires Shape() && |inFile| == |maps| == |dirty| && Every(asyncWrite, false)
      requires pageLocked && !pageWriteback && ends == 0 && inFlight == {} && arrived == {} && !ending
      modifies this
      ensures Valid() && Decided() && at == 0 && !returned && !pageLocked && pageWriteback
      ensures |dirty| == old(|dirty|) && (failed <==> stop < |dirty|)
      ensures failed <==> exists b :: 0 <= b < |dirty| && old(dirty)[b] && inFile[b] && !old(mapped)[b] && !maps[b]
      ensures forall b :: 0 <= b < stop && b < |dirty| ==> !(old(dirty)[b] && inFile[b] && !old(mapped)[b] && !maps[b])
      ensures !failed ==> forall b :: b in marked <==>
        0 <= b < |dirty| && old(dirty)[b] && inFile[b] && (blocking || b !in held)
      ensures failed ==> forall b :: b in marked <==>
        0 <= b < |dirty| && old(dirty)[b] && if b < stop then inFile[b] else old(mapped)[b]
      ensures !failed ==> forall b :: 0 <= b < |dirty| ==> (dirty[b] <==> old(dirty)[b] && inFile[b] && b !in marked)
      ensures failed ==> forall b :: 0 <= b < |dirty| ==> (dirty[b] <==> b in marked)
      ensures pageError <==> old(pageError) || failed
    {
      hide Every, Writing;
      failed, stop := MapBuffers(inFile, maps);
      if failed {
        MarkRecovery();
        pageError := true;
      } else {
        MarkNormal(blocking, held);
      }
      Begin();
    }

    method Begin()
      requires Shape() && inFlight == {} && arrived == {} && !ending && ends == 0 && forall b :: b in marked ==>
        b < |asyncWrite|
      requires forall b :: 0 <= b < |asyncWrite| ==> (asyncWrite[b] <==> b in marked) && (asyncWrite[b] ==> locked[b])
      modifies `pageWriteback, `pageLocked, `at, `underway, `returned
      ensures Valid() && Decided() && at == 0 && !returned && !pageLocked && pageWriteback
    {
      WritingStart(asyncWrite, locked, marked);
      hide Writing, Every;
      pageWriteback := true;
      pageLocked := false;
      at, underway, returned := 0, 0, false;
    }

    /** What an event that can come does. */
    twostate predicate WriteDone(e: WriteEvent)
      reads this
    {
      match e
      case Submit => old(at) < |old(asyncWrite)| ==> at == old(at) + 1
      case Arrive(b, ok) => b in old(inFlight) && b !in old(arrived) ==> arrived == old(arrived) + {b}
      case Leave(b) => b in old(arrived) ==> inFlight == old(inFlight) - {b}
      case EndWriteback => old(ending) ==> !ending && ends == old(ends) + 1
      case Return => old(at) == |old(asyncWrite)| && !old(returned) ==> returned
    }

    /** One event, if it can come. */
    method WriteStep(recovering: bool, e: WriteEvent)
      requires Valid() && Decided()
      modifies this
      ensures Valid() && Decided() && marked == old(marked) && |asyncWrite| == old(|asyncWrite|)
      ensures e.Submit? && old(at) < |asyncWrite| ==>
        at == old(at) + 1 && inFlight == if old(at) in marked then old(inFlight) + {old(at)} else old(inFlight)
      ensures e.Arrive? && e.buffer in old(inFlight) && e.buffer !in old(arrived) ==>
        arrived == old(arrived) + {e.buffer} && uptodate == old(uptodate)[e.buffer := e.ok]
      ensures e.Leave? && e.buffer in old(arrived) ==> inFlight == old(inFlight) - {e.buffer}
      ensures e.EndWriteback? && old(ending) ==> !ending && ends == old(ends) + 1
      ensures e.Return? && old(at) == |asyncWrite| && !old(returned) ==> returned
    {
      hide Writing, Every, Nothing;
      match e
      case Submit =>
        if at < |asyncWrite| { SubmitNext(recovering); }
      case Arrive(b, ok) =>
        if b in inFlight && b !in arrived { Arrive(b, ok); }
      case Leave(b) =>
        if b in arrived { Leave(b); }
      case EndWriteback =>
        if ending { EndWriteback(); }
      case Return =>
        if at == |asyncWrite| && !returned { Finish(); }
    }

    /**
      Any order of submissions and of the parts of completions: writeback ends exactly once, and never while a
      marked buffer is unsubmitted or unfinished.
    */
    method RunWrite(recovering: bool, events: seq<WriteEvent>)
      requires Valid() && Decided()
      modifies this
      ensures Valid() && Decided()
      ensures (exists b :: 0 <= b < |asyncWrite| && asyncWrite[b]) ==> pageWriteback && ends == 0
      ensures returned && inFlight == {} && !ending ==> !pageWriteback && ends == 1
      ensures |events| == 1 ==> WriteDone(events[0])
    {
      for n := 0 to |events|
        invariant Valid() && Decided() && (n == 0 ==> unchanged(this)) && (n == 1 ==> WriteDone(events[0]))
      {
        WriteStep(recovering, events[n]);
      }
    }

    /** From every state the writeback can still end: the loop goes on, the call returns, and the completions come. */
    method FinishWrite(recovering: bool, results: seq<bool>)
      requires Valid() && Decided() && |results| == |asyncWrite|
      modifies this
      ensures Valid() && Decided() && returned && inFlight == {} && !ending && !pageWriteback && ends == 1
    {
      hide Every, Nothing;
      while at < |asyncWrite|
        invariant Valid() && Decided() && |results| == |asyncWrite| && at <= |asyncWrite|
        decreases |asyncWrite| - at
      {
        SubmitNext(recovering);
      }
      if !returned {
        Finish();
      }
      CompleteAll(results);
      AllDone(asyncWrite, locked, marked, at, inFlight, underway);
      if ending {
        EndWriteback();
      }
    }

    /** The completions of everything under I/O, but for the end of the writeback. */
    method CompleteAll(results: seq<bool>)
      requires Valid() && Decided() && |results| == |asyncWrite| == at && returned
      modifies this
      ensures Valid() && Decided() && inFlight == {} && returned && at == |asyncWrite|
    {
      hide Every, Nothing;
      while inFlight != {}
        invariant Valid() && Decided() && |results| == |asyncWrite| == at && returned
        decreases |inFlight|
      {
        var b :| b in inFlight;
        if b !in arrived {
          Arrive(b, results[b]);
        }
        Leave(b);
      }
    }
  }

  lemma AllDone(marks: seq<bool>, locked: seq<bool>, marked: set<nat>, at: nat, inFlight: set<nat>, underway: nat)
    requires Writing(marks, locked, marked, at, inFlight, underway) && at == |marks| && inFlight == {}
    ensures Every(marks, false)
  {
  }
}
