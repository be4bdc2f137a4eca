/**
  Several calls of __block_write_full_page on one page. The page is unlocked before the submitting loop
  runs, so once its writeback has ended the next call can begin while that loop is still walking the
  buffers. Where buffers may then be marked, and where not, is what is stated here.
*/
module PageWriters {

  /** A call: how far its loop has come, how many buffers it has submitted, and whether it has returned. */
  datatype Call = Call(at: nat, underway: nat, returned: bool)

  /** The page: the marks of its buffers, all calls so far, and the writes under way. */
  datatype Page = Page(marks: seq<bool>, calls: seq<Call>, inFlight: multiset<nat>, writeback: bool, ends: nat,
    bugged: bool)

  datatype Event = Submit(call: nat) | Done(buffer: nat) | Return(call: nat)

  predicate Clear(marks: seq<bool>)
  {
    forall b :: 0 <= b < |marks| ==> !marks[b]
  }

  function One(b: bool): nat
  {
    if b then 1 else 0
  }

  // ---- steps

  /** A call up to its submitting loop: the buffers are marked under the page lock, which is then released. */
  function Begin(p: Page, marked: set<nat>): Page
  {
    Page(seq(|p.marks|, b => b in marked), p.calls + [Call(0, 0, false)], p.inFlight, true, p.ends,
         p.bugged || p.writeback)
  }

  /** One turn of a submitting loop. */
  function Submitted(p: Page, i: nat): Page
    requires i < |p.calls| && p.calls[i].at < |p.marks|
  {
    var c := p.calls[i];
    if p.marks[c.at] then
      p.(calls := p.calls[i := Call(c.at + 1, c.underway + 1, c.returned)], inFlight := p.inFlight + multiset{c.at})
    else p.(calls := p.calls[i := c.(at := c.at + 1)])
  }

  /** end_buffer_async_write for a buffer. */
  function Completed(p: Page, b: nat): Page
    requires b < |p.marks|
  {
    var marks := p.marks[b := false];
    var q := p.(marks := marks, inFlight := p.inFlight - multiset{b}, bugged := p.bugged || !p.marks[b]);
    if Clear(marks) then q.(writeback := false, ends := p.ends + 1) else q
  }

  /** The end of a call. */
  function Returned(p: Page, i: nat): Page
    requires i < |p.calls|
  {
    var q := p.(calls := p.calls[i := p.calls[i].(returned := true)]);
    if p.calls[i].underway == 0 then q.(writeback := false, ends := p.ends + 1) else q
  }

  function Step(p: Page, e: Event): Page
  {
    match e
    case Submit(i) => if i < |p.calls| && p.calls[i].at < |p.marks| then Submitted(p, i) else p
    case Done(b) => if b in p.inFlight && b < |p.marks| then Completed(p, b) else p
    case Return(i) => if i < |p.calls| && p.calls[i].at == |p.marks| && !p.calls[i].returned then Returned(p, i) else p
  }

  function Steps(p: Page, es: seq<Event>): Page
    decreases |es|
  {
    if es == [] then p else Steps(Step(p, es[0]), es[1..])
  }

  // ---- what should hold

  /**
    No check fires, no buffer is written twice at once, a marked buffer keeps the writeback up, and each
    call ends it once.
  */
  ghost predicate Safe(p: Page)
  {
    && !p.bugged && (forall b :: p.inFlight[b] <= 1)
    && (!Clear(p.marks) ==> p.writeback) && p.ends + One(p.writeback) == |p.calls|
  }

  /** An earlier call has returned, or it has submitted something and has no marked buffer ahead of it. */
  ghost predicate Harmless(p: Page, c: Call)
  {
    && c.at <= |p.marks| && (c.returned ==> c.at == |p.marks|)
    && (!c.returned ==> c.underway > 0) && forall b :: c.at <= b < |p.marks| ==> !p.marks[b]
  }

  /** The latest call has submitted the marked buffers behind it, and they are under way. */
  ghost predicate Current(p: Page, c: Call)
  {
    && c.at <= |p.marks| && (c.returned ==> c.at == |p.marks|)
    && (forall b :: 0 <= b < c.at && p.marks[b] ==> b in p.inFlight)
    && (forall b :: b in p.inFlight ==> b < c.at && p.marks[b])
    && (c.underway == 0 ==> p.inFlight == multiset{})
    && (p.writeback <==> !Clear(p.marks) || (c.underway == 0 && !c.returned))
  }

  ghost predicate Inv(p: Page)
  {
    && Safe(p)
    && (forall i :: 0 <= i < |p.calls| - 1 ==> Harmless(p, p.calls[i]))
    && if p.calls == [] then Clear(p.marks) && p.inFlight == multiset{} &&
      !p.writeback else Current(p, p.calls[|p.calls| - 1])
  }

  /** The buffers to be marked are behind every loop that is still running. */
  ghost predicate Passed(p: Page, marked: set<nat>)
  {
    forall i, b :: 0 <= i < |p.calls| && !p.calls[i].returned && b in marked && b < |p.marks| ==> b < p.calls[i].at
  }

  lemma BeginKeeps(p: Page, marked: set<nat>)
    requires Inv(p) && !p.writeback && Passed(p, marked)
    ensures Inv(Begin(p, marked))
  {
    var q := Begin(p, marked);
    assert p.inFlight == multiset{};
    forall i | 0 <= i < |q.calls| - 1
      ensures Harmless(q, q.calls[i])
    {
      assert q.calls[i] == p.calls[i];
      if i < |p.calls| - 1 {
        assert Harmless(p, p.calls[i]);
      }
    }
  }

  lemma SubmitKeeps(p: Page, i: nat)
    requires Inv(p) && i < |p.calls| && p.calls[i].at < |p.marks|
    ensures Inv(Submitted(p, i))
  {
    var q := Submitted(p, i);
    if i < |p.calls| - 1 {
      assert Harmless(p, p.calls[i]);
    }
    forall j | 0 <= j < |q.calls| - 1
      ensures Harmless(q, q.calls[j])
    {
      assert Harmless(p, p.calls[j]);
    }
  }

  lemma DoneKeeps(p: Page, b: nat)
    requires Inv(p) && b in p.inFlight && b < |p.marks|
    ensures Inv(Completed(p, b))
  {
    var q := Completed(p, b);
    assert p.calls != [];
    assert p.marks[b];
    forall j | 0 <= j < |q.calls| - 1
      ensures Harmless(q, q.calls[j])
    {
      assert Harmless(p, p.calls[j]);
    }
  }

  lemma ReturnKeeps(p: Page, i: nat)
    requires Inv(p) && i < |p.calls| && p.calls[i].at == |p.marks| && !p.calls[i].returned
    ensures Inv(Returned(p, i))
  {
    var q := Returned(p, i);
    if i < |p.calls| - 1 {
      assert Harmless(p, p.calls[i]);
    }
    forall j | 0 <= j < |q.calls| - 1
      ensures Harmless(q, q.calls[j])
    {
      assert Harmless(p, p.calls[j]);
    }
  }

  lemma {:induction false} StepsKeep(p: Page, es: seq<Event>)
    requires Inv(p)
    ensures Inv(Steps(p, es))
    decreases |es|
  {
    if es != [] {
      match es[0] {
        case Submit(i) => if i < |p.calls| && p.calls[i].at < |p.marks| { SubmitKeeps(p, i); }
        case Done(b) => if b in p.inFlight && b < |p.marks| { DoneKeeps(p, b); }
        case Return(i) => if i < |p.calls| && p.calls[i].at == |p.marks| && !p.calls[i].returned { ReturnKeeps(p, i); }
      }
      hide Inv;
      StepsKeep(Step(p, es[0]), es[1..]);
    }
  }

  // ---- whole runs

  /** A run: calls begin, each followed by steps of any of the calls so far and by completions. */
  datatype Round = Round(marked: set<nat>, events: seq<Event>)

  /** Each call begins when no writeback is under way and marks only buffers that every running loop has passed. */
  ghost predicate Spaced(p: Page, rounds: seq<Round>)
    decreases |rounds|
  {
    rounds == []
    || (!p.writeback && Passed(p, rounds[0].marked) &&
    Spaced(Steps(Begin(p, rounds[0].marked), rounds[0].events), rounds[1..]))
  }

  function Rounds(p: Page, rounds: seq<Round>): Page
    decreases |rounds|
  {
    if rounds == [] then p else Rounds(Steps(Begin(p, rounds[0].marked), rounds[0].events), rounds[1..])
  }

  /** A page no call has been made for. */
  lemma StartsSafe(n: nat)
    ensures Inv(Page(seq(n, b => false), [], multiset{}, false, 0, false))
  {
  }

  /** What safe means, and when the checks of the code fire. */
  lemma SafeIs(p: Page, marked: set<nat>, b: nat)
    ensures Safe(p) ==> !p.bugged && p.inFlight[b] <= 1 && (b < |p.marks| && p.marks[b] ==> p.writeback)
    ensures Safe(p) ==> p.ends + (if p.writeback then 1 else 0) == |p.calls|
    ensures Begin(p, marked).bugged <==> p.bugged || p.writeback
    ensures b < |p.marks| ==> (Completed(p, b).bugged <==> p.bugged || !p.marks[b])
  {
  }

  /** Any number of such calls is safe. */
  lemma {:induction false} SpacedIsSafe(p: Page, rounds: seq<Round>)
    requires Inv(p) && Spaced(p, rounds)
    ensures Inv(Rounds(p, rounds)) && Safe(Rounds(p, rounds))
    decreases |rounds|
  {
    hide Steps, Begin, Passed;
    if rounds != [] {
      BeginKeeps(p, rounds[0].marked);
      StepsKeep(Begin(p, rounds[0].marked), rounds[0].events);
      SpacedIsSafe(Steps(Begin(p, rounds[0].marked), rounds[0].events), rounds[1..]);
    }
  }

  // ---- a call that marks a buffer ahead of a running loop

  function Walk(i: nat, n: nat): seq<Event>
  {
    if n == 0 then [] else [Submit(i)] + Walk(i, n - 1)
  }

  /** A loop that walks on to a marked buffer submits it, whoever marked it. */
  lemma {:induction false} WalkSubmits(p: Page, i: nat, b: nat)
    requires i < |p.calls| && p.calls[i].at <= b < |p.marks| && p.marks[b]
    ensures
      var q := Steps(p, Walk(i, b + 1 - p.calls[i].at));
      && q.marks == p.marks && |q.calls| == |p.calls| && q.inFlight[b] > p.inFlight[b]
      && forall j :: 0 <= j < |p.calls| && j != i ==> q.calls[j] == p.calls[j]
    decreases b - p.calls[i].at
  {
    var n := b + 1 - p.calls[i].at;
    var es := Walk(i, n);
    assert es[0] == Submit(i) && es[1..] == Walk(i, n - 1);
    SubmitMoves(p, i, b);
    hide Step;
    if p.calls[i].at < b {
      WalkSubmits(Step(p, Submit(i)), i, b);
    }
  }

  lemma SubmitMoves(p: Page, i: nat, b: nat)
    requires i < |p.calls| && p.calls[i].at <= b < |p.marks| && p.marks[b]
    ensures
      var q := Step(p, Submit(i));
      && q.marks == p.marks && |q.calls| == |p.calls| && q.calls[i].at == p.calls[i].at + 1
      && q.inFlight[b] == p.inFlight[b] + One(p.calls[i].at == b)
      && forall j :: 0 <= j < |p.calls| && j != i ==> q.calls[j] == p.calls[j]
  {
  }

  lemma {:induction false} StepsAppend(p: Page, es: seq<Event>, fs: seq<Event>)
    ensures Steps(p, es + fs) == Steps(Steps(p, es), fs)
    decreases |es|
  {
    if es == [] {
      assert es + fs == fs;
    } else {
      assert (es + fs)[1..] == es[1..] + fs;
      hide Step;
      StepsAppend(Step(p, es[0]), es[1..], fs);
    }
  }

  /** The old loop and the new one both submit the buffer. */
  lemma {:induction false} Twice(p: Page, marked: set<nat>, i: nat, b: nat) returns (es: seq<Event>)
    requires i < |p.calls| && p.calls[i].at <= b < |p.marks| && b in marked
    ensures Steps(Begin(p, marked), es).inFlight[b] > 1
  {
    var q := Begin(p, marked);
    var old', new' := Walk(i, b + 1 - q.calls[i].at), Walk(|p.calls|, b + 1);
    es := old' + new';
    WalkSubmits(q, i, b);
    StepsAppend(q, old', new');
    var r := Steps(q, old');
    hide Steps;
    WalkSubmits(r, |p.calls|, b);
  }

  /**
    Exactly when a call may begin: whatever happens next stays safe if and only if every buffer it
    marks is behind every loop that is still running.
  */
  lemma {:induction false} ExactlyPassed(p: Page, marked: set<nat>)
    requires Inv(p) && !p.writeback
    ensures (forall es :: Safe(Steps(Begin(p, marked), es))) <==> Passed(p, marked)
  {
    hide Steps, Begin;
    if Passed(p, marked) {
      BeginKeeps(p, marked);
      forall es
        ensures Safe(Steps(Begin(p, marked), es))
      {
        StepsKeep(Begin(p, marked), es);
      }
    } else {
      var i, b :| 0 <= i < |p.calls| && !p.calls[i].returned && b in marked && b < |p.marks| && b >= p.calls[i].at;
      var es := Twice(p, marked, i, b);
      assert !Safe(Steps(Begin(p, marked), es));
    }
  }

  lemma {:induction false} TwoSteps(p: Page, a: Event, b: Event)
    ensures Steps(p, [a, b]) == Step(Step(p, a), b)
  {
    hide Step;
    assert [a, b][1..] == [b] && [b][1..] == [];
    assert Steps(Step(p, a), [b]) == Steps(Step(Step(p, a), b), []);
  }

  /** The first of two buffers is written and done while its loop is still before the second. */
  lemma FirstDone()
    ensures Steps(Begin(Page([false, false], [], multiset{}, false, 0, false), {0}), [Submit(0), Done(0)])
            == Page([false, false], [Call(1, 1, false)], multiset{}, false, 1, false)
  {
    var p := Begin(Page([false, false], [], multiset{}, false, 0, false), {0});
    TwoSteps(p, Submit(0), Done(0));
    hide Steps;
    assert p.marks == [true, false];
    assert Step(p, Submit(0)).inFlight == multiset{0};
  }

  /** Then the next call marks the second, and both loops submit it. */
  lemma BothSubmit()
    ensures
      var p := Page([false, false], [Call(1, 1, false)], multiset{}, false, 1, false);
      var q := Begin(p, {1});
      Step(Steps(q, [Submit(0), Submit(1)]), Submit(1)).inFlight[1] == 2
  {
    var p := Page([false, false], [Call(1, 1, false)], multiset{}, false, 1, false);
    var q := Begin(p, {1});
    TwoSteps(q, Submit(0), Submit(1));
    hide Steps;
    assert q.marks == [false, true];
  }
}
