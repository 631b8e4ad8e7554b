/** The server as written over whole runs: it takes every message exactly once if and only if no
    pass completes more than one, and runs in which it does not. */
module AsWritten {
  import opened Common
  import opened Client
  import opened Dispatch
  import opened EndToEnd
  import opened Passes
  import opened Pipeline
  import opened Rounds
  import opened Traffic
  import opened VectorErase
  import opened Wire
  import H = Handoff

  /** Taken from the queue, never completed, and no longer waiting. */
  ghost predicate Lost(s: State, x: Item) {
    x in s.h.popped && x !in s.waiting && x !in Items(s.completed)
  }

  lemma {:induction false} LossStays(s: State, a: Action, x: Item)
    requires H.Inv(s.h) && AscendingCalls(s.h.read) && WaitingInv(s) && Lost(s, x)
    ensures Lost(Step(false, s, a), x)
  {
    if Enabled(s, a) {
      match a {
        case ReadReady(e) => LossStaysRead(s, e, x);
        case HandOver(b) => LossStaysHandOver(s, b, x);
        case BeginPass =>
        case DispatchNext(sendOk) => LossStaysDispatch(s, sendOk, x);
        case EndPass => LossStaysEnd(s, x);
      }
    }
  }

  lemma LossStaysRead(s: State, e: Ready, x: Item)
    requires Lost(s, x) && Enabled(s, ReadReady(e))
    ensures Lost(ReadStep(s, e), x)
  {
    H.StepHistories(s.h, H.Read(ItemOf(e, s.calls + 1)));
  }

  lemma LossStaysDispatch(s: State, sendOk: bool, x: Item)
    requires Lost(s, x) && Enabled(s, DispatchNext(sendOk))
    ensures Lost(DispatchStep(s, sendOk), x)
  {
    DispatchShape(s, sendOk, DispatchStep(s, sendOk).pass.done[|s.pass.done|]);
  }

  lemma LossStaysHandOver(s: State, b: H.Action<Item>, x: Item)
    requires H.Inv(s.h) && AscendingCalls(s.h.read) && Lost(s, x) && Enabled(s, HandOver(b))
    ensures Lost(HandOverStep(s, b), x)
  {
    if b.PopOne? && s.h.queue != [] {
      var next := s.h.queue[0];
      var h := H.Step(s.h, b);
      assert h.popped == s.h.popped + [next] && h.popped[|s.h.popped|..] == [next];
      PoppedAscending(s.h);
      AscendingSplit(s.h.popped, s.h.queue);
      assert x.call < next.call;
    } else {
      H.StepHistories(s.h, b);
    }
  }

  lemma LossStaysEnd(s: State, x: Item)
    requires WaitingInv(s) && Lost(s, x) && Enabled(s, EndPass)
    ensures Lost(EndStep(false, s), x)
  {
    ErasedFromWaiting(s);
    assert Items(EndStep(false, s).completed) == Items(s.completed);
    H.StepHistories(s.h, H.WorkDone);
  }

  lemma ErasedFromWaiting(s: State)
    requires WaitingInv(s) && Enabled(s, EndPass)
    ensures forall x :: x in EndStep(false, s).waiting ==> x in s.waiting
  {
    var deletes := DoneIndices(s.pass.done);
    if EraseEach(s.waiting, deletes).Some? { EraseKeepsOrder(s.waiting, deletes); }
  }

  lemma {:induction false} LossStaysOver(s: State, run: seq<Action>, x: Item)
    requires Inv(false, s) && Lost(s, x)
    ensures Lost(Exec(false, s, run), x)
    decreases |run|
  {
    if run != [] {
      LossStays(s, run[0], x);
      InvStep(false, s, run[0]);
      LossStaysOver(Step(false, s, run[0]), run[1..], x);
    }
  }

  lemma LostIsNotTakenOnce(s: State, x: Item)
    requires PassShape(s) && Lost(s, x)
    ensures !TakenOnce(s)
  {
    assert x !in Remaining(s) by {
      if s.pass.Dispatching? { ViewsOfLeft(s.mem, s.waiting, s.pass.done); }
    }
    assert multiset(s.h.popped)[x] > 0;
    assert multiset(Items(s.completed))[x] == 0 && multiset(Remaining(s))[x] == 0;
  }

  lemma {:induction false} KeptMember<T>(q: seq<T>, done: seq<bool>, i: nat)
    requires |q| == |done| && i < |q| && !done[i]
    ensures q[i] in Kept(q, done)
  {
    var n := |q| - 1;
    if i < n { KeptMember(q[..n], done[..n], i); }
  }

  lemma LeftMember<T>(q: seq<T>, done: seq<bool>, i: nat)
    requires |done| <= |q| && i < |q| && (i < |done| ==> !done[i])
    ensures q[i] in Left(q, done)
  {
    if i < |done| {
      KeptMember(q[..|done|], done, i);
    } else {
      assert q[i] == q[|done|..][i - |done|];
    }
  }

  /** The last position that the erase hits lies behind all those it should hit, so its entry
      has not been completed. */
  lemma WrongOneErased(q: seq<Item>, done: seq<bool>) returns (i: nat)
    requires |done| <= |q| && AscendingCalls(q) && |DoneIndices(done)| >= 2
    requires EraseEach(q, DoneIndices(done)).Some?
    ensures i < |q| && (i < |done| ==> !done[i]) && q[i] !in EraseEach(q, DoneIndices(done)).value
  {
    var deletes := DoneIndices(done);
    var n := |deletes| - 1;
    assert forall j, k :: 0 <= j < k < |deletes| ==> deletes[j] <= deletes[k];
    EraseEachRemovesShifted(q, deletes);
    i := deletes[n] + n;
    assert Raised(deletes)[n] == i && i in Positions(Raised(deletes));
    assert forall k :: 0 <= k < |deletes| ==> deletes[k] < i;
    WithoutMember(q, Positions(Raised(deletes)), q[i]);
    forall p: nat | p < |q| && q[p] == q[i] ensures p == i {}
  }

  lemma RemainingNotCompleted(s: State, x: Item)
    requires Inv(false, s) && TakenOnce(s) && x in Remaining(s)
    ensures x !in Items(s.completed)
  {
    PoppedAscending(s.h);
    AscendingSplit(s.h.popped, s.h.queue);
    ReadDistinct(s.h.popped);
    Once(s.h.popped, x);
    assert multiset(Remaining(s))[x] >= 1;
    assert multiset(s.h.popped)[x] == multiset(Items(s.completed))[x] + multiset(Remaining(s))[x];
  }

  /** A pass that completes two messages, and does not run off the vector, loses another. */
  lemma {:induction false} BadPassLoses(s: State) returns (x: Item)
    requires Inv(false, s) && TakenOnce(s) && Enabled(s, EndPass)
    requires |DoneIndices(s.pass.done)| >= 2 && !EndStep(false, s).fault
    ensures Lost(EndStep(false, s), x)
  {
    var i := WrongOneErased(s.waiting, s.pass.done);
    x := s.waiting[i];
    LeftMember(s.waiting, s.pass.done, i);
    RemainingNotCompleted(s, x);
    LostAtEnd(s, x);
  }

  lemma LostAtEnd(s: State, x: Item)
    requires Enabled(s, EndPass) && x in s.h.popped && x !in Items(s.completed)
    requires var left := EraseEach(s.waiting, DoneIndices(s.pass.done)); left.Some? && x !in left.value
    ensures Lost(EndStep(false, s), x)
  {
    H.StepHistories(s.h, H.WorkDone);
  }

  lemma {:induction false} FaultStays(s: State, run: seq<Action>)
    requires s.fault
    ensures Exec(false, s, run).fault
    decreases |run|
  {
    if run != [] { FaultStays(Step(false, s, run[0]), run[1..]); }
  }

  lemma {:induction false} BadRunLoses(s: State, run: seq<Action>) returns (x: Item)
    requires Inv(false, s) && TakenOnce(s) && !SinglePasses(s, run) && !Exec(false, s, run).fault
    ensures Lost(Exec(false, s, run), x)
    decreases |run|
  {
    var a, t := run[0], Step(false, s, run[0]);
    InvStep(false, s, a);
    if t.fault { FaultStays(t, run[1..]); }
    if a.EndPass? && Enabled(s, a) && |DoneIndices(s.pass.done)| >= 2 {
      x := BadPassLoses(s);
      LossStaysOver(t, run[1..], x);
    } else {
      SameStep(s, a);
      TakenOnceStep(s, a);
      x := BadRunLoses(t, run[1..]);
    }
  }

  /** As long as no erase has run off the vector, the server as written has taken every message
      exactly once if and only if each of its passes has completed at most one. */
  lemma {:induction false} AsWrittenOnceIff(s: State, mem: string, run: seq<Action>)
    requires Reached(false, s, mem, run) && !s.fault
    ensures TakenOnce(s) <==> SinglePasses(Init(mem), run)
  {
    InvInit(false, mem);
    InvInit(true, mem);
    if SinglePasses(Init(mem), run) {
      SinglePassesAgree(Init(mem), run);
      ReachedInv(true, s, mem, run);
    } else {
      var x := BadRunLoses(Init(mem), run);
      ReachedInv(false, s, mem, run);
      LostIsNotTakenOnce(s, x);
    }
  }

  // ---- runs in which it does not ---------------------------------------------------------------

  ghost predicate WholeEvents(events: seq<Ready>) {
    && |events| < PROCESS_MESSAGES_IN_MAX
    && forall e :: e in events ==> e.result.Received? && HEADER_BYTES <= |e.result.data| <= MSGBUFFER_SIZE
  }

  /** All of them give a message. */
  lemma {:induction false} WholeItems(events: seq<Ready>, calls: nat)
    requires WholeEvents(events)
    ensures |ItemsOf(events, calls)| == |events|
    ensures forall i :: 0 <= i < |events| ==> ItemsOf(events, calls)[i] == ItemOf(events[i], calls + i + 1)
  {
    if events != [] { WholeItems(events[..|events| - 1], calls); }
  }

  /** Some messages arrive at once, are handed over, and the worker passes over them. */
  function Arrival(mem: string, events: seq<Ready>): seq<Action> {
    Reads(events) + Lift(H.TransferRun(Exec(false, Init(mem), Reads(events)).h))
  }

  function OneBatch(mem: string, events: seq<Ready>, ok: nat -> bool): seq<Action> {
    Arrival(mem, events) + Round(Exec(false, Init(mem), Arrival(mem, events)), ok)
  }

  lemma {:induction false} Arrives(mem: string, events: seq<Ready>)
    requires WholeEvents(events)
    ensures var t := Exec(false, Init(mem), Arrival(mem, events));
            && BetweenRounds(t) && t.calls == |events| && t.h.read == ItemsOf(events, 0)
            && ServedBy(Drained(t)) == Served(ItemsOf(events, 0), map[], false)
            && t.h.queue == ItemsOf(events, 0) && t.h.popped == [] && t.completed == []
  {
    var items, read := ItemsOf(events, 0), AfterReads(Init(mem), events);
    ReadsAlone(false, Init(mem), events);
    ExecConcat(false, Init(mem), Reads(events), Lift(H.TransferRun(read.h)));
    TransferAlone(false, read);
    FirstTransfer(mem, events);
  }

  lemma {:induction false} FirstTransfer(mem: string, events: seq<Ready>)
    ensures var read := AfterReads(Init(mem), events);
            var h := H.AfterTransfer(read.h);
            && h.queue == ItemsOf(events, 0) && h.read == ItemsOf(events, 0)
            && h.flag.WroteQueue? && h.popped == [] && h.worker.Checking?
            && read.waiting + h.queue == ItemsOf(events, 0)
  {
    var items, read := ItemsOf(events, 0), AfterReads(Init(mem), events);
    ReverseReverse(items);
    assert read.h.messages == Reverse(items) by { assert Reverse(items) + [] == Reverse(items); }
    assert [] + items == items;
  }

  function DecodedOf(events: seq<Ready>): (r: seq<View>)
    requires forall e :: e in events ==> e.result.Received? && |e.result.data| >= HEADER_BYTES
    ensures |r| == |events|
  {
    seq(|events|, i requires 0 <= i < |events| => assert events[i] in events; Decode(events[i].result.data))
  }

  /** The worker then sees what has been received. */
  lemma {:induction false} ArrivedViews(mem: string, events: seq<Ready>)
    requires |mem| == BLOCK_SIZE && WholeEvents(events)
    ensures ItemViews(Exec(false, Init(mem), Arrival(mem, events)).mem, ItemsOf(events, 0)) == DecodedOf(events)
  {
    var t := Exec(false, Init(mem), Arrival(mem, events));
    Arrives(mem, events);
    ReachedInv(false, t, mem, Arrival(mem, events));
    EarlyViews(t, events);
  }

  lemma {:induction false} EarlyViews(t: State, events: seq<Ready>)
    requires BuffersInv(t) && t.h.read == ItemsOf(events, 0) && WholeEvents(events)
    ensures ItemViews(t.mem, ItemsOf(events, 0)) == DecodedOf(events)
  {
    var items := ItemsOf(events, 0);
    WholeItems(events, 0);
    forall i | 0 <= i < |items| ensures ViewOf(t.mem, items[i].msg) == DecodedOf(events)[i] {
      assert events[i] in events && items[i] in t.h.read;
      assert Protected(t, items[i]) && Intact(t, items[i]);
      IntactView(t, items[i]);
    }
  }

  /** What the server as written makes of one batch that is no larger than a window. */
  lemma {:induction false} OneBatchServed(mem: string, events: seq<Ready>, ok: nat -> bool)
    requires |mem| == BLOCK_SIZE && WholeEvents(events) && |events| <= 256
    ensures var t := Exec(false, Init(mem), OneBatch(mem, events, ok));
            && BetweenRounds(t) && t.h.queue == [] && t.h.popped == ItemsOf(events, 0)
            && AfterOneBatch(t, ItemsOf(events, 0), Window(map[], DecodedOf(events), ok))
  {
    var items, vs := ItemsOf(events, 0), DecodedOf(events);
    var arrived := Exec(false, Init(mem), Arrival(mem, events));
    Arrives(mem, events);
    ArrivedViews(mem, events);
    RoundAlone(false, arrived, ok);
    ExecConcat(false, Init(mem), Arrival(mem, events), Round(arrived, ok));
    assert vs[..|events|] == vs && items[..|events|] == items && [] + items == items;
    ServedAs(Exec(false, Init(mem), OneBatch(mem, events, ok)), arrived.mem, items, vs, ok);
  }

  /** The messages have been served with these results. */
  ghost predicate AfterOneBatch(t: State, items: seq<Item>, win: WindowResult) {
    && |win.done| == |items| && Items(t.completed) == Chosen(items, win.done) && t.store == win.store
    && (t.fault <==> EraseEach(items, DoneIndices(win.done)).None?)
    && (!t.fault ==> EraseEach(items, DoneIndices(win.done)) == Some(t.waiting))
  }

  lemma {:induction false} ServedAs(t: State, mem: string, items: seq<Item>, vs: seq<View>, ok: nat -> bool)
    requires ItemViews(mem, items) == vs && |items| <= 256
    requires ServedBy(t) == PassOn(false, mem, Served(items, map[], false), ok)
    requires Items(t.completed) == CompletedBy(mem, Served(items, map[], false), ok)
    ensures AfterOneBatch(t, items, Window(map[], vs, ok))
  {
    assert vs[..|items|] == vs && items[..|items|] == items;
  }

  /** Two SETs in one batch are enough for the erase to run off the vector. */
  lemma {:induction false} FaultReached(mem: string, events: seq<Ready>, ok: nat -> bool)
    requires |mem| == BLOCK_SIZE && WholeEvents(events) && 2 <= |events| <= 256
    requires forall v :: v in DecodedOf(events) ==> v.kind.Set?
    ensures Exec(false, Init(mem), OneBatch(mem, events, ok)).fault
  {
    var win := Window(map[], DecodedOf(events), ok);
    OneBatchServed(mem, events, ok);
    SetsAllDone(map[], DecodedOf(events), ok);
    AsWrittenFaultsWhenAllDone(ItemsOf(events, 0), win.done);
  }

  lemma {:induction false} SetsAllDone(store: Store, vs: seq<View>, ok: nat -> bool)
    requires forall v :: v in vs ==> v.kind.Set?
    ensures forall i :: 0 <= i < |vs| ==> Window(store, vs, ok).done[i]
  {
    if vs != [] {
      var n := |vs| - 1;
      SetsAllDone(store, vs[..n], ok);
      DispatchFrame(Window(store, vs[..n], ok).store, vs[n], ok(n));
    }
  }

  /** Two SETs for different sessions in front of a GET that finds no mailbox, in one batch: the
      GET is lost, and the second SET is done and waiting at once, so that the next round stores
      its payload again. */
  lemma {:induction false} LossReached(mem: string, a: Ready, b: Ready, get: Ready, ok: nat -> bool)
    requires |mem| == BLOCK_SIZE && WholeEvents([a, b, get])
    requires TwoSetsAndGet(DecodedOf([a, b, get]))
    ensures var t := Exec(false, Init(mem), OneBatch(mem, [a, b, get], ok));
            var again := Exec(false, t, Round(t, ok));
            var second := DecodedOf([a, b, get])[1];
            && !t.fault && Lost(t, ItemOf(get, 3))
            && t.waiting == [ItemOf(b, 2)] && ItemOf(b, 2) in Items(t.completed)
            && MailboxOf(t.store, second.id) == [second.payload]
            && MailboxOf(again.store, second.id) == [second.payload, second.payload]
  {
    var vs := DecodedOf([a, b, get]);
    assert vs == [vs[0], vs[1], vs[2]];
    AsWrittenRepeatsAndLoses(map[], vs[0], vs[1], vs[2], ok);
    LossInFirstRound(mem, a, b, get, ok);
    StoredAgain(mem, a, b, get, ok);
  }

  lemma {:induction false} StoredAgain(mem: string, a: Ready, b: Ready, get: Ready, ok: nat -> bool)
    requires |mem| == BLOCK_SIZE && WholeEvents([a, b, get])
    requires Window(map[], DecodedOf([a, b, get]), ok).done == [true, true, false]
    ensures var t := Exec(false, Init(mem), OneBatch(mem, [a, b, get], ok));
            Exec(false, t, Round(t, ok)).store == Window(t.store, [DecodedOf([a, b, get])[1]], ok).store
  {
    var events := [a, b, get];
    var t := Exec(false, Init(mem), OneBatch(mem, events, ok));
    LossInFirstRound(mem, a, b, get, ok);
    SeenAgain(mem, events, ok);
    WholeItems(events, 0);
    assert ItemViews(t.mem, ItemsOf(events, 0))[1] == DecodedOf(events)[1];
    OneLeft(t, ItemOf(b, 2), DecodedOf(events)[1], ok);
  }

  lemma {:induction false} LossInFirstRound(mem: string, a: Ready, b: Ready, get: Ready, ok: nat -> bool)
    requires |mem| == BLOCK_SIZE && WholeEvents([a, b, get])
    requires var vs := DecodedOf([a, b, get]); Window(map[], vs, ok).done == [true, true, false]
    ensures var t := Exec(false, Init(mem), OneBatch(mem, [a, b, get], ok));
            && BetweenRounds(t) && t.h.queue == [] && !t.fault && t.waiting == [ItemOf(b, 2)]
            && t.store == Window(map[], DecodedOf([a, b, get]), ok).store
            && Lost(t, ItemOf(get, 3)) && ItemOf(b, 2) in Items(t.completed)
  {
    var events := [a, b, get];
    var q := ItemsOf(events, 0);
    ServedOfThree(mem, events, ok);
    WholeItems(events, 0);
    assert q[0] == ItemOf(a, 1) && q[1] == ItemOf(b, 2) && q[2] == ItemOf(get, 3);
    assert q[2] in q && q[2].call == 3 && q[1].call == 2 && q[0].call == 1;
  }

  lemma {:induction false} ServedOfThree(mem: string, events: seq<Ready>, ok: nat -> bool)
    requires |mem| == BLOCK_SIZE && WholeEvents(events) && |events| == 3
    requires Window(map[], DecodedOf(events), ok).done == [true, true, false]
    ensures var t, q := Exec(false, Init(mem), OneBatch(mem, events, ok)), ItemsOf(events, 0);
            && |q| == 3 && BetweenRounds(t) && t.h.queue == [] && t.h.popped == q && !t.fault
            && t.waiting == [q[1]] && Items(t.completed) == [q[0], q[1]]
            && t.store == Window(map[], DecodedOf(events), ok).store
  {
    var t, q := Exec(false, Init(mem), OneBatch(mem, events, ok)), ItemsOf(events, 0);
    OneBatchServed(mem, events, ok);
    WholeItems(events, 0);
    OfThreeEntries(t, q, Window(map[], DecodedOf(events), ok));
  }

  lemma {:induction false} OfThreeEntries(t: State, q: seq<Item>, win: WindowResult)
    requires |q| == 3 && win.done == [true, true, false] && AfterOneBatch(t, q, win)
    ensures !t.fault && t.waiting == [q[1]] && Items(t.completed) == [q[0], q[1]]
  {
    assert q == [q[0], q[1], q[2]] && win == WindowResult(win.store, [true, true, false]);
    OfThree(t, q[0], q[1], q[2], win.store);
  }

  lemma {:induction false} OfThree(t: State, x: Item, y: Item, z: Item, store: Store)
    requires AfterOneBatch(t, [x, y, z], WindowResult(store, [true, true, false]))
    ensures !t.fault && t.waiting == [y] && Items(t.completed) == [x, y]
  {
    SecondKept(x, y, z);
    FirstTwoChosen(x, y, z);
  }

  ghost predicate TwoSetsAndGet(vs: seq<View>) {
    && |vs| == 3 && vs[0].kind.Set? && vs[1].kind.Set? && vs[2].kind.Get?
    && vs[0].payload != "" && vs[1].payload != ""
    && vs[0].id != vs[1].id && vs[2].id != vs[0].id && vs[2].id != vs[1].id
  }

  lemma FirstTwoChosen(x: Item, y: Item, z: Item)
    ensures Chosen([x, y, z], [true, true, false]) == [x, y]
  {
    var q, done := [x, y, z], [true, true, false];
    assert q[..2] == [x, y] && done[..2] == [true, true];
    assert q[..2][..1] == [x] && done[..2][..1] == [true];
    assert Chosen([x], [true]) == [x];
    assert Chosen([x, y], [true, true]) == [x] + [y];
  }

  lemma OneLeft(t: State, item: Item, v: View, ok: nat -> bool)
    requires BetweenRounds(t) && t.h.queue == [] && t.waiting == [item] && ViewOf(t.mem, item.msg) == v
    ensures Exec(false, t, Round(t, ok)).store == Window(t.store, [v], ok).store
  {
    RoundAlone(false, t, ok);
    assert t.waiting + t.h.queue == [item];
    assert ItemViews(t.mem, [item]) == [v] && [v][..1] == [v];
  }

  /** The round has not touched the buffers. */
  lemma SeenAgain(mem: string, events: seq<Ready>, ok: nat -> bool)
    requires |mem| == BLOCK_SIZE && WholeEvents(events)
    ensures ItemViews(Exec(false, Init(mem), OneBatch(mem, events, ok)).mem, ItemsOf(events, 0)) == DecodedOf(events)
  {
    var arrived := Exec(false, Init(mem), Arrival(mem, events));
    Arrives(mem, events);
    ArrivedViews(mem, events);
    RoundAlone(false, arrived, ok);
    ExecConcat(false, Init(mem), Arrival(mem, events), Round(arrived, ok));
  }
}
