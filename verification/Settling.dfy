/** What the repaired server comes to once nothing more arrives, in whatever order the two
    threads take their steps. */
module Settling {
  import opened Common
  import C = Client
  import opened Dispatch
  import opened EndToEnd
  import opened Passes
  import opened Pipeline
  import opened Rounds
  import H = Handoff

  /** A run in which no message is stored: read() finds closed connections only. Transfers of
      the network thread, with nothing to push, may still happen and set the flag. */
  ghost predicate Quiet(run: seq<Action>)
    decreases |run|
  {
    run == [] || (QuietAction(run[0]) && Quiet(run[1..]))
  }

  predicate QuietAction(a: Action) { a.ReadReady? ==> C.Closing(a.ready.result) }

  /** The worker returns from processMessages: a pass ends, or there is nothing to pass over. */
  predicate Returning(s: State, a: Action) {
    Enabled(s, a) && (a.EndPass? || (a.BeginPass? && s.waiting == []))
  }

  /** How often it returns in a run of the repaired server. */
  function Returns(s: State, run: seq<Action>): nat
    decreases |run|
  {
    if run == [] then 0 else (if Returning(s, run[0]) then 1 else 0) + Returns(Step(true, s, run[0]), run[1..])
  }

  /** The network thread has nothing in hand, and what is queued is released. */
  ghost predicate HandsEmpty(h: H.State<Item>) {
    h.messages == [] && h.transfer == [] && (h.queue != [] ==> h.flag.WroteQueue?)
  }

  /** What the worker still has to do. */
  function Pending(s: State): seq<Item>
    requires PassShape(s)
  {
    Remaining(s) + s.h.queue
  }

  ghost predicate QuietInv(s: State) {
    && H.Inv(s.h) && PassShape(s) && HandsEmpty(s.h)
    && Gets(ItemViews(s.mem, Pending(s))) < 256
  }

  /** Nothing is left but GETs on missing or empty mailboxes. */
  ghost predicate Settled(s: State) {
    PassShape(s) && s.h.queue == [] && Stuck(ItemViews(s.mem, Remaining(s)), s.store)
  }

  // ---- one step -----------------------------------------------------------------------------

  /** Steps that only move things: the same messages are pending, over the same store. */
  ghost predicate SamePending(s: State, t: State)
    requires PassShape(s)
  {
    && PassShape(t) && Pending(t) == Pending(s) && t.mem == s.mem && t.store == s.store
    && (s.h.queue == [] ==> t.h.queue == [])
  }

  lemma QuietHandOver(s: State, b: H.Action<Item>)
    requires QuietInv(s) && Enabled(s, HandOver(b))
    ensures var t := HandOverStep(s, b);
            && HandsEmpty(t.h) && SamePending(s, t) && t.pass == s.pass
            && (s.h.worker.Working? ==> t.h.worker.Working? && t.h.queue == s.h.queue)
            && (t.h.worker.Working? && !s.h.worker.Working? ==> t.h.queue == [])
  {
    if b.PopOne? {
      PopPending(s);
    } else {
      H.StepHistories(s.h, b);
    }
  }

  lemma PopPending(s: State)
    requires H.Inv(s.h) && PassShape(s) && HandsEmpty(s.h) && Enabled(s, HandOver(H.PopOne))
    ensures var t := HandOverStep(s, H.PopOne);
            HandsEmpty(t.h) && SamePending(s, t) && t.pass == s.pass && t.h.worker.Popping?
  {
    var t := HandOverStep(s, H.PopOne);
    var next, rest := [s.h.queue[0]], s.h.queue[1..];
    assert t.h.popped[|s.h.popped|..] == next;
    assert t.waiting == s.waiting + next && t.h.queue == rest;
    assert Pending(t) == (s.waiting + next) + rest && Pending(s) == s.waiting + s.h.queue;
    assert s.h.queue == next + rest;
  }

  lemma QuietRead(s: State, e: C.Ready)
    requires QuietInv(s) && Enabled(s, ReadReady(e)) && C.Closing(e.result)
    ensures var t := ReadStep(s, e); t.h == s.h && t.pass == s.pass && SamePending(s, t)
  {
    StoredNothing(s.mem, C.MessagePointer(s.calls + 1), e.result);
  }

  lemma QuietBegin(s: State)
    requires QuietInv(s) && Enabled(s, BeginPass)
    ensures HandsEmpty(Step(true, s, BeginPass).h) && SamePending(s, Step(true, s, BeginPass))
  {
    assert Left(s.waiting, []) == s.waiting;
  }

  lemma QuietEnd(s: State)
    requires PassShape(s) && HandsEmpty(s.h) && Enabled(s, EndPass)
    ensures HandsEmpty(EndStep(true, s).h) && SamePending(s, EndStep(true, s))
  {
    CorrectedPassLeaves(s.waiting, s.pass.done);
  }

  /** A dispatch takes its message off what is pending, or changes nothing at all. */
  lemma QuietDispatch(s: State, sendOk: bool)
    requires QuietInv(s) && Enabled(s, DispatchNext(sendOk))
    ensures var t := DispatchStep(s, sendOk);
            var v := ViewOf(s.mem, s.waiting[|s.pass.done|].msg);
            && PassShape(t) && t.h == s.h && t.mem == s.mem && t.waiting == s.waiting
            && t.pass == Dispatching(s.pass.count, s.pass.done + [CanComplete(s.store, v)])
            && (!CanComplete(s.store, v) ==> SamePending(s, t))
            && (CanComplete(s.store, v) ==> |Pending(t)| < |Pending(s)|)
            && Gets(ItemViews(t.mem, Pending(t))) <= Gets(ItemViews(s.mem, Pending(s)))
  {
    var v := ViewOf(s.mem, s.waiting[|s.pass.done|].msg);
    DispatchFrame(s.store, v, sendOk);
    LeftShrinks(s.waiting, s.pass.done, CanComplete(s.store, v));
    GetsShrink(s.mem, s.waiting, s.pass.done, CanComplete(s.store, v), s.h.queue);
  }

  lemma LeftShrinks<T>(q: seq<T>, done: seq<bool>, isDone: bool)
    requires |done| < |q|
    ensures isDone ==> |Left(q, done + [isDone])| + 1 == |Left(q, done)|
    ensures !isDone ==> Left(q, done + [isDone]) == Left(q, done)
  {
    DecideKept(q, done, isDone);
    var kept, x, rest := Kept(q[..|done|], done), [q[|done|]], q[|done| + 1..];
    assert q[|done|..] == x + rest;
    if !isDone { assert (kept + x) + rest == kept + (x + rest); }
  }

  lemma GetsShrink(mem: string, q: seq<Item>, done: seq<bool>, isDone: bool, queue: seq<Item>)
    requires |done| < |q|
    ensures Gets(ItemViews(mem, Left(q, done + [isDone]) + queue)) <= Gets(ItemViews(mem, Left(q, done) + queue))
  {
    DecideKept(q, done, isDone);
    var kept, x, rest := Kept(q[..|done|], done), [q[|done|]], q[|done| + 1..] + queue;
    if isDone {
      assert q[|done|..] + queue == x + rest;
      assert Left(q, done) + queue == kept + (x + rest);
      assert Left(q, done + [isDone]) + queue == kept + rest;
      FewerGets(mem, kept, x, rest);
    } else {
      LeftShrinks(q, done, isDone);
    }
  }

  lemma FewerGets(mem: string, a: seq<Item>, x: seq<Item>, b: seq<Item>)
    ensures Gets(ItemViews(mem, a + b)) <= Gets(ItemViews(mem, a + (x + b)))
  {
    ViewsConcat(mem, a, b);
    ViewsConcat(mem, a, x + b);
    ViewsConcat(mem, x, b);
    GetsConcat(ItemViews(mem, a), ItemViews(mem, b));
    GetsConcat(ItemViews(mem, a), ItemViews(mem, x + b));
    GetsConcat(ItemViews(mem, x), ItemViews(mem, b));
  }

  lemma ViewsConcat(mem: string, a: seq<Item>, b: seq<Item>)
    ensures ItemViews(mem, a + b) == ItemViews(mem, a) + ItemViews(mem, b)
  {
  }

  lemma QuietInvStep(s: State, a: Action)
    requires QuietInv(s) && QuietAction(a)
    ensures QuietInv(Step(true, s, a))
  {
    HandoffStep(true, s, a);
    if Enabled(s, a) {
      match a {
        case ReadReady(e) => QuietRead(s, e);
        case HandOver(b) => QuietHandOver(s, b);
        case BeginPass => QuietBegin(s);
        case DispatchNext(sendOk) => QuietDispatch(s, sendOk);
        case EndPass => QuietEnd(s);
      }
    }
  }

  // ---- the bound ----------------------------------------------------------------------------

  /** The running pass has completed nothing yet, and an entry ahead of it can complete. */
  ghost predicate Hopeful(s: State) {
    && s.pass.Dispatching? && s.h.queue == []
    && exists k :: HopefulAt(s, k)
  }

  ghost predicate HopefulAt(s: State, k: nat)
    requires s.pass.Dispatching?
  {
    && |s.pass.done| <= k < s.pass.count && k < |s.waiting|
    && CanComplete(s.store, ViewOf(s.mem, s.waiting[k].msg))
  }

  /** After n more returns the server has settled. */
  ghost predicate Bound(s: State, n: nat)
    requires PassShape(s)
  {
    || Settled(s)
    || |Pending(s)| < n
    || (|Pending(s)| == n && (if s.pass.Dispatching? then Hopeful(s) else s.h.worker.Working? ==> s.h.queue == []))
  }

  lemma SettledWithoutBound(s: State)
    requires PassShape(s) && Bound(s, 0)
    ensures Settled(s)
  {
  }

  lemma SettledStays(s: State, t: State)
    requires PassShape(s) && Settled(s) && SamePending(s, t)
    ensures Settled(t)
  {
    assert Remaining(s) == Pending(s) && Remaining(t) == Pending(t);
  }

  lemma BoundHandOver(s: State, b: H.Action<Item>, n: nat)
    requires QuietInv(s) && Enabled(s, HandOver(b)) && Bound(s, n)
    ensures PassShape(HandOverStep(s, b)) && Bound(HandOverStep(s, b), n)
  {
    var t := HandOverStep(s, b);
    QuietHandOver(s, b);
    if Settled(s) {
      SettledStays(s, t);
    } else if |Pending(s)| == n && s.pass.Dispatching? {
      HopeStays(s, t);
    }
  }

  lemma HopeStays(s: State, t: State)
    requires PassShape(s) && Hopeful(s) && t.pass == s.pass && t.waiting == s.waiting && t.mem == s.mem
    requires t.store == s.store && t.h.queue == []
    ensures Hopeful(t)
  {
    var k :| HopefulAt(s, k);
    assert HopefulAt(t, k);
  }

  lemma BoundRead(s: State, e: C.Ready, n: nat)
    requires QuietInv(s) && Enabled(s, ReadReady(e)) && C.Closing(e.result) && Bound(s, n)
    ensures PassShape(ReadStep(s, e)) && Bound(ReadStep(s, e), n)
  {
    var t := ReadStep(s, e);
    QuietRead(s, e);
    if Settled(s) {
      SettledStays(s, t);
    } else if |Pending(s)| == n && s.pass.Dispatching? {
      HopeStays(s, t);
    }
  }

  /** A pass that begins with everything in its reach either finds nothing to complete, or can
      hope to complete something. */
  lemma BoundBegin(s: State, n: nat)
    requires QuietInv(s) && Enabled(s, BeginPass) && s.waiting != [] && Bound(s, n)
    ensures var t := Step(true, s, BeginPass); PassShape(t) && Bound(t, n)
  {
    var t := Step(true, s, BeginPass);
    QuietBegin(s);
    if Settled(s) {
      SettledStays(s, t);
    } else if |Pending(s)| == n {
      var vs := ItemViews(s.mem, s.waiting);
      assert Pending(s) == s.waiting && Remaining(t) == s.waiting by { assert Left(s.waiting, []) == s.waiting; }
      if exists v :: v in vs && CanComplete(s.store, v) {
        var k := CompletableInWindow(vs, s.store);
        assert HopefulAt(t, k);
      }
    }
  }

  lemma BoundDispatch(s: State, sendOk: bool, n: nat)
    requires QuietInv(s) && Enabled(s, DispatchNext(sendOk)) && Bound(s, n)
    ensures PassShape(DispatchStep(s, sendOk)) && Bound(DispatchStep(s, sendOk), n)
  {
    QuietDispatch(s, sendOk);
    if Settled(s) {
      NextIsStuck(s);
      SettledStays(s, DispatchStep(s, sendOk));
    } else if |Pending(s)| == n && !CanComplete(s.store, ViewOf(s.mem, s.waiting[|s.pass.done|].msg)) {
      HopeMoves(s, DispatchStep(s, sendOk));
    }
  }

  lemma HopeMoves(s: State, t: State)
    requires PassShape(s) && Hopeful(s) && |s.pass.done| < |s.waiting|
    requires !CanComplete(s.store, ViewOf(s.mem, s.waiting[|s.pass.done|].msg))
    requires t.pass == Dispatching(s.pass.count, s.pass.done + [false])
    requires t.waiting == s.waiting && t.mem == s.mem && t.store == s.store && t.h.queue == []
    ensures Hopeful(t)
  {
    var k :| HopefulAt(s, k);
    assert k != |s.pass.done|;
    assert HopefulAt(t, k);
  }

  lemma NextIsStuck(s: State)
    requires Settled(s) && s.pass.Dispatching? && |s.pass.done| < |s.waiting|
    ensures !CanComplete(s.store, ViewOf(s.mem, s.waiting[|s.pass.done|].msg))
  {
    var i := |Kept(s.waiting[..|s.pass.done|], s.pass.done)|;
    assert Remaining(s)[i] == s.waiting[|s.pass.done|];
    assert ItemViews(s.mem, Remaining(s))[i] in ItemViews(s.mem, Remaining(s));
  }

  /** A return uses up one of the bound. */
  lemma BoundReturn(s: State, a: Action, n: nat)
    requires QuietInv(s) && Returning(s, a) && Bound(s, n) && n > 0
    ensures PassShape(Step(true, s, a)) && Bound(Step(true, s, a), n - 1)
  {
    var t := Step(true, s, a);
    if a.EndPass? {
      QuietEnd(s);
    } else {
      QuietBegin(s);
    }
    if Settled(s) { SettledStays(s, t); }
  }

  lemma BoundStep(s: State, a: Action, n: nat)
    requires QuietInv(s) && QuietAction(a) && Bound(s, n) && !Returning(s, a)
    ensures PassShape(Step(true, s, a)) && Bound(Step(true, s, a), n)
  {
    if Enabled(s, a) {
      match a {
        case ReadReady(e) => BoundRead(s, e, n);
        case HandOver(b) => BoundHandOver(s, b, n);
        case BeginPass => BoundBegin(s, n);
        case DispatchNext(sendOk) => BoundDispatch(s, sendOk, n);
        case EndPass =>
      }
    }
  }

  lemma {:induction false} SettlesWithin(s: State, run: seq<Action>, n: nat)
    requires QuietInv(s) && Quiet(run) && Bound(s, n) && Returns(s, run) >= n
    ensures QuietInv(Exec(true, s, run)) && Settled(Exec(true, s, run))
    decreases |run|
  {
    if run == [] {
      SettledWithoutBound(s);
    } else {
      var a, t := run[0], Step(true, s, run[0]);
      QuietInvStep(s, a);
      if Returning(s, a) && n > 0 {
        BoundReturn(s, a, n);
        SettlesWithin(t, run[1..], n - 1);
      } else {
        if Returning(s, a) { SettledReturn(s, a); } else { BoundStep(s, a, n); }
        SettlesWithin(t, run[1..], n);
      }
    }
  }

  lemma SettledReturn(s: State, a: Action)
    requires QuietInv(s) && Returning(s, a) && Bound(s, 0)
    ensures PassShape(Step(true, s, a)) && Bound(Step(true, s, a), 0)
  {
    SettledWithoutBound(s);
    if a.EndPass? { QuietEnd(s); } else { QuietBegin(s); }
    SettledStays(s, Step(true, s, a));
  }

  /** Progress of the repaired server, in every interleaving and whatever the writes return: with
      fewer than 256 GETs pending and no message arriving, as many returns of processMessages
      as messages are pending - one more if it is under way at the start - leave nothing but
      GETs on missing or empty mailboxes, for good. */
  lemma ServerProgress(s: State, run: seq<Action>)
    requires QuietInv(s) && Quiet(run)
    requires Returns(s, run) >= |Pending(s)| + if s.h.worker.Checking? then 0 else 1
    ensures Settled(Exec(true, s, run)) && HandsEmpty(Exec(true, s, run).h)
  {
    SettlesWithin(s, run, |Pending(s)| + if s.h.worker.Checking? then 0 else 1);
  }

  // ---- nothing is lost in the end -------------------------------------------------------------

  /** The messages that are still somewhere in the server. */
  function Live(s: State): seq<Item> { s.h.messages + s.h.transfer + s.h.queue + s.waiting }

  /** Each of them is seen as a SET exactly if it is one, and then as it was received. */
  ghost predicate AllAgree(s: State) {
    forall item :: item in Live(s) ==> SetsAgree(ViewOf(s.mem, item.msg), item)
  }

  lemma StillAgree(s: State, t: State)
    requires AllAgree(s) && t.mem == s.mem && forall item :: item in Live(t) ==> item in Live(s)
    ensures AllAgree(t)
  {
  }

  lemma HandOverKeepsLive(s: State, b: H.Action<Item>)
    requires Enabled(s, HandOver(b))
    ensures forall item :: item in Live(HandOverStep(s, b)) ==> item in Live(s)
  {
    if b.PopOne? && s.h.queue != [] {
      assert H.Step(s.h, b).popped[|s.h.popped|..] == [s.h.queue[0]];
    } else {
      H.StepHistories(s.h, b);
    }
  }

  lemma EndKeepsLive(s: State)
    requires PassShape(s) && Enabled(s, EndPass)
    ensures forall item :: item in Live(EndStep(true, s)) ==> item in Live(s)
  {
    CorrectedPassLeaves(s.waiting, s.pass.done);
    ViewsOfLeft(s.mem, s.waiting, s.pass.done);
  }

  lemma AgreeStep(s: State, a: Action)
    requires QuietInv(s) && AllAgree(s) && QuietAction(a)
    ensures AllAgree(Step(true, s, a))
    ensures a.DispatchNext? && Enabled(s, a) ==> SetsSeen(s)
  {
    if Enabled(s, a) {
      match a {
        case ReadReady(e) =>
          QuietRead(s, e);
          StillAgree(s, ReadStep(s, e));
        case HandOver(b) =>
          HandOverKeepsLive(s, b);
          StillAgree(s, HandOverStep(s, b));
        case BeginPass => StillAgree(s, Step(true, s, BeginPass));
        case DispatchNext(sendOk) =>
          assert s.waiting[|s.pass.done|] in Live(s);
          StillAgree(s, DispatchStep(s, sendOk));
        case EndPass =>
          EndKeepsLive(s);
          StillAgree(s, EndStep(true, s));
      }
    }
  }

  lemma {:induction false} QuietIsFaithful(s: State, run: seq<Action>)
    requires QuietInv(s) && AllAgree(s) && Quiet(run)
    ensures Faithful(s, run) && AllAgree(Exec(true, s, run))
    decreases |run|
  {
    if run != [] {
      AgreeStep(s, run[0]);
      QuietInvStep(s, run[0]);
      QuietIsFaithful(Step(true, s, run[0]), run[1..]);
    }
  }

  /** No transfer with messages has met a WROTE flag. */
  ghost predicate NoneRefused(h: H.State<Item>) {
    forall b :: b in h.batches ==> b.accepted || b.items == []
  }

  lemma {:induction false} RefusesNone(s: State, a: Action)
    requires QuietInv(s) && QuietAction(a) && NoneRefused(s.h)
    ensures NoneRefused(Step(true, s, a).h) && Step(true, s, a).h.read == s.h.read
  {
    if !Enabled(s, a) { return; }
    if a.ReadReady? {
      QuietRead(s, a.ready);
    } else {
      StepIsHandoffStep(true, s, a);
      RefusesNoneHandOver(s.h, HandoffAction(s, a));
    }
  }

  lemma RefusesNoneHandOver(h: H.State<Item>, b: H.Action<Item>)
    requires H.Inv(h) && HandsEmpty(h) && NoneRefused(h) && !b.Read?
    ensures NoneRefused(H.Step(h, b)) && H.Step(h, b).read == h.read
  {
    H.StepHistories(h, b);
    if b.TestFlag? && h.net.Testing? {
      assert Reverse(h.transfer) == [];
    } else {
      assert H.Step(h, b).batches == h.batches;
    }
  }

  lemma {:induction false} RefusesNoneOver(s: State, run: seq<Action>)
    requires QuietInv(s) && Quiet(run) && NoneRefused(s.h)
    ensures NoneRefused(Exec(true, s, run).h) && Exec(true, s, run).h.read == s.h.read
    decreases |run|
  {
    if run != [] {
      RefusesNone(s, run[0]);
      QuietInvStep(s, run[0]);
      RefusesNoneOver(Step(true, s, run[0]), run[1..]);
    }
  }

  lemma {:induction false} FaithfulConcat(s: State, a: seq<Action>, b: seq<Action>)
    requires Faithful(s, a) && Faithful(Exec(true, s, a), b)
    ensures Faithful(s, a + b)
    decreases |a|
  {
    if a == [] {
      assert a + b == b;
    } else {
      assert (a + b)[1..] == a[1..] + b;
      FaithfulConcat(Step(true, s, a[0]), a[1..], b);
    }
  }

  lemma {:induction false} NoSets(q: seq<Item>)
    requires forall item :: item in q ==> !IsSet(item)
    ensures SetItems(q) == []
  {
    if q != [] { NoSets(q[..|q| - 1]); }
  }

  lemma SettledHasNoSets(s: State)
    requires AllAgree(s) && Settled(s)
    ensures SetItems(Remaining(s)) == []
  {
    forall item | item in Remaining(s) ensures !IsSet(item) {
      var i :| 0 <= i < |Remaining(s)| && Remaining(s)[i] == item;
      assert ItemViews(s.mem, Remaining(s))[i] in ItemViews(s.mem, Remaining(s));
      RemainingIsLive(s, item);
    }
    NoSets(Remaining(s));
  }

  lemma RemainingIsLive(s: State, item: Item)
    requires PassShape(s) && item in Remaining(s)
    ensures item in Live(s)
  {
    if s.pass.Dispatching? { ViewsOfLeft(s.mem, s.waiting, s.pass.done); }
  }

  lemma QuietlyReached(s: State, mem: string, run: seq<Action>, more: seq<Action>)
    requires Reached(true, s, mem, run) && Faithful(Init(mem), run)
    requires QuietInv(s) && AllAgree(s) && Quiet(more)
    ensures Reached(true, Exec(true, s, more), mem, run + more) && Faithful(Init(mem), run + more)
  {
    QuietIsFaithful(s, more);
    FaithfulConcat(Init(mem), run, more);
    ExecConcat(true, Init(mem), run, more);
  }

  /** So once nothing more arrives, the repaired server brings every session to its due end. From
      any state in which the network thread has its hands empty, no transfer has been lost and
      fewer than 256 GETs are pending, every run in which no message arrives, and the worker
      returns as often as messages are pending, ends with nothing but GETs that wait for a
      payload; and what is then delivered and stored is what a serial server would have
      accepted of all messages read. */
  lemma {:induction false} EventuallyNothingLost(s: State, mem: string, run: seq<Action>, more: seq<Action>, id: string)
    requires Reached(true, s, mem, run) && Faithful(Init(mem), run)
    requires QuietInv(s) && AllAgree(s) && NoneRefused(s.h) && Quiet(more)
    requires Returns(s, more) >= |Pending(s)| + if s.h.worker.Checking? then 0 else 1
    ensures var t := Exec(true, s, more);
            && Settled(t) && t.h.read == s.h.read
            && HandedOver(map[], t.events, id) + Reverse(MailboxOf(t.store, id))
               == Accepted(map[], Serial(Received(s.h.read)), id)
  {
    var t := Exec(true, s, more);
    ServerProgress(s, more);
    RefusesNoneOver(s, more);
    QuietIsFaithful(s, more);
    SettledHasNoSets(t);
    QuietlyReached(s, mem, run, more);
    NothingLost(t, mem, run + more, id);
  }

  lemma EarlyAgree(s: State)
    requires Inv(true, s) && AllProper(s) && s.calls < PROCESS_MESSAGES_IN_MAX
    ensures AllAgree(s)
  {
    forall item | item in Live(s) ensures SetsAgree(ViewOf(s.mem, item.msg), item) {
      LiveWasRead(s, item);
      assert WellRead(item, s.calls) && Protected(s, item);
      IntactAgrees(s, item);
    }
  }

  /** In particular, from the start of the server, for every input of proper messages in at most
      4095 read calls. */
  lemma {:induction false} DeliveredInTheEnd(mem: string, run: seq<Action>, more: seq<Action>, id: string)
    requires |mem| == BLOCK_SIZE && ProperReads(run) && ReadCalls(run) < 4096 && Quiet(more)
    requires var s := Exec(true, Init(mem), run);
             && QuietInv(s) && NoneRefused(s.h)
             && Returns(s, more) >= |Pending(s)| + if s.h.worker.Checking? then 0 else 1
    ensures var s, t := Exec(true, Init(mem), run), Exec(true, Exec(true, Init(mem), run), more);
            HandedOver(map[], t.events, id) + Reverse(MailboxOf(t.store, id))
            == Accepted(map[], Serial(Received(s.h.read)), id)
  {
    var s := Exec(true, Init(mem), run);
    InvInit(true, mem);
    EarlyRunsFaithful(Init(mem), run);
    ProperExec(Init(mem), run);
    ReachedInv(true, s, mem, run);
    EarlyAgree(s);
    EventuallyNothingLost(s, mem, run, more, id);
  }

  // ---- such runs exist ------------------------------------------------------------------------

  lemma {:induction false} QuietConcat(s: State, a: seq<Action>, b: seq<Action>)
    requires Quiet(a) && Quiet(b)
    ensures Quiet(a + b) && Returns(s, a + b) == Returns(s, a) + Returns(Exec(true, s, a), b)
    decreases |a|
  {
    if a == [] {
      assert a + b == b;
    } else {
      assert (a + b)[1..] == a[1..] + b;
      QuietConcat(Step(true, s, a[0]), a[1..], b);
    }
  }

  lemma OneQuiet(s: State, a: Action)
    requires QuietAction(a)
    ensures Quiet([a]) && Returns(s, [a]) == if Returning(s, a) then 1 else 0
  {
    assert [a][1..] == [];
    assert Returns(Step(true, s, a), []) == 0;
  }

  lemma {:induction false} DispatchesQuiet(s: State, ok: nat -> bool, n: nat)
    ensures Quiet(Dispatches(ok, n)) && Returns(s, Dispatches(ok, n)) == 0
  {
    if n > 0 {
      DispatchesQuiet(s, ok, n - 1);
      OneQuiet(Exec(true, s, Dispatches(ok, n - 1)), DispatchNext(ok(n - 1)));
      QuietConcat(s, Dispatches(ok, n - 1), [DispatchNext(ok(n - 1))]);
    }
  }

  lemma {:induction false} LiftQuiet(s: State, run: seq<H.Action<Item>>)
    ensures Quiet(Lift(run)) && Returns(s, Lift(run)) == 0
    decreases |run|
  {
    if run != [] {
      assert Lift(run)[1..] == Lift(run[1..]);
      LiftQuiet(Step(true, s, HandOver(run[0])), run[1..]);
    }
  }

  lemma PassReturns(s: State, ok: nat -> bool)
    requires s.h.worker.Working? && s.pass.Outside?
    ensures Quiet(PassRun(|s.waiting|, ok)) && Returns(s, PassRun(|s.waiting|, ok)) == 1
  {
    OneQuiet(s, BeginPass);
    if s.waiting != [] {
      var w := WindowSize(|s.waiting|);
      var begun := Step(true, s, BeginPass);
      var decided := Exec(true, begun, Dispatches(ok, w));
      DispatchesQuiet(begun, ok, w);
      DispatchesAlone(true, begun, ok, w);
      OneQuiet(decided, EndPass);
      QuietConcat(begun, Dispatches(ok, w), [EndPass]);
      ExecOne(true, s, BeginPass);
      QuietConcat(s, [BeginPass], Dispatches(ok, w) + [EndPass]);
    }
  }

  lemma RoundReturns(s: State, ok: nat -> bool)
    requires BetweenRounds(s)
    ensures Quiet(Round(s, ok)) && Returns(s, Round(s, ok)) == 1
  {
    LiftQuiet(s, H.DrainRun(s.h));
    DrainAlone(true, s);
    PassReturns(Drained(s), ok);
    QuietConcat(s, Lift(H.DrainRun(s.h)), PassRun(|Drained(s).waiting|, ok));
  }

  /** From between two rounds there is such a run with any number of returns, whatever the
      writes return: uninterrupted rounds. */
  lemma {:induction false} RunWithReturns(s: State, ok: (nat, nat) -> bool, p: nat, n: nat) returns (run: seq<Action>)
    requires BetweenRounds(s)
    ensures Quiet(run) && Returns(s, run) == n
    decreases n
  {
    if n == 0 {
      run := [];
    } else {
      var first := Round(s, Row(ok, p));
      RoundAlone(true, s, Row(ok, p));
      var rest := RunWithReturns(Exec(true, s, first), ok, p + 1, n - 1);
      RoundReturns(s, Row(ok, p));
      run := OneRoundMore(s, first, rest, n - 1);
    }
  }

  lemma OneRoundMore(s: State, first: seq<Action>, rest: seq<Action>, n: nat) returns (run: seq<Action>)
    requires Quiet(first) && Returns(s, first) == 1
    requires Quiet(rest) && Returns(Exec(true, s, first), rest) == n
    ensures run == first + rest && Quiet(run) && Returns(s, run) == n + 1
  {
    run := first + rest;
    QuietConcat(s, first, rest);
  }
}
