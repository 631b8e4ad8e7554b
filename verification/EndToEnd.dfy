/** From the bytes that clients send to the payloads that clients get: what the repaired
    server guarantees for each session, in the order in which messages are read. */
module EndToEnd {
  import opened Common
  import opened Client
  import opened Dispatch
  import opened MemoryBlock
  import opened Passes
  import opened Pipeline
  import opened Wire
  import H = Handoff

  /** The view of a message shows a SET if and only if a SET was received, and then that one. */
  predicate SetsAgree(v: View, item: Item) {
    v.kind.Set? || IsSet(item) ==> v == ReceivedView(item)
  }

  /** The next dispatch takes a SET as it was received, and nothing else for a SET. */
  ghost predicate SetsSeen(s: State)
    requires s.pass.Dispatching? && |s.pass.done| < |s.waiting|
  {
    var item := s.waiting[|s.pass.done|];
    SetsAgree(ViewOf(s.mem, item.msg), item)
  }

  /** A run, of whatever length, in which each dispatch does so. */
  ghost predicate Faithful(s: State, run: seq<Action>)
    decreases |run|
  {
    run == [] ||
    ((run[0].DispatchNext? && Enabled(s, run[0]) ==> SetsSeen(s)) && Faithful(Step(true, s, run[0]), run[1..]))
  }

  function ReceivedView(item: Item): View {
    if item.result.Received? && |item.result.data| >= HEADER_BYTES then Decode(item.result.data)
    else View(Mismatch, "", "")
  }

  predicate IsSet(item: Item) { ReceivedView(item).kind.Set? }

  /** The SET messages among some items, in order. */
  function SetItems(items: seq<Item>): seq<Item> { Filter(items, IsSet) }

  function Filter<T>(q: seq<T>, p: T -> bool): (r: seq<T>) {
    if q == [] then []
    else
      var n := |q| - 1;
      Filter(q[..n], p) + (if p(q[n]) then [q[n]] else [])
  }

  lemma {:induction false} FilterConcat<T>(a: seq<T>, b: seq<T>, p: T -> bool)
    ensures Filter(a + b, p) == Filter(a, p) + Filter(b, p)
    decreases |b|
  {
    if b == [] {
      assert a + b == a;
    } else {
      var n := |b| - 1;
      FilterConcat(a, b[..n], p);
      assert (a + b)[..|a + b| - 1] == a + b[..n];
    }
  }

  lemma FilterSnoc<T>(q: seq<T>, x: T, p: T -> bool)
    ensures Filter(q + [x], p) == Filter(q, p) + if p(x) then [x] else []
  {
    assert (q + [x])[..|q|] == q;
  }

  lemma FilterCons<T>(x: T, q: seq<T>, p: T -> bool)
    ensures Filter([x] + q, p) == (if p(x) then [x] else []) + Filter(q, p)
  {
    FilterConcat([x], q, p);
    FilterSnoc([], x, p);
    assert [] + [x] == [x];
  }

  // ---- when a run is faithful ---------------------------------------------------------------

  /** A message with a type, and with a whole header if that is SET. */
  predicate Proper(r: ReadResult) {
    r.Received? && |r.data| >= 3 && (r.data[..3] == MSG_INDICATOR_SET ==> |r.data| >= HEADER_BYTES)
  }

  /** An intact buffer shows what was received. */
  lemma IntactView(s: State, item: Item)
    requires BuffersInv(s) && item in s.h.read && Whole(item) && Intact(s, item)
    ensures ViewOf(s.mem, item.msg) == ReceivedView(item)
  {
    assert WellRead(item, s.calls);
    SmallModulus(|item.result.data|, TWO_TO_THE_16);
    ViewOfWholeBuffer(s.mem, item.msg, item.result.data);
  }

  lemma IntactAgrees(s: State, item: Item)
    requires BuffersInv(s) && item in s.h.read && Proper(item.result) && Intact(s, item)
    ensures SetsAgree(ViewOf(s.mem, item.msg), item)
  {
    if Whole(item) {
      IntactView(s, item);
    } else {
      assert WellRead(item, s.calls);
      HeldSlice(s.mem, item.msg.ptr, item.result.data, 0, 3);
      assert item.result.data[0..3] == item.result.data[..3];
    }
  }

  /** What can be told from the reads alone: a proper message is seen as it was received if it
      stems from one of the first 4095 calls, or each of its bytes is the last one stored at its
      place. */
  lemma ProperSeen(s: State, mem: string, run: seq<Action>, sendOk: bool)
    requires Reached(true, s, mem, run) && Enabled(s, DispatchNext(sendOk))
    requires var item := s.waiting[|s.pass.done|]; Proper(item.result) && StillStored(s.h.read, item)
    ensures SetsSeen(s)
  {
    var item := s.waiting[|s.pass.done|];
    ReachedInv(true, s, mem, run);
    LiveWasRead(s, item);
    IntactIff(true, s, mem, run, item);
    IntactAgrees(s, item);
  }

  /** What can be told from the input of a run: all messages are proper, and there are few. */
  ghost predicate ProperReads(run: seq<Action>)
    decreases |run|
  {
    run == [] ||
    ((run[0].ReadReady? ==> Closing(run[0].ready.result) || Proper(run[0].ready.result)) && ProperReads(run[1..]))
  }

  function ReadCalls(run: seq<Action>): nat
    decreases |run|
  {
    if run == [] then 0 else (if run[0].ReadReady? then 1 else 0) + ReadCalls(run[1..])
  }

  ghost predicate AllProper(s: State) { forall item :: item in s.h.read ==> Proper(item.result) }

  lemma ProperStep(s: State, a: Action)
    requires H.Inv(s.h) && AllProper(s) && (a.ReadReady? ==> Closing(a.ready.result) || Proper(a.ready.result))
    ensures AllProper(Step(true, s, a)) && Step(true, s, a).calls <= s.calls + if a.ReadReady? then 1 else 0
  {
    HandoffStep(true, s, a);
  }

  lemma EarlySeen(s: State, sendOk: bool)
    requires Inv(true, s) && AllProper(s) && s.calls < PROCESS_MESSAGES_IN_MAX && Enabled(s, DispatchNext(sendOk))
    ensures SetsSeen(s)
  {
    var item := s.waiting[|s.pass.done|];
    LiveWasRead(s, item);
    assert WellRead(item, s.calls) && Protected(s, item);
    IntactAgrees(s, item);
  }

  /** Every run of at most 4095 read calls, all of them closing or with a proper message, is
      faithful - in whatever interleaving. */
  lemma {:induction false} EarlyRunsFaithful(s: State, run: seq<Action>)
    requires Inv(true, s) && AllProper(s) && ProperReads(run)
    requires s.calls + ReadCalls(run) < 4096
    ensures Faithful(s, run)
    decreases |run|
  {
    if run != [] {
      if run[0].DispatchNext? && Enabled(s, run[0]) { EarlySeen(s, run[0].sendOk); }
      ProperStep(s, run[0]);
      InvStep(true, s, run[0]);
      EarlyRunsFaithful(Step(true, s, run[0]), run[1..]);
    }
  }

  lemma {:induction false} ProperExec(s: State, run: seq<Action>)
    requires Inv(true, s) && AllProper(s) && ProperReads(run)
    ensures AllProper(Exec(true, s, run)) && Exec(true, s, run).calls <= s.calls + ReadCalls(run)
    decreases |run|
  {
    if run != [] {
      ProperStep(s, run[0]);
      InvStep(true, s, run[0]);
      ProperExec(Step(true, s, run[0]), run[1..]);
    }
  }

  // ---- the order of the SETs ----------------------------------------------------------------

  /** The entries of the current pass that have been dispatched and are not done. */
  function Retained(s: State): seq<Item>
    requires PassShape(s)
  {
    if s.pass.Outside? then [] else Kept(s.waiting[..|s.pass.done|], s.pass.done)
  }

  /** The SETs taken from the queue are, in order, those applied, then those still remaining;
      no SET is ever passed over; and each completed SET is the one received. */
  ghost predicate OrderInv(s: State) {
    && PassShape(s)
    && SetItems(s.h.popped) == SetItems(Items(s.completed)) + SetItems(Remaining(s))
    && SetItems(Retained(s)) == []
    && forall c :: c in s.completed ==> SetsAgree(c.event.view, c.item)
  }

  lemma OrderHandOver(s: State, b: H.Action<Item>)
    requires OrderInv(s) && Enabled(s, HandOver(b)) && TakenOnce(s)
    ensures OrderInv(HandOverStep(s, b))
  {
    if b.PopOne? && s.h.queue != [] {
      OrderPop(s);
    } else {
      H.StepHistories(s.h, b);
      assert H.Step(s.h, b).popped == s.h.popped;
    }
  }

  lemma OrderPop(s: State)
    requires OrderInv(s) && Enabled(s, HandOver(H.PopOne)) && TakenOnce(s) && s.h.queue != []
    ensures OrderInv(HandOverStep(s, H.PopOne))
  {
    var next := s.h.queue[0];
    PopShape(s);
    FilterSnoc(s.h.popped, next, IsSet);
    FilterSnoc(s.waiting, next, IsSet);
    Regroup(SetItems(Items(s.completed)), SetItems(s.waiting), if IsSet(next) then [next] else []);
  }

  lemma PopShape(s: State)
    requires PassShape(s) && Enabled(s, HandOver(H.PopOne)) && s.h.queue != []
    ensures var s', next := HandOverStep(s, H.PopOne), [s.h.queue[0]];
            && s.pass.Outside? && s'.pass == s.pass && s'.completed == s.completed
            && s'.h.popped == s.h.popped + next && s'.waiting == s.waiting + next
  {
    var h := H.Step(s.h, H.PopOne);
    assert h.popped == s.h.popped + [s.h.queue[0]];
    assert h.popped[|s.h.popped|..] == [s.h.queue[0]];
  }

  /** What one more decision changes in the retained entries ... */
  lemma DecideKept<T>(q: seq<T>, done: seq<bool>, isDone: bool)
    requires |done| < |q|
    ensures Kept(q[..|done| + 1], done + [isDone]) == Kept(q[..|done|], done) + if isDone then [] else [q[|done|]]
  {
    var n := |done|;
    assert q[..n + 1][..n] == q[..n] && (done + [isDone])[..n] == done;
  }

  lemma DecideRetained<T>(q: seq<T>, done: seq<bool>, isDone: bool, p: T -> bool)
    requires |done| < |q| && Filter(Kept(q[..|done|], done), p) == []
    requires p(q[|done|]) ==> isDone
    ensures Filter(Kept(q[..|done| + 1], done + [isDone]), p) == []
  {
    var kept, kept', x := Kept(q[..|done|], done), Kept(q[..|done| + 1], done + [isDone]), q[|done|];
    DecideKept(q, done, isDone);
    if isDone {
      assert kept' == kept;
    } else {
      assert kept' == kept + [x];
      FilterSnoc(kept, x, p);
    }
  }

  /** ... and in the remaining ones. */
  lemma {:induction false} DecideRemaining<T>(q: seq<T>, done: seq<bool>, isDone: bool, p: T -> bool)
    requires |done| < |q| && Filter(Kept(q[..|done|], done), p) == []
    requires p(q[|done|]) ==> isDone
    ensures Filter(Left(q, done), p) == (if p(q[|done|]) then [q[|done|]] else []) + Filter(Left(q, done + [isDone]), p)
  {
    var x, rest := q[|done|], q[|done| + 1..];
    DecideRetained(q, done, isDone, p);
    LeftSkips(q, done, p);
    LeftSkips(q, done + [isDone], p);
    FilterCons(x, rest, p);
    assert q[|done|..] == [x] + rest;
  }

  lemma LeftSkips<T>(q: seq<T>, done: seq<bool>, p: T -> bool)
    requires |done| <= |q| && Filter(Kept(q[..|done|], done), p) == []
    ensures Filter(Left(q, done), p) == Filter(q[|done|..], p)
  {
    SkipNone(Kept(q[..|done|], done), q[|done|..], p);
  }

  lemma SkipNone<T>(a: seq<T>, b: seq<T>, p: T -> bool)
    requires Filter(a, p) == []
    ensures Filter(a + b, p) == Filter(b, p)
  {
    FilterConcat(a, b, p);
  }

  lemma RemainingAfter(s: State, sendOk: bool, isDone: bool)
    requires OrderInv(s) && Enabled(s, DispatchNext(sendOk))
    requires isDone == DispatchStep(s, sendOk).pass.done[|s.pass.done|] && (IsSet(s.waiting[|s.pass.done|]) ==> isDone)
    ensures var s', item := DispatchStep(s, sendOk), s.waiting[|s.pass.done|];
            && PassShape(s') && SetItems(Retained(s')) == []
            && SetItems(Remaining(s)) == (if IsSet(item) then [item] else []) + SetItems(Remaining(s'))
  {
    DispatchShape(s, sendOk, isDone);
    DecideRetained(s.waiting, s.pass.done, isDone, IsSet);
    DecideRemaining(s.waiting, s.pass.done, isDone, IsSet);
  }

  lemma OrderDispatch(s: State, sendOk: bool)
    requires OrderInv(s) && Enabled(s, DispatchNext(sendOk))
    requires SetsSeen(s)
    ensures OrderInv(DispatchStep(s, sendOk))
  {
    var s', item := DispatchStep(s, sendOk), s.waiting[|s.pass.done|];
    var isDone := s'.pass.done[|s.pass.done|];
    DoneIfSet(s, sendOk, isDone);
    RemainingAfter(s, sendOk, isDone);
    DispatchCompletes(s, sendOk, isDone);
    Regroup(SetItems(Items(s.completed)), if IsSet(item) then [item] else [], SetItems(Remaining(s')));
  }

  lemma Regroup<T>(a: seq<T>, b: seq<T>, c: seq<T>)
    ensures a + (b + c) == (a + b) + c
  {
  }

  lemma DoneIfSet(s: State, sendOk: bool, isDone: bool)
    requires Enabled(s, DispatchNext(sendOk)) && isDone == DispatchStep(s, sendOk).pass.done[|s.pass.done|]
    requires SetsSeen(s)
    ensures IsSet(s.waiting[|s.pass.done|]) ==> isDone
  {
    DispatchFrame(s.store, ViewOf(s.mem, s.waiting[|s.pass.done|].msg), sendOk);
  }

  /** The completed SETs grow by the entry just decided, as it was received. */
  lemma DispatchCompletes(s: State, sendOk: bool, isDone: bool)
    requires Enabled(s, DispatchNext(sendOk)) && isDone == DispatchStep(s, sendOk).pass.done[|s.pass.done|]
    requires IsSet(s.waiting[|s.pass.done|]) ==> isDone
    requires SetsSeen(s)
    requires forall c :: c in s.completed ==> SetsAgree(c.event.view, c.item)
    ensures var s', item := DispatchStep(s, sendOk), s.waiting[|s.pass.done|];
            && SetItems(Items(s'.completed)) == SetItems(Items(s.completed)) + (if IsSet(item) then [item] else [])
            && forall c :: c in s'.completed ==> SetsAgree(c.event.view, c.item)
  {
    var item := s.waiting[|s.pass.done|];
    DispatchShape(s, sendOk, isDone);
    if isDone {
      FilterSnoc(Items(s.completed), item, IsSet);
    } else {
      assert Items(DispatchStep(s, sendOk).completed) == Items(s.completed);
    }
  }

  lemma OrderEnd(s: State)
    requires OrderInv(s) && Enabled(s, EndPass)
    ensures OrderInv(EndStep(true, s))
  {
    CorrectedPassLeaves(s.waiting, s.pass.done);
    H.StepHistories(s.h, H.WorkDone);
  }

  lemma OrderBegin(s: State)
    requires OrderInv(s) && Enabled(s, BeginPass)
    ensures OrderInv(Step(true, s, BeginPass))
  {
    assert Left(s.waiting, []) == s.waiting;
    assert Kept(s.waiting[..0], []) == [];
  }

  lemma OrderRead(s: State, e: Ready)
    requires OrderInv(s) && Enabled(s, ReadReady(e))
    ensures OrderInv(ReadStep(s, e))
  {
    H.StepHistories(s.h, H.Read(ItemOf(e, s.calls + 1)));
  }

  lemma OrderStep(s: State, a: Action)
    requires Inv(true, s) && OrderInv(s)
    requires a.DispatchNext? && Enabled(s, a) ==> SetsSeen(s)
    ensures OrderInv(Step(true, s, a))
  {
    if Enabled(s, a) {
      match a {
        case ReadReady(e) => OrderRead(s, e);
        case HandOver(b) => OrderHandOver(s, b);
        case BeginPass => OrderBegin(s);
        case DispatchNext(sendOk) => OrderDispatch(s, sendOk);
        case EndPass => OrderEnd(s);
      }
    }
  }

  lemma {:induction false} OrderExec(s: State, run: seq<Action>)
    requires Inv(true, s) && OrderInv(s) && Faithful(s, run)
    ensures OrderInv(Exec(true, s, run))
    decreases |run|
  {
    if run != [] {
      OrderStep(s, run[0]);
      InvStep(true, s, run[0]);
      OrderExec(Step(true, s, run[0]), run[1..]);
    }
  }

  lemma ReachedOrder(s: State, mem: string, run: seq<Action>)
    requires Reached(true, s, mem, run) && Faithful(Init(mem), run)
    ensures Inv(true, s) && OrderInv(s)
  {
    InvInit(true, mem);
    OrderExec(Init(mem), run);
    ReachedInv(true, s, mem, run);
  }

  /** The worker applies the SETs in exactly the order in which they were read: those applied
      are, as received, a prefix of those taken from the queue, and the rest still remains. */
  lemma SetsInReadOrder(s: State, mem: string, run: seq<Action>)
    requires Reached(true, s, mem, run) && Faithful(Init(mem), run)
    ensures PassShape(s)
    ensures SetItems(s.h.popped) == SetItems(Items(s.completed)) + SetItems(Remaining(s))
    ensures Sets(s.events) == Sets(Events(s.completed))
    ensures forall c :: c in s.completed ==> SetsAgree(c.event.view, c.item)
  {
    ReachedOrder(s, mem, run);
  }

  // ---- the serial server as the reference ------------------------------------------------------

  function ViewsOf(events: seq<Event>): (r: seq<View>) {
    seq(|events|, i requires 0 <= i < |events| => events[i].view)
  }

  function Received(items: seq<Item>): (r: seq<View>) {
    seq(|items|, i requires 0 <= i < |items| => ReceivedView(items[i]))
  }

  predicate IsSetView(v: View) { v.kind.Set? }

  function SetViews(vs: seq<View>): seq<View> { Filter(vs, IsSetView) }

  /** The run of a server that dispatches each message at once. */
  function Serial(vs: seq<View>): (r: seq<Event>) {
    seq(|vs|, i requires 0 <= i < |vs| => Event(vs[i], true))
  }

  lemma {:induction false} AcceptedConcat(store: Store, a: seq<Event>, b: seq<Event>, id: string)
    ensures Accepted(store, a + b, id) == Accepted(store, a, id) + Accepted(Replay(store, a), b, id)
    decreases |a|
  {
    if a == [] {
      assert a + b == b;
    } else {
      var v, rest := a[0].view, a[1..];
      var after := Dispatch.Dispatch(store, v, a[0].sendOk).store;
      assert (a + b)[1..] == rest + b;
      AcceptedConcat(after, rest, b, id);
      Regroup(if Accepts(store, v) && v.id == id then [v.payload] else [],
              Accepted(after, rest, id), Accepted(Replay(after, rest), b, id));
    }
  }

  lemma AcceptedSnoc(store: Store, events: seq<Event>, e: Event, id: string)
    ensures Accepted(store, events + [e], id)
            == Accepted(store, events, id)
               + (if Accepts(Replay(store, events), e.view) && e.view.id == id then [e.view.payload] else [])
  {
    AcceptedConcat(store, events, [e], id);
    assert [e][1..] == [];
  }

  /** The keys of the store after a dispatch depend on its keys before only, and change with
      SETs only. */
  lemma KeysAfter(a: Store, b: Store, v: View, ok: bool, ok': bool)
    requires a.Keys == b.Keys
    ensures Accepts(a, v) == Accepts(b, v)
    ensures Dispatch.Dispatch(a, v, ok).store.Keys == Dispatch.Dispatch(b, v, ok').store.Keys
    ensures !v.kind.Set? ==> Dispatch.Dispatch(a, v, ok).store.Keys == a.Keys
  {
    assert |a| == |a.Keys| && |b| == |b.Keys|;
  }

  /** What is accepted depends on the SETs alone: not on the GETs between them, the mailboxes
      or the results of writes. */
  lemma {:induction false} OnlySetsMatter(a: Store, b: Store, events: seq<Event>, id: string)
    requires a.Keys == b.Keys
    ensures Accepted(a, events, id) == Accepted(b, Serial(SetViews(ViewsOf(events))), id)
    ensures Replay(a, events).Keys == Replay(b, Serial(SetViews(ViewsOf(events)))).Keys
  {
    if events != [] {
      var n := |events| - 1;
      var before, e := events[..n], events[n];
      OnlySetsMatter(a, b, before, id);
      assert events == before + [e] && ViewsOf(events) == ViewsOf(before) + [e.view];
      FilterSnoc(ViewsOf(before), e.view, IsSetView);
      OneMore(a, b, before, SetViews(ViewsOf(before)), e, id);
    }
  }

  lemma OneMore(a: Store, b: Store, before: seq<Event>, sets: seq<View>, e: Event, id: string)
    requires Accepted(a, before, id) == Accepted(b, Serial(sets), id)
    requires Replay(a, before).Keys == Replay(b, Serial(sets)).Keys
    ensures var sets' := sets + if e.view.kind.Set? then [e.view] else [];
            && Accepted(a, before + [e], id) == Accepted(b, Serial(sets'), id)
            && Replay(a, before + [e]).Keys == Replay(b, Serial(sets')).Keys
  {
    AcceptedSnoc(a, before, e, id);
    ReplaySnoc(a, before, e);
    KeysAfter(Replay(a, before), Replay(b, Serial(sets)), e.view, e.sendOk, true);
    if e.view.kind.Set? {
      var e' := Event(e.view, true);
      assert Serial(sets + [e.view]) == Serial(sets) + [e'];
      AcceptedSnoc(b, Serial(sets), e', id);
      ReplaySnoc(b, Serial(sets), e');
    } else {
      assert sets + [] == sets;
    }
  }

  lemma {:induction false} SetViewsReceived(items: seq<Item>)
    ensures SetViews(Received(items)) == Received(SetItems(items))
  {
    if items != [] {
      var n := |items| - 1;
      SetViewsReceived(items[..n]);
      assert Received(items)[..n] == Received(items[..n]);
    }
  }

  lemma {:induction false} SetViewsOfEvents(events: seq<Event>)
    ensures SetViews(ViewsOf(events)) == ViewsOf(Sets(events))
  {
    if events != [] {
      var n := |events| - 1;
      SetViewsOfEvents(events[..n]);
      assert ViewsOf(events)[..n] == ViewsOf(events[..n]);
    }
  }

  lemma {:induction false} CompletedAsReceived(completed: seq<Completion>)
    requires forall c :: c in completed ==> SetsAgree(c.event.view, c.item)
    ensures SetViews(ViewsOf(Events(completed))) == SetViews(Received(Items(completed)))
  {
    if completed != [] {
      var n := |completed| - 1;
      var before, c := completed[..n], completed[n];
      CompletedAsReceived(before);
      assert c in completed;
      assert ViewsOf(Events(completed)) == ViewsOf(Events(before)) + [c.event.view];
      assert Received(Items(completed)) == Received(Items(before)) + [ReceivedView(c.item)];
      FilterSnoc(ViewsOf(Events(before)), c.event.view, IsSetView);
      FilterSnoc(Received(Items(before)), ReceivedView(c.item), IsSetView);
    }
  }

  /** The SETs dispatched so far are, as received, the SETs of the completed messages. */
  lemma DispatchedAsReceived(s: State)
    requires SetsCompleted(s) && forall c :: c in s.completed ==> SetsAgree(c.event.view, c.item)
    ensures SetViews(ViewsOf(s.events)) == Received(SetItems(Items(s.completed)))
  {
    SetViewsOfEvents(s.events);
    SetViewsOfEvents(Events(s.completed));
    CompletedAsReceived(s.completed);
    SetViewsReceived(Items(s.completed));
  }

  /** The messages in accepted transfers for which no dispatch has returned true yet. */
  function OnTheWay(s: State): seq<Item>
    requires PassShape(s)
  {
    Remaining(s) + (s.h.queue + if s.h.net.Pushing? then H.InTransfer(s.h) else [])
  }

  lemma ReceivedConcat(a: seq<Item>, b: seq<Item>)
    ensures Received(a + b) == Received(a) + Received(b)
  {
  }

  /** All SETs handed over to the worker are those completed, then those on the way ... */
  lemma SetItemsHandedOver(s: State)
    requires H.Inv(s.h) && OrderInv(s)
    ensures SetItems(H.Surviving(s.h.batches)) == SetItems(Items(s.completed)) + SetItems(OnTheWay(s))
  {
    var rest := s.h.queue + if s.h.net.Pushing? then H.InTransfer(s.h) else [];
    assert H.Surviving(s.h.batches) == s.h.popped + rest;
    FilterConcat(s.h.popped, rest, IsSet);
    FilterConcat(Remaining(s), rest, IsSet);
    Regroup(SetItems(Items(s.completed)), SetItems(Remaining(s)), SetItems(rest));
  }

  /** ... and as the dispatches have seen them. */
  lemma SetsHandedOver(s: State)
    requires Inv(true, s) && OrderInv(s)
    ensures SetViews(Received(H.Surviving(s.h.batches)))
            == SetViews(ViewsOf(s.events)) + SetViews(Received(OnTheWay(s)))
  {
    SetItemsHandedOver(s);
    ReceivedConcat(SetItems(Items(s.completed)), SetItems(OnTheWay(s)));
    SetViewsReceived(H.Surviving(s.h.batches));
    SetViewsReceived(OnTheWay(s));
    DispatchedAsReceived(s);
  }

  lemma Ledger(s: State, id: string)
    requires StoreHistory(s)
    ensures HandedOver(map[], s.events, id) + Reverse(MailboxOf(s.store, id)) == Accepted(map[], s.events, id)
  {
    ExactlyOnce(map[], s.events, id);
    assert Reverse<string>([]) == [];
  }

  /** Exactly-once, in-order delivery from socket to socket. In every interleaving of the
      repaired server, for every session: what a serial server would accept from the messages
      handed over, in the order in which they were read, is what successful replies have
      delivered, then what the mailbox holds, then what will be accepted of the rest. */
  lemma {:induction false} RefinesSerialServer(s: State, mem: string, run: seq<Action>, id: string)
    requires Reached(true, s, mem, run) && Faithful(Init(mem), run)
    ensures PassShape(s)
    ensures Accepted(map[], Serial(Received(H.Surviving(s.h.batches))), id)
            == HandedOver(map[], s.events, id) + Reverse(MailboxOf(s.store, id))
               + Accepted(s.store, Serial(Received(OnTheWay(s))), id)
  {
    ReachedOrder(s, mem, run);
    SetsHandedOver(s);
    SerialSplit(s.events, Received(H.Surviving(s.h.batches)), Received(OnTheWay(s)), id);
    Ledger(s, id);
  }

  lemma ViewsOfSerial(vs: seq<View>)
    ensures ViewsOf(Serial(vs)) == vs
  {
  }

  lemma SerialSplit(events: seq<Event>, all: seq<View>, rest: seq<View>, id: string)
    requires SetViews(all) == SetViews(ViewsOf(events)) + SetViews(rest)
    ensures Accepted(map[], Serial(all), id)
            == Accepted(map[], events, id) + Accepted(Replay(map[], events), Serial(rest), id)
  {
    ViewsOfSerial(all);
    ViewsOfSerial(rest);
    assert ViewsOf(events + Serial(rest)) == ViewsOf(events) + rest;
    FilterConcat(ViewsOf(events), rest, IsSetView);
    OnlySetsMatter(map[], map[], Serial(all), id);
    OnlySetsMatter(map[], map[], events + Serial(rest), id);
    AcceptedConcat(map[], events, Serial(rest), id);
  }

  lemma NoMoreAccepted(store: Store, items: seq<Item>, id: string)
    requires SetItems(items) == []
    ensures Accepted(store, Serial(Received(items)), id) == []
  {
    var rest := Serial(Received(items));
    ViewsOfSerial(Received(items));
    SetViewsReceived(items);
    OnlySetsMatter(store, store, rest, id);
    assert Serial(SetViews(ViewsOf(rest))) == [];
  }

  /** The network thread has nothing in hand, the queue is empty, and no transfer has met a
      WROTE flag. */
  ghost predicate AllTaken(h: H.State<Item>) {
    && h.messages == [] && h.transfer == [] && h.queue == []
    && forall b :: b in h.batches ==> b.accepted || b.items == []
  }

  lemma AllTakenShape(s: State)
    requires H.Inv(s.h) && PassShape(s) && AllTaken(s.h)
    ensures H.Surviving(s.h.batches) == s.h.read && OnTheWay(s) == Remaining(s)
  {
    H.SurvivingIsAllIff(s.h.batches);
  }

  /** When no transfer has met a WROTE flag, and no SET is left to be taken and dispatched, each
      client has got, or will get from its mailbox, exactly what a serial server would have
      accepted of all messages read. */
  lemma {:induction false} NothingLost(s: State, mem: string, run: seq<Action>, id: string)
    requires Reached(true, s, mem, run) && Faithful(Init(mem), run)
    requires PassShape(s) && AllTaken(s.h) && SetItems(Remaining(s)) == []
    ensures HandedOver(map[], s.events, id) + Reverse(MailboxOf(s.store, id))
            == Accepted(map[], Serial(Received(s.h.read)), id)
  {
    ReachedInv(true, s, mem, run);
    AllTakenShape(s);
    RefinesSerialServer(s, mem, run, id);
    NoMoreAccepted(s.store, Remaining(s), id);
  }
}
