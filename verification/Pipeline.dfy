/** The server as a whole: the network thread reading into the buffer block, the hand-over,
    and the worker dispatching from the buffers, in every interleaving. */
module Pipeline {
  import opened Common
  import opened Client
  import opened Dispatch
  import opened MemoryBlock
  import opened Passes
  import opened VectorErase
  import opened Wire
  import H = Handoff

  /** A message together with its history: the allocator call, the descriptor and the read() that
      it stems from. */
  datatype Item = Item(msg: Transfer, call: nat, fd: nat, result: ReadResult)

  /** A dispatch that returned true, with the message it was made for. */
  datatype Completion = Completion(item: Item, event: Event)

  datatype PassPC = Outside | Dispatching(count: nat, done: seq<bool>)

  /** waiting is QueueMessages. events are all dispatches so far, dispatched their messages,
      completed those that returned true, and sent the replies; all four are history. fault: an
      erase has run off the vector. */
  datatype State = State(
    h: H.State<Item>, mem: string, calls: nat,
    waiting: seq<Item>, pass: PassPC, store: Store, fault: bool,
    events: seq<Event>, dispatched: seq<Item>, completed: seq<Completion>, sent: seq<Reply>)

  datatype Action =
    | ReadReady(ready: Ready)
    | HandOver(action: H.Action<Item>)
    | BeginPass
    | DispatchNext(sendOk: bool)
    | EndPass

  function Init(mem: string): State {
    State(H.Init(), mem, 0, [], Outside, map[], false, [], [], [], [])
  }

  function ItemOf(e: Ready, call: nat): Item { Item(MessageOf(e, call), call, e.fd, e.result) }

  /** read() never stores more than the buffer size that it is given. */
  predicate FitsBuffer(r: ReadResult) { r.Received? ==> |r.data| <= MSGBUFFER_SIZE }

  predicate Enabled(s: State, a: Action) {
    match a
    case ReadReady(e) => s.h.net.Reading? && FitsBuffer(e.result)
    case HandOver(b) => !b.Read? && !b.WorkDone? && H.Enabled(s.h, b)
    case BeginPass => s.h.worker.Working? && s.pass.Outside?
    case DispatchNext(_) => s.pass.Dispatching? && |s.pass.done| < s.pass.count && |s.pass.done| < |s.waiting|
    case EndPass => s.pass.Dispatching? && |s.pass.done| >= s.pass.count
  }

  function ReadStep(s: State, e: Ready): State {
    var k := s.calls + 1;
    s.(calls := k, mem := Stored(s.mem, MessagePointer(k), e.result),
       h := if Closing(e.result) then s.h else H.Step(s.h, H.Read(ItemOf(e, k))))
  }

  function HandOverStep(s: State, b: H.Action<Item>): State {
    var h := H.Step(s.h, b);
    s.(h := h, waiting := if |h.popped| > |s.h.popped| then s.waiting + h.popped[|s.h.popped|..] else s.waiting)
  }

  function DispatchStep(s: State, sendOk: bool): State
    requires Enabled(s, DispatchNext(sendOk))
  {
    var item := s.waiting[|s.pass.done|];
    var e := Event(ViewOf(s.mem, item.msg), sendOk);
    var o := Dispatch.Dispatch(s.store, e.view, sendOk);
    s.(store := o.store, events := s.events + [e], dispatched := s.dispatched + [item],
       sent := s.sent + (if o.reply.Some? then [Reply(item.msg.fd, o.reply.value, o.closed)] else []),
       completed := s.completed + (if o.done then [Completion(item, e)] else []),
       pass := Dispatching(s.pass.count, s.pass.done + [o.done]))
  }

  /** What the erase, as written or shift-correct, leaves of the waiting messages. */
  function LeftBy(fix: bool, q: seq<Item>, done: seq<bool>): Option<seq<Item>> {
    var deletes := DoneIndices(done);
    if fix then Some(Without(q, Positions(deletes))) else EraseEach(q, deletes)
  }

  /** The deletion at the end of a pass. */
  function EndStep(fix: bool, s: State): State
    requires Enabled(s, EndPass)
  {
    var left := LeftBy(fix, s.waiting, s.pass.done);
    s.(h := H.Step(s.h, H.WorkDone), pass := Outside,
       waiting := if left.Some? then left.value else s.waiting, fault := s.fault || left.None?)
  }

  /** fix selects the erase: true for the shift-correct one, false for the one as written. */
  function Step(fix: bool, s: State, a: Action): (s': State) {
    if !Enabled(s, a) then s else
    match a
    case ReadReady(e) => ReadStep(s, e)
    case HandOver(b) => HandOverStep(s, b)
    case BeginPass =>
      if s.waiting == [] then s.(h := H.Step(s.h, H.WorkDone))
      else s.(pass := Dispatching(WindowSize(|s.waiting|), []))
    case DispatchNext(sendOk) => DispatchStep(s, sendOk)
    case EndPass => EndStep(fix, s)
  }

  function Exec(fix: bool, s: State, run: seq<Action>): (s': State)
    decreases |run|
  {
    if run == [] then s else Exec(fix, Step(fix, s, run[0]), run[1..])
  }

  const BLOCK_SIZE := PROCESS_MESSAGES_IN_MAX * MSGBUFFER_SIZE

  // ---- invariants ----------------------------------------------------------------------------

  ghost predicate AscendingCalls(items: seq<Item>) {
    forall i, j :: 0 <= i < j < |items| ==> items[i].call < items[j].call
  }

  ghost predicate WellRead(item: Item, calls: nat) {
    && 1 <= item.call <= calls
    && item.msg.ptr == MessagePointer(item.call)
    && item.msg.bytes == RcvBytes(item.result)
    && item.msg.fd == item.fd % TWO_TO_THE_16
    && !Closing(item.result) && FitsBuffer(item.result)
  }

  /** No buffer has been stored into since this message was read. */
  ghost predicate Newest(item: Item, read: seq<Item>) {
    forall other :: other in read && other.result.Received? ==> other.call <= item.call
  }

  ghost predicate Intact(s: State, item: Item) {
    item.result.Received? && Holds(s.mem, item.msg.ptr, item.result.data)
  }

  /** The message has arrived whole: type, session ID and whatever payload. */
  ghost predicate Whole(item: Item) {
    item.result.Received? && |item.result.data| >= HEADER_BYTES
  }

  ghost predicate Protected(s: State, item: Item) {
    item.result.Received? && (item.call < PROCESS_MESSAGES_IN_MAX || Newest(item, s.h.read))
  }

  /** The bytes of a message read in one of the first 4095 calls are never touched again;
      those of a later one stay until the next buffer is stored. */
  ghost predicate BuffersInv(s: State) {
    && |s.mem| == BLOCK_SIZE
    && AscendingCalls(s.h.read)
    && (forall item :: item in s.h.read ==> WellRead(item, s.calls))
    && (forall item :: item in s.h.read && Protected(s, item) ==> Intact(s, item))
  }

  lemma BuffersInvRead(s: State, e: Ready)
    requires BuffersInv(s) && Enabled(s, ReadReady(e))
    ensures BuffersInv(ReadStep(s, e))
  {
    var k := s.calls + 1;
    var s' := ReadStep(s, e);
    BufferInBlock(k);
    assert s'.h.read == if Closing(e.result) then s.h.read else s.h.read + [ItemOf(e, k)];
    if e.result.Received? { OverwriteHolds(s.mem, MessagePointer(k), e.result.data); }
    forall item | item in s'.h.read && Protected(s', item) ensures Intact(s', item) {
      if item in s.h.read {
        OlderItemIntact(s, e, item);
      }
    }
    forall i, j | 0 <= i < j < |s'.h.read| ensures s'.h.read[i].call < s'.h.read[j].call {
      assert s'.h.read[i] == s.h.read[i] && s.h.read[i] in s.h.read;
    }
  }

  /** Reading into a later segment keeps what one of the first 4095 calls has stored. */
  lemma StoredApart(mem: string, k: nat, r: ReadResult, call: nat, data: string)
    requires |mem| == BLOCK_SIZE && FitsBuffer(r) && 1 <= call < k && call < PROCESS_MESSAGES_IN_MAX
    requires Holds(mem, MessagePointer(call), data) && |data| <= MSGBUFFER_SIZE
    ensures Holds(Stored(mem, MessagePointer(k), r), MessagePointer(call), data)
  {
    if r.Received? {
      SegmentsApart(PROCESS_MESSAGES_IN_MAX, MSGBUFFER_SIZE, call, k);
      BufferInBlock(k);
      OverwriteApart(mem, MessagePointer(k), r.data, MessagePointer(call), data);
    }
  }

  lemma StoredNothing(mem: string, at: nat, r: ReadResult)
    requires r.Failed? || Closing(r)
    ensures Stored(mem, at, r) == mem
  {
  }

  /** If an older message is still protected after a read, it was so before, and the read has
      gone to another segment or stored nothing. */
  lemma StillProtected(s: State, e: Ready, item: Item)
    requires BuffersInv(s) && Enabled(s, ReadReady(e)) && item in s.h.read && Protected(ReadStep(s, e), item)
    ensures Protected(s, item)
    ensures item.call < PROCESS_MESSAGES_IN_MAX || e.result.Failed? || Closing(e.result)
  {
    var s' := ReadStep(s, e);
    assert forall other :: other in s.h.read ==> other in s'.h.read;
    if !Closing(e.result) {
      assert ItemOf(e, s.calls + 1) in s'.h.read;
      assert WellRead(item, s.calls);
    }
  }

  lemma OlderItemIntact(s: State, e: Ready, item: Item)
    requires BuffersInv(s) && Enabled(s, ReadReady(e)) && item in s.h.read
    requires Protected(ReadStep(s, e), item)
    ensures Intact(ReadStep(s, e), item)
  {
    StillProtected(s, e, item);
    var k := s.calls + 1;
    if e.result.Failed? || Closing(e.result) {
      StoredNothing(s.mem, MessagePointer(k), e.result);
    } else {
      StoredApart(s.mem, k, e.result, item.call, item.result.data);
    }
  }

  /** The hand-over sees the pipeline's steps as its own steps or not at all. */
  lemma HandoffStep(fix: bool, s: State, a: Action)
    requires H.Inv(s.h)
    ensures H.Inv(Step(fix, s, a).h)
    ensures a.ReadReady? || Step(fix, s, a).h.read == s.h.read
  {
    StepIsHandoffStep(fix, s, a);
    H.InvStep(s.h, HandoffAction(s, a));
    H.StepHistories(s.h, HandoffAction(s, a));
  }

  /** The hand-over step that a step of the pipeline makes, if it makes one. */
  function HandoffAction(s: State, a: Action): H.Action<Item> {
    match a
    case ReadReady(e) => H.Read(ItemOf(e, s.calls + 1))
    case HandOver(b) => b
    case _ => H.WorkDone
  }

  lemma StepIsHandoffStep(fix: bool, s: State, a: Action)
    ensures Step(fix, s, a).h == s.h || Step(fix, s, a).h == H.Step(s.h, HandoffAction(s, a))
  {
  }

  ghost predicate StoreHistory(s: State) {
    && StoreInv(s.store)
    && s.store == Replay(map[], s.events)
    && (forall e :: e in s.events ==> |e.view.id| == SESSION_ID_BYTES)
  }

  lemma {:induction false} ReplaySnoc(store: Store, events: seq<Event>, e: Event)
    ensures Replay(store, events + [e]) == Dispatch.Dispatch(Replay(store, events), e.view, e.sendOk).store
    decreases |events|
  {
    if events == [] {
      assert [e][1..] == [];
    } else {
      assert (events + [e])[1..] == events[1..] + [e];
      ReplaySnoc(Dispatch.Dispatch(store, events[0].view, events[0].sendOk).store, events[1..], e);
    }
  }

  lemma StoreHistoryStep(fix: bool, s: State, a: Action)
    requires StoreHistory(s)
    ensures StoreHistory(Step(fix, s, a))
  {
    if Enabled(s, a) && a.DispatchNext? {
      var e := Event(ViewOf(s.mem, s.waiting[|s.pass.done|].msg), a.sendOk);
      ReplaySnoc(map[], s.events, e);
      StoreInvStep(s.store, e.view, e.sendOk);
    }
  }

  /** The waiting messages for which no dispatch has returned true yet. */
  function Remaining(s: State): seq<Item>
    requires s.pass.Dispatching? ==> |s.pass.done| <= |s.waiting|
  {
    if s.pass.Outside? then s.waiting else Left(s.waiting, s.pass.done)
  }

  function Items(completed: seq<Completion>): (r: seq<Item>)
    ensures |r| == |completed|
  {
    seq(|completed|, i requires 0 <= i < |completed| => completed[i].item)
  }

  ghost predicate PassShape(s: State) {
    s.pass.Dispatching? ==> s.h.worker.Working? && |s.pass.done| <= s.pass.count == WindowSize(|s.waiting|)
  }

  /** With the shift-correct erase: every message that the worker has taken from the queue is
      either done, and then exactly once, or still remaining. */
  ghost predicate TakenOnce(s: State) {
    && PassShape(s)
    && multiset(s.h.popped) == multiset(Items(s.completed)) + multiset(Remaining(s))
  }

  lemma TakenOnceStep(s: State, a: Action)
    requires TakenOnce(s)
    ensures TakenOnce(Step(true, s, a))
  {
    if Enabled(s, a) {
      match a {
        case HandOver(b) => TakenHandOver(s, b);
        case BeginPass => TakenBegin(s);
        case DispatchNext(sendOk) => TakenDispatch(s, sendOk);
        case EndPass => TakenEnd(s);
        case ReadReady(_) =>
      }
    }
  }

  lemma TakenBegin(s: State)
    requires TakenOnce(s) && Enabled(s, BeginPass)
    ensures TakenOnce(Step(true, s, BeginPass))
  {
    assert Left(s.waiting, []) == s.waiting;
  }

  lemma TakenEnd(s: State)
    requires TakenOnce(s) && Enabled(s, EndPass)
    ensures TakenOnce(EndStep(true, s))
  {
    CorrectedPassLeaves(s.waiting, s.pass.done);
    H.StepHistories(s.h, H.WorkDone);
  }

  lemma TakenHandOver(s: State, b: H.Action<Item>)
    requires TakenOnce(s) && Enabled(s, HandOver(b))
    ensures TakenOnce(HandOverStep(s, b))
  {
    if b.PopOne? && s.h.queue != [] {
      var h := H.Step(s.h, b);
      assert h.popped == s.h.popped + [s.h.queue[0]];
      assert h.popped[|s.h.popped|..] == [s.h.queue[0]];
    }
  }

  lemma TakenDispatch(s: State, sendOk: bool)
    requires TakenOnce(s) && Enabled(s, DispatchNext(sendOk))
    ensures TakenOnce(DispatchStep(s, sendOk))
  {
    var s' := DispatchStep(s, sendOk);
    var i := |s.pass.done|;
    var isDone := s'.pass.done[i];
    LeftSnoc(s.waiting, s.pass.done, isDone);
    DispatchShape(s, sendOk, isDone);
  }

  lemma DispatchShape(s: State, sendOk: bool, isDone: bool)
    requires Enabled(s, DispatchNext(sendOk)) && isDone == DispatchStep(s, sendOk).pass.done[|s.pass.done|]
    ensures DispatchStep(s, sendOk).pass.done == s.pass.done + [isDone]
    ensures Items(DispatchStep(s, sendOk).completed)
            == Items(s.completed) + if isDone then [s.waiting[|s.pass.done|]] else []
  {
    var s' := DispatchStep(s, sendOk);
    if isDone {
      assert s'.completed[..|s.completed|] == s.completed;
    } else {
      assert s'.completed == s.completed;
    }
  }

  /** Deciding one more entry takes it out of what is left, or leaves that as it is. */
  lemma {:induction false} LeftSnoc<T>(q: seq<T>, done: seq<bool>, isDone: bool)
    requires |done| < |q|
    ensures multiset(Left(q, done))
            == multiset(Left(q, done + [isDone])) + if isDone then multiset{q[|done|]} else multiset{}
  {
    var n, next := |done|, done + [isDone];
    var kept, x, rest := Kept(q[..n], done), [q[n]], q[n + 1..];
    assert q[..n + 1][..n] == q[..n] && next[..n] == done;
    assert Left(q, done) == kept + (x + rest) by { assert q[n..] == x + rest; }
    assert Left(q, next) == (kept + if isDone then [] else x) + rest;
  }

  /** The SETs among all dispatches are the SETs among the completed ones, in order: a SET is
      never tried twice. */
  function Sets(events: seq<Event>): (r: seq<Event>) {
    if events == [] then []
    else Sets(events[..|events| - 1]) + (if events[|events| - 1].view.kind.Set? then [events[|events| - 1]] else [])
  }

  function Events(completed: seq<Completion>): (r: seq<Event>)
    ensures |r| == |completed|
  {
    seq(|completed|, i requires 0 <= i < |completed| => completed[i].event)
  }

  ghost predicate SetsCompleted(s: State) { Sets(s.events) == Sets(Events(s.completed)) }

  lemma SetsSnoc(events: seq<Event>, e: Event)
    ensures Sets(events + [e]) == Sets(events) + if e.view.kind.Set? then [e] else []
  {
    assert (events + [e])[..|events|] == events;
  }

  lemma SetsCompletedStep(fix: bool, s: State, a: Action)
    requires SetsCompleted(s)
    ensures SetsCompleted(Step(fix, s, a))
  {
    if Enabled(s, a) && a.DispatchNext? {
      var s' := DispatchStep(s, a.sendOk);
      var item := s.waiting[|s.pass.done|];
      var e := Event(ViewOf(s.mem, item.msg), a.sendOk);
      SetsSnoc(s.events, e);
      SetsSnoc(Events(s.completed), e);
      DispatchFrame(s.store, e.view, a.sendOk);
      if |s'.completed| > |s.completed| {
        assert Events(s'.completed) == Events(s.completed) + [e];
      } else {
        assert s'.completed == s.completed;
      }
    }
  }

  /** The waiting messages are some of those taken from the queue, oldest first. */
  ghost predicate WaitingInv(s: State) {
    && PassShape(s)
    && AscendingCalls(s.waiting)
    && (forall item :: item in s.waiting ==> item in s.h.popped)
  }

  lemma RemoveKeepsOrder(q: seq<Item>, i: nat)
    requires AscendingCalls(q) && i < |q|
    ensures AscendingCalls(RemoveAt(q, i)) && forall x :: x in RemoveAt(q, i) ==> x in q
  {
  }

  lemma {:induction false} EraseKeepsOrder(q: seq<Item>, indices: seq<nat>)
    requires AscendingCalls(q) && EraseEach(q, indices).Some?
    ensures AscendingCalls(EraseEach(q, indices).value)
    ensures forall x :: x in EraseEach(q, indices).value ==> x in q
    decreases |indices|
  {
    if indices != [] {
      RemoveKeepsOrder(q, indices[0]);
      EraseKeepsOrder(RemoveAt(q, indices[0]), indices[1..]);
    }
  }

  lemma {:induction false} EndKeepsWaiting(fix: bool, s: State)
    requires WaitingInv(s) && Enabled(s, EndPass)
    ensures WaitingInv(EndStep(fix, s))
  {
    var deletes := DoneIndices(s.pass.done);
    if fix {
      CorrectedErase(s.waiting, deletes);
      ErasedInOrder(s, Corrected(deletes), EndStep(fix, s));
    } else if EraseEach(s.waiting, deletes).Some? {
      ErasedInOrder(s, deletes, EndStep(fix, s));
    }
  }

  lemma {:induction false} ErasedInOrder(s: State, indices: seq<nat>, t: State)
    requires WaitingInv(s) && t.pass.Outside? && t.h.popped == s.h.popped
    requires EraseEach(s.waiting, indices) == Some(t.waiting)
    ensures WaitingInv(t)
  {
    EraseKeepsOrder(s.waiting, indices);
  }

  lemma {:induction false} SurvivingAscending(batches: seq<H.Batch<Item>>)
    requires AscendingCalls(H.All(batches))
    ensures AscendingCalls(H.Surviving(batches))
    ensures forall x :: x in H.Surviving(batches) ==> x in H.All(batches)
  {
    if batches != [] {
      var n := |batches| - 1;
      var all, items := H.All(batches[..n]), batches[n].items;
      assert H.All(batches) == all + items;
      AscendingSplit(all, items);
      SurvivingAscending(batches[..n]);
      AscendingJoin(H.Surviving(batches[..n]), all, if batches[n].accepted then items else []);
    }
  }

  lemma AscendingSplit(a: seq<Item>, b: seq<Item>)
    requires AscendingCalls(a + b)
    ensures AscendingCalls(a) && AscendingCalls(b)
    ensures forall x, y :: x in a && y in b ==> x.call < y.call
  {
    forall i, j | 0 <= i < j < |a| ensures a[i].call < a[j].call {
      assert (a + b)[i] == a[i] && (a + b)[j] == a[j];
    }
    forall i, j | 0 <= i < j < |b| ensures b[i].call < b[j].call {
      assert (a + b)[|a| + i] == b[i] && (a + b)[|a| + j] == b[j];
    }
    forall x, y | x in a && y in b ensures x.call < y.call {
      var i :| 0 <= i < |a| && a[i] == x;
      var j :| 0 <= j < |b| && b[j] == y;
      assert (a + b)[i] == x && (a + b)[|a| + j] == y;
    }
  }

  lemma AscendingJoin(a: seq<Item>, whole: seq<Item>, b: seq<Item>)
    requires AscendingCalls(a) && AscendingCalls(b)
    requires forall x :: x in a ==> x in whole
    requires forall x, y :: x in whole && y in b ==> x.call < y.call
    ensures AscendingCalls(a + b)
  {
    forall i, j | 0 <= i < j < |a + b| ensures (a + b)[i].call < (a + b)[j].call {
      if i < |a| <= j {
        assert a[i] in whole && (a + b)[j] in b;
      }
    }
  }

  lemma PoppedAscending(s: H.State<Item>)
    requires H.Inv(s) && AscendingCalls(s.read)
    ensures AscendingCalls(s.popped + s.queue)
  {
    var all := H.All(s.batches);
    assert s.read == all + s.read[|all|..];
    AscendingSplit(all, s.read[|all|..]);
    SurvivingAscending(s.batches);
    var out := s.popped + s.queue;
    var rest := H.Surviving(s.batches)[|out|..];
    assert H.Surviving(s.batches) == out + rest;
    AscendingSplit(out, rest);
  }

  lemma WaitingHandOver(s: State, b: H.Action<Item>)
    requires WaitingInv(s) && H.Inv(s.h) && AscendingCalls(s.h.read) && Enabled(s, HandOver(b))
    ensures WaitingInv(HandOverStep(s, b))
  {
    if b.PopOne? && s.h.queue != [] {
      var next := s.h.queue[0];
      var h := H.Step(s.h, b);
      assert h.popped == s.h.popped + [next] && h.popped[|s.h.popped|..] == [next];
      PoppedAscending(s.h);
      AscendingSplit(s.h.popped, s.h.queue);
      AscendingJoin(s.waiting, s.h.popped, [next]);
    } else {
      H.StepHistories(s.h, b);
    }
  }

  lemma WaitingStep(fix: bool, s: State, a: Action)
    requires WaitingInv(s) && H.Inv(s.h) && AscendingCalls(s.h.read)
    ensures WaitingInv(Step(fix, s, a))
  {
    if Enabled(s, a) {
      match a {
        case HandOver(b) => WaitingHandOver(s, b);
        case EndPass => EndKeepsWaiting(fix, s);
        case _ =>
      }
    }
  }

  ghost predicate Inv(fix: bool, s: State) {
    && H.Inv(s.h) && BuffersInv(s) && WaitingInv(s) && StoreHistory(s) && SetsCompleted(s)
    && (fix ==> TakenOnce(s) && !s.fault)
  }

  lemma BuffersInvStep(fix: bool, s: State, a: Action)
    requires BuffersInv(s) && H.Inv(s.h)
    ensures BuffersInv(Step(fix, s, a))
  {
    if Enabled(s, a) && a.ReadReady? {
      BuffersInvRead(s, a.ready);
    } else {
      HandoffStep(fix, s, a);
      SameBuffers(s, Step(fix, s, a));
    }
  }

  lemma SameBuffers(s: State, s': State)
    requires BuffersInv(s) && s'.mem == s.mem && s'.calls == s.calls && s'.h.read == s.h.read
    ensures BuffersInv(s')
  {
    forall item | item in s'.h.read && Protected(s', item) ensures Intact(s', item) {
      assert Protected(s, item) && Intact(s, item);
    }
  }

  lemma InvStep(fix: bool, s: State, a: Action)
    requires Inv(fix, s)
    ensures Inv(fix, Step(fix, s, a))
  {
    BuffersInvStep(fix, s, a);
    HandoffStep(fix, s, a);
    WaitingStep(fix, s, a);
    StoreHistoryStep(fix, s, a);
    SetsCompletedStep(fix, s, a);
    if fix {
      TakenOnceStep(s, a);
      NoFaultStep(s, a);
    }
  }

  lemma NoFaultStep(s: State, a: Action)
    requires !s.fault
    ensures !Step(true, s, a).fault
  {
  }

  lemma {:induction false} InvExec(fix: bool, s: State, run: seq<Action>)
    requires Inv(fix, s)
    ensures Inv(fix, Exec(fix, s, run))
    decreases |run|
  {
    if run != [] {
      InvStep(fix, s, run[0]);
      InvExec(fix, Step(fix, s, run[0]), run[1..]);
    }
  }

  lemma InvInit(fix: bool, mem: string)
    requires |mem| == BLOCK_SIZE
    ensures Inv(fix, Init(mem))
  {
  }

  /** A state that the server reaches, with either erase, from any content of its block. */
  ghost predicate Reached(fix: bool, s: State, mem: string, run: seq<Action>) {
    |mem| == BLOCK_SIZE && s == Exec(fix, Init(mem), run)
  }

  lemma ReachedInv(fix: bool, s: State, mem: string, run: seq<Action>)
    requires Reached(fix, s, mem, run)
    ensures Inv(fix, s)
  {
    InvInit(fix, mem);
    InvExec(fix, Init(mem), run);
  }

  // ---- what holds in every run ---------------------------------------------------------------

  /** Buffer integrity: wherever a message is by now - with the network thread, in the queue,
      or waiting for however long - its bytes are those that were received, if it was read in
      one of the first 4095 calls or nothing has been stored since. */
  lemma BufferIntegrity(fix: bool, s: State, mem: string, run: seq<Action>)
    requires Reached(fix, s, mem, run)
    ensures forall item :: item in s.h.messages + s.h.transfer + s.h.queue + s.waiting ==>
              Protected(s, item) ==> Intact(s, item)
  {
    ReachedInv(fix, s, mem, run);
    forall item | item in s.h.messages + s.h.transfer + s.h.queue + s.waiting ensures item in s.h.read {
      LiveWasRead(s, item);
    }
  }

  lemma LiveWasRead(s: State, item: Item)
    requires H.Inv(s.h) && WaitingInv(s)
    requires item in s.h.messages + s.h.transfer + s.h.queue + s.waiting
    ensures item in s.h.read
  {
    H.InvConserves(s.h);
    assert item in s.h.messages || item in s.h.transfer || item in s.h.queue || item in s.h.popped;
    assert multiset(s.h.read)[item] > 0;
  }

  /** Both begin with the same bytes, as far as they go. */
  predicate Agree(a: string, b: string) {
    forall i :: 0 <= i < |a| && i < |b| ==> a[i] == b[i]
  }

  /** What the next read does to a message whose bytes are still in place: they stay exactly if
      it was read in one of the first 4095 calls, or the read fails, or the bytes agree. From
      call 4096 on every read goes to segment 0. */
  lemma IntactAfterReadIff(s: State, e: Ready, item: Item)
    requires BuffersInv(s) && Enabled(s, ReadReady(e)) && item in s.h.read && Intact(s, item)
    ensures Intact(ReadStep(s, e), item)
            <==> item.call < 4096 || e.result.Failed? || Agree(item.result.data, e.result.data)
  {
    var k := s.calls + 1;
    assert WellRead(item, s.calls);
    if item.call < PROCESS_MESSAGES_IN_MAX {
      StoredApart(s.mem, k, e.result, item.call, item.result.data);
    } else {
      InSegmentZero(item.call);
      InSegmentZero(k);
      OverwrittenIff(s.mem, item.result.data, e.result);
    }
  }

  lemma InSegmentZero(call: nat)
    requires call >= PROCESS_MESSAGES_IN_MAX
    ensures MessagePointer(call) == 0
  {
    PointerClosedForm(PROCESS_MESSAGES_IN_MAX, MSGBUFFER_SIZE, call);
  }

  lemma OverwrittenIff(mem: string, kept: string, r: ReadResult)
    requires |mem| == BLOCK_SIZE && FitsBuffer(r) && Holds(mem, 0, kept)
    ensures Holds(Stored(mem, 0, r), 0, kept) <==> r.Failed? || Agree(kept, r.data)
  {
    var after := Stored(mem, 0, r);
    assert forall i :: 0 <= i < |kept| ==> mem[i] == kept[i] by {
      assert mem[..|kept|] == kept;
    }
    if r.Received? {
      assert forall i :: 0 <= i < |kept| ==> after[i] == if i < |r.data| then r.data[i] else kept[i];
      if Holds(after, 0, kept) { assert after[..|kept|] == kept; }
    }
  }

  /** Byte i of segment 0 as the reads so far have left it, if one of them has stored it. */
  function LastByte(read: seq<Item>, i: nat): (r: Option<char>) {
    if read == [] then None
    else
      var n := |read| - 1;
      var last := read[n];
      if last.call >= PROCESS_MESSAGES_IN_MAX && last.result.Received? && i < |last.result.data|
        then Some(last.result.data[i])
      else LastByte(read[..n], i)
  }

  ghost predicate SegmentZero(s: State) {
    && |s.mem| == BLOCK_SIZE
    && forall i: nat :: i < MSGBUFFER_SIZE && LastByte(s.h.read, i).Some? ==> s.mem[i] == LastByte(s.h.read, i).value
  }

  lemma SegmentZeroRead(s: State, e: Ready)
    requires SegmentZero(s) && Enabled(s, ReadReady(e))
    ensures SegmentZero(ReadStep(s, e))
  {
    var k := s.calls + 1;
    var s' := ReadStep(s, e);
    BufferInBlock(k);
    if !Closing(e.result) {
      assert s'.h.read == s.h.read + [ItemOf(e, k)];
      assert s'.h.read[..|s.h.read|] == s.h.read;
      if k >= PROCESS_MESSAGES_IN_MAX {
        InSegmentZero(k);
      } else {
        PointerNoOverflow(PROCESS_MESSAGES_IN_MAX, MSGBUFFER_SIZE, k);
        assert MessagePointer(k) >= MSGBUFFER_SIZE;
      }
    } else {
      StoredNothing(s.mem, MessagePointer(k), e.result);
    }
  }

  lemma SegmentZeroStep(fix: bool, s: State, a: Action)
    requires H.Inv(s.h) && SegmentZero(s)
    ensures SegmentZero(Step(fix, s, a))
  {
    if a.ReadReady? && Enabled(s, a) {
      SegmentZeroRead(s, a.ready);
    } else {
      HandoffStep(fix, s, a);
      assert Step(fix, s, a).mem == s.mem && Step(fix, s, a).h.read == s.h.read;
    }
  }

  lemma {:induction false} SegmentZeroExec(fix: bool, s: State, run: seq<Action>)
    requires H.Inv(s.h) && SegmentZero(s)
    ensures SegmentZero(Exec(fix, s, run))
    decreases |run|
  {
    if run != [] {
      HandoffStep(fix, s, run[0]);
      SegmentZeroStep(fix, s, run[0]);
      SegmentZeroExec(fix, Step(fix, s, run[0]), run[1..]);
    }
  }

  lemma {:induction false} LastByteKnown(read: seq<Item>, item: Item, i: nat)
    requires item in read && item.call >= PROCESS_MESSAGES_IN_MAX
    requires item.result.Received? && i < |item.result.data|
    ensures LastByte(read, i).Some?
  {
    var n := |read| - 1;
    if item != read[n] {
      assert item in read[..n];
      LastByteKnown(read[..n], item, i);
    }
  }

  lemma IntactIffLastBytes(s: State, item: Item)
    requires SegmentZero(s) && item in s.h.read && WellRead(item, s.calls)
    requires item.call >= PROCESS_MESSAGES_IN_MAX && item.result.Received?
    ensures Intact(s, item)
            <==> forall i :: 0 <= i < |item.result.data| ==> LastByte(s.h.read, i) == Some(item.result.data[i])
  {
    InSegmentZero(item.call);
    var data := item.result.data;
    forall i | 0 <= i < |data| ensures LastByte(s.h.read, i) == Some(s.mem[i]) {
      LastByteKnown(s.h.read, item, i);
    }
    if Intact(s, item) {
      assert forall i :: 0 <= i < |data| ==> s.mem[..|data|][i] == data[i];
    }
  }

  /** The message stems from one of the first 4095 calls, or each of its bytes is the last one
      that the reads so far have stored at its place. */
  predicate StillStored(read: seq<Item>, item: Item) {
    && item.result.Received?
    && (item.call < 4096
        || forall i :: 0 <= i < |item.result.data| ==> LastByte(read, i) == Some(item.result.data[i]))
  }

  /** The exact condition over whole runs, in terms of the reads alone: in every state, a message
      is intact if and only if it is still stored in this sense. */
  lemma IntactIff(fix: bool, s: State, mem: string, run: seq<Action>, item: Item)
    requires Reached(fix, s, mem, run) && item in s.h.read
    ensures Intact(s, item) <==> StillStored(s.h.read, item)
  {
    ReachedInv(fix, s, mem, run);
    if item.call >= PROCESS_MESSAGES_IN_MAX && item.result.Received? {
      ReachedSegmentZero(fix, s, mem, run);
      IntactIffLastBytes(s, item);
    } else if item.result.Received? {
      assert Protected(s, item);
    }
  }

  lemma ReachedSegmentZero(fix: bool, s: State, mem: string, run: seq<Action>)
    requires Reached(fix, s, mem, run)
    ensures SegmentZero(s)
  {
    InvInit(fix, mem);
    SegmentZeroExec(fix, Init(mem), run);
  }

  /** From the socket to the session store: the worker dispatches the very fields that were
      received, in every interleaving, for each protected message of at least 67 bytes. */
  lemma DispatchSeesReceived(fix: bool, s: State, mem: string, run: seq<Action>, sendOk: bool)
    requires Reached(fix, s, mem, run) && Enabled(s, DispatchNext(sendOk))
    requires var item := s.waiting[|s.pass.done|]; Protected(s, item) && |item.result.data| >= HEADER_BYTES
    ensures Step(fix, s, DispatchNext(sendOk)).events
            == s.events + [Event(Decode(s.waiting[|s.pass.done|].result.data), sendOk)]
  {
    ReachedInv(fix, s, mem, run);
    var item := s.waiting[|s.pass.done|];
    LiveWasRead(s, item);
    SmallModulus(|item.result.data|, TWO_TO_THE_16);
    ViewOfWholeBuffer(s.mem, item.msg, item.result.data);
  }

  /** In particular what the Apache module has sent for a request. */
  lemma DispatchSeesRequest(fix: bool, s: State, mem: string, run: seq<Action>, sendOk: bool,
                            kind: string, session: string, payload: string)
    requires Reached(fix, s, mem, run) && Enabled(s, DispatchNext(sendOk))
    requires var item := s.waiting[|s.pass.done|];
             Protected(s, item) && WireText(kind, session, payload) == Some(item.result.data)
    ensures Step(fix, s, DispatchNext(sendOk)).events
            == s.events + [Event(View(KindOf(kind), session, if KindOf(kind).Set? then payload else ""), sendOk)]
  {
    RequestRoundTrip(kind, session, payload);
    DispatchSeesReceived(fix, s, mem, run, sendOk);
  }

  /** The ledger of every session in every run: handed over, then still stored, is accepted. */
  lemma SessionLedger(fix: bool, s: State, mem: string, run: seq<Action>, id: string)
    requires Reached(fix, s, mem, run)
    ensures HandedOver(map[], s.events, id) + Reverse(MailboxOf(s.store, id)) == Accepted(map[], s.events, id)
    ensures StoreInv(s.store)
  {
    ReachedInv(fix, s, mem, run);
    ExactlyOnce(map[], s.events, id);
    assert Reverse<string>([]) == [];
  }

  /** With the shift-correct erase no message is lost or repeated by the worker: the messages
      read are pairwise different, and each is in exactly one of Messages, the transfer vector,
      the queue, the waiting list, the completed dispatches and the discarded transfers. */
  lemma EveryMessageOnce(s: State, mem: string, run: seq<Action>)
    requires Reached(true, s, mem, run)
    ensures PassShape(s) && Distinct(s.h.read)
    ensures multiset(s.h.read)
            == multiset(s.h.messages) + multiset(s.h.transfer) + multiset(s.h.queue) + multiset(Remaining(s))
               + multiset(Items(s.completed)) + multiset(H.Discarded(s.h.batches))
  {
    ReachedInv(true, s, mem, run);
    H.InvConserves(s.h);
    ReadDistinct(s.h.read);
  }

  lemma ReadDistinct(items: seq<Item>)
    requires AscendingCalls(items)
    ensures Distinct(items)
  {
    forall i, j | 0 <= i < j < |items| ensures items[i] != items[j] {
      assert items[i].call < items[j].call;
    }
  }

  /** So each SET is applied at most once, and its dispatch is the one recorded for it. */
  lemma SetsAppliedOnce(s: State, mem: string, run: seq<Action>)
    requires Reached(true, s, mem, run)
    ensures Distinct(Items(s.completed))
    ensures Sets(s.events) == Sets(Events(s.completed))
  {
    EveryMessageOnce(s, mem, run);
    ReachedInv(true, s, mem, run);
    var items := Items(s.completed);
    forall i, j | 0 <= i < j < |items| ensures items[i] != items[j] {
      if items[i] == items[j] {
        Twice(items, i, j);
        Once(s.h.read, items[i]);
      }
    }
  }

  lemma Twice<T>(q: seq<T>, i: nat, j: nat)
    requires i < j < |q| && q[i] == q[j]
    ensures multiset(q)[q[i]] >= 2
  {
    assert q == q[..j] + [q[j]] + q[j + 1..];
    assert q[i] in q[..j];
  }

  lemma {:induction false} Once<T>(q: seq<T>, x: T)
    requires Distinct(q)
    ensures multiset(q)[x] <= 1
  {
    if q != [] {
      var n := |q| - 1;
      Once(q[..n], x);
      assert q == q[..n] + [q[n]];
    }
  }

  /** In every state of a run of the server as written, its erase does what the shift-correct
      one does if and only if the pass has completed at most one message. */
  lemma AsWrittenEndIff(s: State, mem: string, run: seq<Action>)
    requires Reached(false, s, mem, run) && Enabled(s, EndPass)
    ensures Step(false, s, EndPass) == Step(true, s, EndPass) <==> |DoneIndices(s.pass.done)| <= 1
  {
    ReachedInv(false, s, mem, run);
    EraseAgreesIff(s.waiting, s.pass.done);
    EndStepsAgreeIff(s);
  }

  /** And it runs off the vector in just the states that meet this guard. */
  lemma AsWrittenEndFaultIff(s: State, mem: string, run: seq<Action>)
    requires Reached(false, s, mem, run) && Enabled(s, EndPass)
    ensures Step(false, s, EndPass).fault <==> s.fault || RunsOff(|s.waiting|, s.pass.done)
  {
    ReachedInv(false, s, mem, run);
    AsWrittenFaultIff(s.waiting, s.pass.done);
  }

  /** What the as-written erase leaves, as EndStep uses it: unchanged if it runs off. */
  function Erased(q: seq<Item>, indices: seq<nat>): seq<Item> {
    if EraseEach(q, indices).Some? then EraseEach(q, indices).value else q
  }

  lemma EraseAgreesIff(q: seq<Item>, done: seq<bool>)
    requires AscendingCalls(q) && |done| <= |q|
    ensures Erased(q, DoneIndices(done)) == Left(q, done) <==> |DoneIndices(done)| <= 1
    ensures |DoneIndices(done)| <= 1 ==> EraseEach(q, DoneIndices(done)).Some?
  {
    AsWrittenPassLeavesIff(q, done);
    if |DoneIndices(done)| > 1 {
      KeptShorter(q[..|done|], done, DoneIndices(done)[0]);
      assert |Left(q, done)| < |q|;
    }
  }

  lemma EndStepsAgreeIff(s: State)
    requires Enabled(s, EndPass) && |s.pass.done| <= |s.waiting|
    ensures var deletes := DoneIndices(s.pass.done);
            && EndStep(true, s).waiting == Left(s.waiting, s.pass.done)
            && EndStep(false, s).waiting == Erased(s.waiting, deletes)
            && (EraseEach(s.waiting, deletes) == Some(Left(s.waiting, s.pass.done))
                ==> EndStep(false, s) == EndStep(true, s))
  {
    CorrectedPassLeaves(s.waiting, s.pass.done);
  }

  /** All passes along a run of the server as written complete at most one message each. */
  ghost predicate SinglePasses(s: State, run: seq<Action>)
    decreases |run|
  {
    run == [] ||
    ((run[0].EndPass? && Enabled(s, EndPass) ==> |DoneIndices(s.pass.done)| <= 1)
     && SinglePasses(Step(false, s, run[0]), run[1..]))
  }

  lemma {:induction false} SameStep(s: State, a: Action)
    requires Inv(false, s) && (a.EndPass? && Enabled(s, a) ==> |DoneIndices(s.pass.done)| <= 1)
    ensures Step(false, s, a) == Step(true, s, a)
  {
    if a.EndPass? && Enabled(s, a) {
      AsWrittenPassLeavesIff(s.waiting, s.pass.done);
      CorrectedPassLeaves(s.waiting, s.pass.done);
    }
  }

  /** Such a run is, state by state, a run of the corrected server, with all it guarantees. */
  lemma {:induction false} SinglePassesAgree(s: State, run: seq<Action>)
    requires Inv(false, s) && SinglePasses(s, run)
    ensures Exec(false, s, run) == Exec(true, s, run)
    decreases |run|
  {
    if run != [] {
      SameStep(s, run[0]);
      InvStep(false, s, run[0]);
      SinglePassesAgree(Step(false, s, run[0]), run[1..]);
    }
  }
}
