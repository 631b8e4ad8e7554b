/** The hand-over of messages between the network thread and the worker thread: an unlocked
    queue guarded by a two-valued atomic flag (ClientHandler::transferMessages, the first half
    of MessageHandler::processMessages, the start state of MsgServer). Each thread has a
    program counter, and every shared access is a step of its own. */
module Handoff {
  import opened Common

  datatype Flag = WroteQueue | ProcessedQueue

  /** Reading: filling Messages. Testing: Messages copied and cleared, flag not yet read.
      Pushing: the flag was PROCESSED, done of count elements are in the queue. */
  datatype NetworkPC = Reading | Testing | Pushing(count: nat, done: nat)

  /** Snapshot: the flag was WROTE, Queue->size() not yet read. Popping: done of size
      elements taken. Working: past the flag, dispatching messages. */
  datatype WorkerPC = Checking | Snapshot | Popping(size: nat, done: nat) | Working

  /** One transfer in read order; accepted is false when its test of the flag saw WROTE. */
  datatype Batch<T> = Batch(items: seq<T>, accepted: bool)

  /** messages is newest first, as in the source. The last four fields are history: what was
      read, the transfers tested so far, what was pushed and what was popped. */
  datatype State<T> = State(
    flag: Flag, queue: seq<T>, fault: bool,
    net: NetworkPC, messages: seq<T>, transfer: seq<T>,
    worker: WorkerPC,
    read: seq<T>, batches: seq<Batch<T>>, pushed: seq<T>, popped: seq<T>)

  datatype Action<T> =
    | Read(item: T) | CopyAndClear | TestFlag | PushOne | ReleaseWrote
    | CheckFlag | TakeSize | PopOne | ReleaseProcessed | WorkDone

  function Init<T>(): (s: State<T>) {
    State(ProcessedQueue, [], false, Reading, [], [], Checking, [], [], [], [])
  }

  predicate Enabled<T>(s: State<T>, a: Action<T>) {
    match a
    case Read(_) => s.net.Reading?
    case CopyAndClear => s.net.Reading?
    case TestFlag => s.net.Testing?
    case PushOne => s.net.Pushing? && s.net.done < s.net.count
    case ReleaseWrote => s.net.Pushing? && s.net.done >= s.net.count
    case CheckFlag => s.worker.Checking?
    case TakeSize => s.worker.Snapshot?
    case PopOne => s.worker.Popping? && s.worker.done < s.worker.size
    case ReleaseProcessed => s.worker.Popping? && s.worker.done >= s.worker.size
    case WorkDone => s.worker.Working?
  }

  /** One step of one thread. A step that its program counter does not allow leaves the
      state alone, so every interleaving is a sequence of actions. back() of an empty vector
      and front() of an empty queue, undefined in C++, set fault. */
  function Step<T>(s: State<T>, a: Action<T>): (s': State<T>) {
    if !Enabled(s, a) then s else
    match a
    case Read(item) => s.(messages := [item] + s.messages, read := s.read + [item])
    case CopyAndClear => s.(transfer := s.messages, messages := [], net := Testing)
    case TestFlag =>
      var ok := s.flag.ProcessedQueue?;
      s.(net := if ok then Pushing(|s.transfer|, 0) else Reading,
         transfer := if ok then s.transfer else [],
         batches := s.batches + [Batch(Reverse(s.transfer), ok)])
    case PushOne =>
      if s.transfer == [] then s.(fault := true) else
      var last := s.transfer[|s.transfer| - 1];
      s.(queue := s.queue + [last], pushed := s.pushed + [last],
         transfer := s.transfer[..|s.transfer| - 1], net := s.net.(done := s.net.done + 1))
    case ReleaseWrote => s.(flag := WroteQueue, net := Reading)
    case CheckFlag => s.(worker := if s.flag.WroteQueue? then Snapshot else Working)
    case TakeSize => s.(worker := Popping(|s.queue|, 0))
    case PopOne =>
      if s.queue == [] then s.(fault := true) else
      s.(popped := s.popped + [s.queue[0]], queue := s.queue[1..], worker := s.worker.(done := s.worker.done + 1))
    case ReleaseProcessed => s.(flag := ProcessedQueue, worker := Working)
    case WorkDone => s.(worker := Checking)
  }

  function Exec<T>(s: State<T>, run: seq<Action<T>>): (s': State<T>)
    decreases |run|
  {
    if run == [] then s else Exec(Step(s, run[0]), run[1..])
  }

  // ---- what the source promises ------------------------------------------------------------

  predicate NetworkInside<T>(s: State<T>) { s.net.Pushing? }
  predicate WorkerInside<T>(s: State<T>) { s.worker.Snapshot? || s.worker.Popping? }

  /** Mutual exclusion, exact size snapshot, no fault, FIFO, and an empty queue whenever the
      flag says PROCESSED and the network thread is outside. */
  ghost predicate Safe<T>(s: State<T>) {
    && !(NetworkInside(s) && WorkerInside(s))
    && (s.worker.Popping? ==> s.worker.size == s.worker.done + |s.queue|)
    && !s.fault
    && s.popped + s.queue == s.pushed
    && (s.flag.ProcessedQueue? && !NetworkInside(s) ==> s.queue == [])
  }

  function All<T>(batches: seq<Batch<T>>): (r: seq<T>) {
    if batches == [] then [] else All(batches[..|batches| - 1]) + batches[|batches| - 1].items
  }

  function Surviving<T>(batches: seq<Batch<T>>): (r: seq<T>) {
    if batches == [] then []
    else
      var last := batches[|batches| - 1];
      Surviving(batches[..|batches| - 1]) + (if last.accepted then last.items else [])
  }

  function InTransfer<T>(s: State<T>): seq<T> { Reverse(s.transfer) }

  /** Every message read is, in read order, in a tested transfer, in the transfer about to be
      tested, or still in Messages; and the accepted transfers are, in read order, what was
      popped, what is queued and what is being pushed. */
  ghost predicate Accounted<T>(s: State<T>) {
    && s.read == All(s.batches) + (if s.net.Testing? then InTransfer(s) else []) + Reverse(s.messages)
    && Surviving(s.batches) == s.popped + s.queue + (if s.net.Pushing? then InTransfer(s) else [])
  }

  ghost predicate Inv<T>(s: State<T>) {
    && Safe(s)
    && Accounted(s)
    && (WorkerInside(s) ==> s.flag.WroteQueue?)
    && (s.net.Pushing? ==> s.flag.ProcessedQueue? && s.net.count == s.net.done + |s.transfer|)
    && (s.net.Reading? ==> s.transfer == [])
    && (s.net.Testing? ==> s.messages == [])
  }

  lemma BatchesSnoc<T>(batches: seq<Batch<T>>, b: Batch<T>)
    ensures All(batches + [b]) == All(batches) + b.items
    ensures Surviving(batches + [b]) == Surviving(batches) + (if b.accepted then b.items else [])
  {
    assert (batches + [b])[..|batches|] == batches;
  }

  lemma InvStep<T>(s: State<T>, a: Action<T>)
    requires Inv(s)
    ensures Inv(Step(s, a))
  {
    if Enabled(s, a) {
      match a {
        case Read(item) => InvRead(s, item);
        case CopyAndClear => InvCopy(s);
        case TestFlag => InvTest(s);
        case PushOne => InvPush(s);
        case PopOne => InvPop(s);
        case _ =>
      }
    }
  }

  lemma InvRead<T>(s: State<T>, item: T)
    requires Inv(s) && Enabled(s, Read(item))
    ensures Inv(Step(s, Read(item)))
  {
    ReverseConcat([item], s.messages);
    assert Reverse([item]) == [item];
  }

  lemma InvCopy<T>(s: State<T>)
    requires Inv(s) && Enabled<T>(s, CopyAndClear)
    ensures Inv(Step(s, CopyAndClear))
  {
    assert Reverse<T>([]) == [];
  }

  lemma InvTest<T>(s: State<T>)
    requires Inv(s) && Enabled<T>(s, TestFlag)
    ensures Inv(Step(s, TestFlag))
  {
    BatchesSnoc(s.batches, Batch(Reverse(s.transfer), s.flag.ProcessedQueue?));
  }

  lemma InvPush<T>(s: State<T>)
    requires Inv(s) && Enabled<T>(s, PushOne)
    ensures Inv(Step(s, PushOne))
  {
    ReversePop(s.transfer);
    var last := [s.transfer[|s.transfer| - 1]];
    assert s.popped + (s.queue + last) == (s.popped + s.queue) + last;
    assert s.popped + s.queue + InTransfer(s) == s.popped + (s.queue + last) + Reverse(s.transfer[..|s.transfer| - 1]);
  }

  lemma InvPop<T>(s: State<T>)
    requires Inv(s) && Enabled<T>(s, PopOne)
    ensures Inv(Step(s, PopOne))
  {
    assert (s.popped + [s.queue[0]]) + s.queue[1..] == s.popped + s.queue;
  }

  /** Which steps add to the histories of reads and of pops, and by how much. */
  lemma StepHistories<T>(s: State<T>, a: Action<T>)
    ensures a.Read? || Step(s, a).read == s.read
    ensures a.PopOne? || Step(s, a).popped == s.popped
    ensures s.popped <= Step(s, a).popped
  {
  }

  lemma {:induction false} InvExec<T>(s: State<T>, run: seq<Action<T>>)
    requires Inv(s)
    ensures Inv(Exec(s, run))
    decreases |run|
  {
    if run != [] {
      InvStep(s, run[0]);
      InvExec(Step(s, run[0]), run[1..]);
    }
  }

  /** Over every interleaving of the two threads from the start state of MsgServer. */
  lemma SafeAlways<T>(run: seq<Action<T>>)
    ensures Safe(Exec<T>(Init(), run)) && Accounted(Exec<T>(Init(), run))
  {
    InvExec(Init(), run);
  }

  /** Conservation as a multiset equation: each message read is in exactly one place. */
  lemma Conservation<T>(run: seq<Action<T>>)
    ensures Conserved(Exec(Init(), run))
  {
    InvExec(Init(), run);
    InvConserves(Exec(Init(), run));
  }

  ghost predicate Conserved<T>(s: State<T>) {
    multiset(s.read) == multiset(s.messages) + multiset(s.transfer) + multiset(s.queue)
                        + multiset(s.popped) + multiset(Discarded(s.batches))
  }

  lemma InvConserves<T>(s: State<T>)
    requires Inv(s)
    ensures Conserved(s)
  {
    AllSplits(s.batches);
    ReverseMultiset(s.messages);
    ReverseMultiset(s.transfer);
  }

  function Discarded<T>(batches: seq<Batch<T>>): (r: seq<T>) {
    if batches == [] then []
    else
      var last := batches[|batches| - 1];
      Discarded(batches[..|batches| - 1]) + (if last.accepted then [] else last.items)
  }

  lemma {:induction false} AllSplits<T>(batches: seq<Batch<T>>)
    ensures multiset(All(batches)) == multiset(Surviving(batches)) + multiset(Discarded(batches))
  {
    if batches != [] { AllSplits(batches[..|batches| - 1]); }
  }

  lemma {:induction false} ReverseMultiset<T>(s: seq<T>)
    ensures multiset(Reverse(s)) == multiset(s)
  {
    if s != [] {
      var n := |s| - 1;
      ReversePop(s);
      ReverseMultiset(s[..n]);
      assert s == s[..n] + [s[n]];
    }
  }

  /** A run has lost nothing - what was read is, in order, what was popped, what is queued and
      what is still with the network thread - if and only if no transfer that held messages
      saw WROTE. */
  lemma NoLossIff<T>(run: seq<Action<T>>)
    ensures var s := Exec(Init(), run);
            s.read == s.popped + s.queue + InTransfer(s) + Reverse(s.messages)
            <==> forall b :: b in s.batches ==> b.accepted || b.items == []
  {
    InvExec(Init(), run);
    var s := Exec(Init(), run);
    SurvivingIsAllIff(s.batches);
  }

  lemma {:induction false} SurvivingIsAllIff<T>(batches: seq<Batch<T>>)
    ensures |Surviving(batches)| <= |All(batches)|
    ensures |Surviving(batches)| == |All(batches)| <==> forall b :: b in batches ==> b.accepted || b.items == []
    ensures |Surviving(batches)| == |All(batches)| ==> Surviving(batches) == All(batches)
  {
    if batches != [] {
      var n := |batches| - 1;
      SurvivingIsAllIff(batches[..n]);
      assert batches == batches[..n] + [batches[n]];
    }
  }

  /** The flag says WROTE until the worker releases it. */
  lemma {:induction false} WroteStays<T>(s: State<T>, run: seq<Action<T>>)
    requires s.flag.WroteQueue? && ReleaseProcessed !in run
    ensures Exec(s, run).flag.WroteQueue?
    decreases |run|
  {
    if run != [] { WroteStays(Step(s, run[0]), run[1..]); }
  }

  /** What has been discarded stays discarded. */
  lemma {:induction false} DiscardedStays<T>(s: State<T>, run: seq<Action<T>>)
    ensures Discarded(s.batches) <= Discarded(Exec(s, run).batches)
    decreases |run|
  {
    if run != [] {
      var t := Step(s, run[0]);
      DiscardedStays(t, run[1..]);
      if t.batches != s.batches { assert t.batches[..|s.batches|] == s.batches; }
    }
  }

  /** The loss does happen: a transfer tested before the worker has released the one before it
      is lost as a whole - whatever both threads have done in between, and for good. */
  lemma SecondTransferLost<T>(s: State<T>, between: seq<Action<T>>, later: seq<Action<T>>)
    requires Inv(s) && s.flag.WroteQueue? && ReleaseProcessed !in between
    requires Exec(s, between).net.Testing?
    ensures var tested := Exec(s, between);
            var end := Exec(Step(tested, TestFlag), later);
            && Discarded(tested.batches) + Reverse(tested.transfer) <= Discarded(end.batches)
            && Conserved(end)
  {
    WroteStays(s, between);
    var tested := Exec(s, between);
    var lost := Step(tested, TestFlag);
    assert lost.batches[..|tested.batches|] == tested.batches;
    DiscardedStays(lost, later);
    InvExec(s, between);
    InvStep(tested, TestFlag);
    InvExec(lost, later);
    InvConserves(Exec(lost, later));
  }

  lemma ExecStep<T>(s: State<T>, run: seq<Action<T>>)
    requires run != []
    ensures Exec(s, run) == Exec(Step(s, run[0]), run[1..])
    ensures |run| > 1 ==> run[1..] != []
  {
  }

  // ---- each thread on its own -----------------------------------------------------------------

  lemma {:induction false} ExecConcat<T>(s: State<T>, a: seq<Action<T>>, b: seq<Action<T>>)
    ensures Exec(s, a + b) == Exec(Exec(s, a), b)
    decreases |a|
  {
    if a == [] {
      assert a + b == b;
    } else {
      assert (a + b)[1..] == a[1..] + b;
      ExecConcat(Step(s, a[0]), a[1..], b);
    }
  }

  function Times<T>(a: Action<T>, n: nat): (r: seq<Action<T>>)
    ensures |r| == n
  {
    if n == 0 then [] else [a] + Times(a, n - 1)
  }

  /** The pushing loop of transferMessages without interruption: popping from the back of the
      newest-first list puts the messages into the queue in read order. */
  lemma {:induction false} PushLoop<T>(s: State<T>)
    requires s.net.Pushing? && s.net.count == s.net.done + |s.transfer|
    ensures Exec(s, Times(PushOne, |s.transfer|))
            == s.(queue := s.queue + Reverse(s.transfer), pushed := s.pushed + Reverse(s.transfer),
                  transfer := [], net := Pushing(s.net.count, s.net.count))
    decreases |s.transfer|
  {
    if s.transfer != [] {
      ReversePop(s.transfer);
      var next := Step(s, PushOne);
      PushLoop(next);
      var last := [s.transfer[|s.transfer| - 1]];
      assert s.queue + last + Reverse(next.transfer) == s.queue + Reverse(s.transfer);
      assert s.pushed + last + Reverse(next.transfer) == s.pushed + Reverse(s.transfer);
      assert Times<T>(PushOne, |s.transfer|)[1..] == Times(PushOne, |next.transfer|);
    } else {
      assert s.queue + [] == s.queue && s.pushed + [] == s.pushed;
    }
  }

  /** The draining loop of processMessages without interruption. */
  lemma {:induction false} PopLoop<T>(s: State<T>)
    requires s.worker.Popping? && s.worker.size == s.worker.done + |s.queue|
    ensures Exec(s, Times(PopOne, |s.queue|))
            == s.(popped := s.popped + s.queue, queue := [], worker := Popping(s.worker.size, s.worker.size))
    decreases |s.queue|
  {
    if s.queue != [] {
      var next := Step(s, PopOne);
      PopLoop(next);
      assert s.popped + [s.queue[0]] + next.queue == s.popped + s.queue;
      assert Times<T>(PopOne, |s.queue|)[1..] == Times(PopOne, |next.queue|);
    } else {
      assert s.popped + [] == s.popped;
    }
  }

  /** The steps of transferMessages. */
  function TransferRun<T>(s: State<T>): seq<Action<T>> {
    if s.flag.ProcessedQueue? then [CopyAndClear, TestFlag] + (Times(PushOne, |s.messages|) + [ReleaseWrote])
    else [CopyAndClear, TestFlag]
  }

  function AfterTransfer<T>(s: State<T>): State<T> {
    var batch := Reverse(s.messages);
    var given := s.(messages := [], transfer := [], net := Reading,
                    batches := s.batches + [Batch(batch, s.flag.ProcessedQueue?)]);
    if s.flag.ProcessedQueue? then
      given.(queue := s.queue + batch, pushed := s.pushed + batch, flag := WroteQueue)
    else given
  }

  /** Run without interruption they do what the sequential method ClientHandler.TransferMessages
      promises. */
  lemma TransferAlone<T>(s: State<T>)
    requires s.net.Reading?
    ensures Exec(s, TransferRun(s)) == AfterTransfer(s)
  {
    var tested := Step(Step(s, CopyAndClear), TestFlag);
    var open: seq<Action<T>> := [CopyAndClear, TestFlag];
    ExecStep(s, open);
    ExecStep(Step(s, CopyAndClear), open[1..]);
    assert Exec(s, open) == tested;
    if s.flag.ProcessedQueue? {
      var pushes := Times<T>(PushOne, |s.messages|);
      ExecConcat(s, open, pushes + [ReleaseWrote]);
      ExecConcat(tested, pushes, [ReleaseWrote]);
      PushLoop(tested);
      ExecStep(Exec(tested, pushes), [ReleaseWrote]);
    }
  }

  /** The steps of the queue section of processMessages. */
  function DrainRun<T>(s: State<T>): seq<Action<T>> {
    if s.flag.WroteQueue? then [CheckFlag, TakeSize] + (Times(PopOne, |s.queue|) + [ReleaseProcessed]) else [CheckFlag]
  }

  function AfterDrain<T>(s: State<T>): State<T> {
    if s.flag.WroteQueue? then
      s.(worker := Working, queue := [], flag := ProcessedQueue, popped := s.popped + s.queue)
    else s.(worker := Working)
  }

  /** Run without interruption they do what the sequential method DrainQueue promises. */
  lemma DrainAlone<T>(s: State<T>)
    requires s.worker.Checking?
    ensures Exec(s, DrainRun(s)) == AfterDrain(s)
  {
    ExecStep<T>(s, [CheckFlag]);
    if s.flag.WroteQueue? {
      var sized := Step(Step(s, CheckFlag), TakeSize);
      var open: seq<Action<T>> := [CheckFlag, TakeSize];
      ExecStep(s, open);
      ExecStep(Step(s, CheckFlag), open[1..]);
      var pops := Times<T>(PopOne, |s.queue|);
      ExecConcat(s, open, pops + [ReleaseProcessed]);
      ExecConcat(sized, pops, [ReleaseProcessed]);
      PopLoop(sized);
      ExecStep(Exec(sized, pops), [ReleaseProcessed]);
    }
  }

  // ---- the two threads together refine an atomic one-place mailbox of batches --------------

  /** slot holds a transferred batch until the worker takes it as a whole. */
  datatype Mailbox<T> = Mailbox(slot: Option<seq<T>>, taken: seq<T>)

  function Abs<T>(s: State<T>): (m: Mailbox<T>)
    requires Inv(s) && (s.worker.Popping? ==> s.worker.done <= |s.popped|)
  {
    var half := if s.worker.Popping? then s.worker.done else 0;
    var cut := |s.popped| - half;
    Mailbox(if s.flag.WroteQueue? then Some(s.popped[cut..] + s.queue) else None, s.popped[..cut])
  }

  /** The state as the refinement sees it: the invariant, the bound that Abs needs, and the
      whole accepted batch lying in popped ++ queue ++ transfer while it is pushed. */
  ghost predicate RefInv<T>(s: State<T>) {
    && Inv(s)
    && (s.worker.Popping? ==> s.worker.done <= |s.popped|)
    && (s.net.Pushing? ==> s.batches != [] && s.batches[|s.batches| - 1] == Batch(s.queue + InTransfer(s), true))
  }

  /** Every fine-grained step is invisible in the mailbox, except that releasing the flag as
      WROTE fills the empty slot with the whole accepted batch in read order, and releasing it
      as PROCESSED takes the whole slot. Pushes and pops in between are never seen halfway.
      A transfer is accepted exactly if the slot is empty when it tests the flag. */
  lemma StepRefinesMailbox<T>(s: State<T>, a: Action<T>)
    requires RefInv(s)
    ensures RefInv(Step(s, a))
    ensures var before, after := Abs(s), Abs(Step(s, a));
            if Enabled(s, a) && a.ReleaseWrote? then
              before.slot.None? && after == before.(slot := Some(s.batches[|s.batches| - 1].items))
            else if Enabled(s, a) && a.ReleaseProcessed? then
              before.slot.Some? && after == Mailbox(None, before.taken + before.slot.value)
            else after == before
    ensures Enabled(s, a) && a.TestFlag? ==>
              Step(s, a).batches == s.batches + [Batch(Reverse(s.transfer), Abs(s).slot.None?)]
  {
    if Enabled(s, a) {
      match a {
        case Read(item) => InvRead(s, item);
        case CopyAndClear => InvCopy(s);
        case TestFlag => TestHidden(s);
        case PushOne => PushHidden(s);
        case PopOne => PopHalf(s);
        case ReleaseWrote => ReleaseFills(s);
        case ReleaseProcessed => ReleaseTakes(s);
        case TakeSize => SizeHidden(s);
        case _ =>
      }
    }
  }

  lemma TestHidden<T>(s: State<T>)
    requires RefInv(s) && Enabled<T>(s, TestFlag)
    ensures RefInv(Step(s, TestFlag)) && Abs(Step(s, TestFlag)) == Abs(s)
    ensures Step(s, TestFlag).batches == s.batches + [Batch(Reverse(s.transfer), Abs(s).slot.None?)]
  {
    InvTest(s);
  }

  lemma PushHidden<T>(s: State<T>)
    requires RefInv(s) && Enabled<T>(s, PushOne)
    ensures RefInv(Step(s, PushOne)) && Abs(Step(s, PushOne)) == Abs(s)
  {
    InvPush(s);
    ReversePop(s.transfer);
  }

  lemma SizeHidden<T>(s: State<T>)
    requires RefInv(s) && Enabled<T>(s, TakeSize)
    ensures RefInv(Step(s, TakeSize)) && Abs(Step(s, TakeSize)) == Abs(s)
  {
  }

  lemma ReleaseFills<T>(s: State<T>)
    requires RefInv(s) && Enabled<T>(s, ReleaseWrote)
    ensures RefInv(Step(s, ReleaseWrote)) && Abs(s).slot.None?
    ensures Abs(Step(s, ReleaseWrote)) == Abs(s).(slot := Some(s.batches[|s.batches| - 1].items))
  {
    assert s.transfer == [];
    assert s.queue + InTransfer(s) == s.queue;
    assert s.popped[|s.popped|..] + s.queue == s.queue;
  }

  lemma ReleaseTakes<T>(s: State<T>)
    requires RefInv(s) && Enabled<T>(s, ReleaseProcessed)
    ensures RefInv(Step(s, ReleaseProcessed)) && Abs(s).slot.Some?
    ensures Abs(Step(s, ReleaseProcessed)) == Mailbox(None, Abs(s).taken + Abs(s).slot.value)
  {
    var cut := |s.popped| - s.worker.done;
    assert s.queue == [];
    assert s.popped[..cut] + (s.popped[cut..] + s.queue) == s.popped;
    assert s.popped[..|s.popped|] == s.popped;
  }

  lemma PopHalf<T>(s: State<T>)
    requires RefInv(s) && Enabled<T>(s, PopOne)
    ensures RefInv(Step(s, PopOne)) && Abs(Step(s, PopOne)) == Abs(s)
  {
    InvStep(s, PopOne);
    var t := Step(s, PopOne);
    var cut := |s.popped| - s.worker.done;
    assert t.popped[..cut] == s.popped[..cut];
    assert t.popped[cut..] + t.queue == s.popped[cut..] + s.queue;
  }

  lemma {:induction false} RefinesMailboxAlways<T>(run: seq<Action<T>>)
    ensures RefInv(Exec<T>(Init(), run))
  {
    RefInvExec<T>(Init(), run);
  }

  lemma {:induction false} RefInvExec<T>(s: State<T>, run: seq<Action<T>>)
    requires RefInv(s)
    ensures RefInv(Exec(s, run))
    decreases |run|
  {
    if run != [] {
      StepRefinesMailbox(s, run[0]);
      RefInvExec(Step(s, run[0]), run[1..]);
    }
  }
}
