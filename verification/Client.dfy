/** ClientHandler.cpp: reading the ready descriptors into the buffer block and handing the
    messages over to the worker. The read() results are the input. */
module Client {
  import opened Common
  import opened Dispatch
  import opened Handoff
  import opened MemoryBlock
  import opened Worker

  /** A read() that fails with -1, or one that stores some bytes; none means end of file. */
  datatype ReadResult = Failed | Received(data: string)

  datatype Ready = Ready(fd: nat, result: ReadResult)

  predicate Closing(r: ReadResult) { r == Received("") }

  /** static_cast<uint16_t>(RcvBytes); a failed read becomes length 65535. */
  function RcvBytes(r: ReadResult): nat {
    if r.Failed? then TWO_TO_THE_16 - 1 else |r.data| % TWO_TO_THE_16
  }

  function Stored(mem: string, at: nat, r: ReadResult): (m: string)
    ensures |m| == |mem|
  {
    if r.Received? && at + |r.data| <= |mem| then Overwrite(mem, at, r.data) else mem
  }

  function MessagePointer(call: nat): nat { Pointer(PROCESS_MESSAGES_IN_MAX, MSGBUFFER_SIZE, call) }

  function MessageOf(e: Ready, call: nat): Transfer {
    Transfer(e.fd % TWO_TO_THE_16, MessagePointer(call), RcvBytes(e.result))
  }

  /** The messages of a batch of ready descriptors in epoll order; closing ones give none. */
  function BatchMessages(events: seq<Ready>, calls: nat): (r: seq<Transfer>) {
    if events == [] then []
    else
      var n := |events| - 1;
      BatchMessages(events[..n], calls)
      + (if Closing(events[n].result) then [] else [MessageOf(events[n], calls + n + 1)])
  }

  function BatchMemory(mem: string, events: seq<Ready>, calls: nat): (m: string)
    ensures |m| == |mem|
  {
    if events == [] then mem
    else
      var n := |events| - 1;
      Stored(BatchMemory(mem, events[..n], calls), MessagePointer(calls + n + 1), events[n].result)
  }

  ghost predicate FitBuffers(events: seq<Ready>) {
    forall e :: e in events && e.result.Received? ==> |e.result.data| <= MSGBUFFER_SIZE
  }

  lemma BatchMemoryStep(mem: string, events: seq<Ready>, calls: nat, i: nat)
    requires i < |events|
    ensures BatchMemory(mem, events[..i + 1], calls)
            == Stored(BatchMemory(mem, events[..i], calls), MessagePointer(calls + i + 1), events[i].result)
  {
    var taken := events[..i + 1];
    assert taken[..i] == events[..i] && taken[i] == events[i];
  }

  lemma BatchMessagesStep(events: seq<Ready>, calls: nat, i: nat, before: seq<Transfer>)
    requires i < |events|
    ensures Reverse(BatchMessages(events[..i + 1], calls)) + before
            == (if Closing(events[i].result) then [] else [MessageOf(events[i], calls + i + 1)])
               + (Reverse(BatchMessages(events[..i], calls)) + before)
  {
    var taken := events[..i + 1];
    assert taken[..i] == events[..i] && taken[i] == events[i];
    var last := if Closing(events[i].result) then [] else [MessageOf(events[i], calls + i + 1)];
    assert BatchMessages(taken, calls) == BatchMessages(events[..i], calls) + last;
    ReverseConcat(BatchMessages(events[..i], calls), last);
    assert Reverse(last) == last;
  }

  lemma BufferInBlock(call: nat)
    ensures MessagePointer(call) + MSGBUFFER_SIZE <= PROCESS_MESSAGES_IN_MAX * MSGBUFFER_SIZE
  {
    PointerInBlock(PROCESS_MESSAGES_IN_MAX, MSGBUFFER_SIZE, call);
  }

  /** The descriptors with something to hand over, by position: all but those that read nothing. */
  function OpenIndices(events: seq<Ready>): (r: seq<nat>)
    ensures forall k :: 0 <= k < |r| ==> r[k] < |events| && events[r[k]].result != Received("")
    ensures forall i :: 0 <= i < |events| && events[i].result != Received("") ==> i in r
    ensures Ascending(r)
  {
    if events == [] then []
    else
      var n := |events| - 1;
      OpenIndices(events[..n]) + (if Closing(events[n].result) then [] else [n])
  }

  /** The length that the worker is told: that of the data, and 65535 for a failed read. */
  lemma RcvBytesIs(r: ReadResult)
    requires r.Received? ==> |r.data| <= MSGBUFFER_SIZE
    ensures RcvBytes(r) == if r.Failed? then 65535 else |r.data|
  {
    if r.Received? { SmallModulus(|r.data|, TWO_TO_THE_16); }
  }

  /** This message was made for this read: its descriptor, the segment of its call - segment 0
      from call 4096 on - and its length. */
  ghost predicate MadeFor(m: Transfer, e: Ready, call: nat) {
    && m.fd == e.fd % TWO_TO_THE_16 && m.ptr == (if call < 4096 then call * 8192 else 0)
    && m.bytes == if e.result.Failed? then 65535 else |e.result.data|
  }

  lemma MessageMade(e: Ready, call: nat)
    requires e.result.Received? ==> |e.result.data| <= MSGBUFFER_SIZE
    ensures MadeFor(MessageOf(e, call), e, call)
  {
    PointerClosedForm(PROCESS_MESSAGES_IN_MAX, MSGBUFFER_SIZE, call);
    if call < PROCESS_MESSAGES_IN_MAX { PointerNoOverflow(PROCESS_MESSAGES_IN_MAX, MSGBUFFER_SIZE, call); }
    RcvBytesIs(e.result);
  }

  /** The messages are made for the reads at these positions, in order. */
  ghost predicate InOrder(msgs: seq<Transfer>, events: seq<Ready>, open: seq<nat>, calls: nat) {
    && |msgs| == |open|
    && forall k :: 0 <= k < |open| ==> open[k] < |events| && MadeFor(msgs[k], events[open[k]], calls + open[k] + 1)
  }

  lemma InOrderSnoc(msgs: seq<Transfer>, events: seq<Ready>, open: seq<nat>, calls: nat, e: Ready, m: Transfer)
    requires InOrder(msgs, events, open, calls)
    ensures InOrder(msgs, events + [e], open, calls)
    ensures MadeFor(m, e, calls + |events| + 1) ==> InOrder(msgs + [m], events + [e], open + [|events|], calls)
  {
  }

  /** A batch of descriptors gives a message for each that has read something or failed, in epoll
      order, with that descriptor, and with the buffer of its read - which the others use up
      as well. */
  lemma {:induction false} BatchInOrder(events: seq<Ready>, calls: nat)
    requires FitBuffers(events)
    ensures InOrder(BatchMessages(events, calls), events, OpenIndices(events), calls)
  {
    if events != [] {
      var n := |events| - 1;
      BatchInOrder(events[..n], calls);
      MessageMade(events[n], calls + n + 1);
      OneMoreInOrder(events, calls);
    }
  }

  lemma {:induction false} OneMoreInOrder(events: seq<Ready>, calls: nat)
    requires events != []
    requires var n := |events| - 1;
             && InOrder(BatchMessages(events[..n], calls), events[..n], OpenIndices(events[..n]), calls)
             && MadeFor(MessageOf(events[n], calls + n + 1), events[n], calls + n + 1)
    ensures InOrder(BatchMessages(events, calls), events, OpenIndices(events), calls)
  {
    var n := |events| - 1;
    var before, e, m := events[..n], events[n], MessageOf(events[n], calls + n + 1);
    assert events == before + [e];
    InOrderSnoc(BatchMessages(before, calls), before, OpenIndices(before), calls, e, m);
    if Closing(e.result) {
      assert BatchMessages(events, calls) == BatchMessages(before, calls) && OpenIndices(events) == OpenIndices(before);
    } else {
      assert BatchMessages(events, calls) == BatchMessages(before, calls) + [m];
    }
  }

  class ClientHandler {
    const MemManager: MemoryManager
    const Shared: SharedQueue
    var Messages: seq<Transfer>
    var ProcessedClients: nat

    ghost predicate Valid()
      reads this, MemManager
    {
      && MemManager.Valid()
      && MemManager.SegmentCount == PROCESS_MESSAGES_IN_MAX
      && MemManager.SegmentSize == MSGBUFFER_SIZE
    }

    constructor (shared: SharedQueue)
      ensures Valid() && Shared == shared && Messages == [] && ProcessedClients == 0
      ensures fresh(MemManager) && fresh(MemManager.Block) && MemManager.Calls == 0
    {
      MemManager := new MemoryManager(PROCESS_MESSAGES_IN_MAX, MSGBUFFER_SIZE);
      Shared, Messages, ProcessedClients := shared, [], 0;
    }

    /** Each descriptor is read into the next segment; what was read goes to the front. */
    method ReadClientData(events: seq<Ready>)
      requires Valid() && FitBuffers(events)
      modifies this, MemManager, MemManager.Block
      ensures Valid() && MemManager.Calls == old(MemManager.Calls) + |events|
      ensures Messages == Reverse(BatchMessages(events, old(MemManager.Calls))) + old(Messages)
      ensures MemManager.Block[..] == BatchMemory(old(MemManager.Block[..]), events, old(MemManager.Calls))
      ensures ProcessedClients == |events| % 256
    {
      ghost var calls, mem := MemManager.Calls, MemManager.Block[..];
      var i := 0;
      while i < |events|
        invariant 0 <= i <= |events|
        invariant Valid() && MemManager.Calls == calls + i
        invariant Messages == Reverse(BatchMessages(events[..i], calls)) + old(Messages)
        invariant MemManager.Block[..] == BatchMemory(mem, events[..i], calls)
      {
        BatchMemoryStep(mem, events, calls, i);
        BatchMessagesStep(events, calls, i, old(Messages));
        ReadOne(events[i]);
        i := i + 1;
      }
      assert events[..i] == events;
      ProcessedClients := |events| % 256;
    }

    method ReadOne(e: Ready)
      requires Valid() && (e.result.Received? ==> |e.result.data| <= MSGBUFFER_SIZE)
      modifies this, MemManager, MemManager.Block
      ensures Valid() && MemManager.Calls == old(MemManager.Calls) + 1
      ensures Messages == (if Closing(e.result) then [] else [MessageOf(e, MemManager.Calls)]) + old(Messages)
      ensures MemManager.Block[..] == Stored(old(MemManager.Block[..]), MessagePointer(MemManager.Calls), e.result)
    {
      var p := MemManager.GetNextMemPointer();
      BufferInBlock(MemManager.Calls);
      if e.result.Received? {
        MemManager.CopyInto(p, e.result.data);
      }
      if !Closing(e.result) {
        Messages := [Transfer(e.fd % TWO_TO_THE_16, p, RcvBytes(e.result))] + Messages;
      }
    }

    /** transferMessages without a step of the worker in between: Messages is given up in
        any case, and reaches the queue only if the flag says PROCESSED. */
    method TransferMessages()
      modifies this, Shared
      ensures Messages == [] && ProcessedClients == old(ProcessedClients)
      ensures if old(Shared.QueueLock).ProcessedQueue? then
                Shared.Queue == old(Shared.Queue) + Reverse(old(Messages)) && Shared.QueueLock == WroteQueue
              else Shared.Queue == old(Shared.Queue) && Shared.QueueLock == WroteQueue
    {
      var transfer := Messages;
      Messages := [];
      if Shared.QueueLock == ProcessedQueue {
        var count := |transfer|;
        for i := 0 to count
          invariant |transfer| == count - i
          invariant Shared.Queue + Reverse(transfer) == old(Shared.Queue) + Reverse(old(Messages))
          invariant Shared.QueueLock == ProcessedQueue && Messages == []
          invariant ProcessedClients == old(ProcessedClients)
        {
          ReversePop(transfer);
          Shared.Queue := Shared.Queue + [transfer[|transfer| - 1]];
          transfer := transfer[..|transfer| - 1];
        }
        Shared.QueueLock := WroteQueue;
      }
    }

    /** processClients; None stands for a failing epoll_wait. Inserting at the front while
        reading and popping from the back while transferring cancel out: the queue receives
        the non-closing reads in epoll order, or loses them if the flag says WROTE. */
    method ProcessClients(ready: Option<seq<Ready>>)
      requires Valid() && (ready.Some? ==> FitBuffers(ready.value))
      modifies this, MemManager, MemManager.Block, Shared
      ensures Valid()
      ensures ready.None? || ready.value == [] ==>
                unchanged(Shared) && unchanged(MemManager.Block) && unchanged(MemManager)
                && Messages == old(Messages) && ProcessedClients == 0
      ensures ready.Some? && ready.value != [] ==>
                && Messages == [] && Shared.QueueLock == WroteQueue
                && Shared.Queue == old(Shared.Queue)
                     + (if old(Shared.QueueLock).WroteQueue? then []
                        else Reverse(old(Messages)) + BatchMessages(ready.value, old(MemManager.Calls)))
                && MemManager.Block[..] == BatchMemory(old(MemManager.Block[..]), ready.value, old(MemManager.Calls))
                && MemManager.Calls == old(MemManager.Calls) + |ready.value|
    {
      ProcessedClients := 0;
      if ready.None? { return; }
      if |ready.value| > 0 {
        ghost var batch := BatchMessages(ready.value, MemManager.Calls);
        ReadClientData(ready.value);
        ReverseConcat(Reverse(batch), old(Messages));
        ReverseReverse(batch);
        TransferMessages();
      }
    }
  }
}
