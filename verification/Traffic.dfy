/** What goes into and comes out of whole runs of the server: every read() with its descriptor,
    and every reply. */
module Traffic {
  import opened Common
  import opened Client
  import opened Dispatch
  import opened MemoryBlock
  import opened Pipeline
  import opened Rounds
  import H = Handoff

  function ReadMade(s: State, a: Action): seq<Ready> {
    if a.ReadReady? && Enabled(s, a) then [a.ready] else []
  }

  /** The read() calls of a run, in order. */
  function ReadsMade(fix: bool, s: State, run: seq<Action>): (r: seq<Ready>)
    decreases |run|
  {
    if run == [] then [] else ReadMade(s, run[0]) + ReadsMade(fix, Step(fix, s, run[0]), run[1..])
  }

  // ---- reads -----------------------------------------------------------------------------------

  /** The message is the one of read number i. */
  ghost predicate FromRead(item: Item, made: seq<Ready>, i: int) {
    && 0 <= i < |made|
    && item.call == i + 1 && item.fd == made[i].fd && item.result == made[i].result
    && MadeFor(item.msg, made[i], i + 1)
  }

  /** The state is what these made have led to, as far as reading goes: each call has used up a
      buffer, all data have been stored, and there is one message for each read that was not
      empty, in order. */
  ghost predicate ReadsInv(s: State, mem: string, made: seq<Ready>) {
    && s.calls == |made| && s.mem == BatchMemory(mem, made, 0)
    && |s.h.read| == |OpenIndices(made)|
    && forall k :: 0 <= k < |s.h.read| ==> FromRead(s.h.read[k], made, OpenIndices(made)[k])
  }

  lemma {:induction false} OneMoreRead(s: State, mem: string, made: seq<Ready>, e: Ready)
    requires ReadsInv(s, mem, made) && Enabled(s, ReadReady(e))
    ensures ReadsInv(ReadStep(s, e), mem, made + [e])
  {
    var all, t := made + [e], ReadStep(s, e);
    assert all[..|made|] == made && all[|made|] == e;
    MessageMade(e, |made| + 1);
    assert BatchMemory(mem, all, 0) == Stored(BatchMemory(mem, made, 0), MessagePointer(|made| + 1), e.result);
    forall k | 0 <= k < |t.h.read| ensures FromRead(t.h.read[k], all, OpenIndices(all)[k]) {
      if k < |s.h.read| { assert FromRead(s.h.read[k], made, OpenIndices(made)[k]); }
    }
  }

  lemma {:induction false} ReadsStep(fix: bool, s: State, mem: string, made: seq<Ready>, a: Action)
    requires H.Inv(s.h) && ReadsInv(s, mem, made)
    ensures ReadsInv(Step(fix, s, a), mem, made + ReadMade(s, a))
  {
    if a.ReadReady? && Enabled(s, a) {
      OneMoreRead(s, mem, made, a.ready);
    } else {
      HandoffStep(fix, s, a);
      assert made + [] == made;
    }
  }

  lemma {:induction false} MadeFirst(fix: bool, s: State, made: seq<Ready>, run: seq<Action>)
    requires run != []
    ensures (made + ReadMade(s, run[0])) + ReadsMade(fix, Step(fix, s, run[0]), run[1..])
            == made + ReadsMade(fix, s, run)
  {
    var one, rest := ReadMade(s, run[0]), ReadsMade(fix, Step(fix, s, run[0]), run[1..]);
    assert ReadsMade(fix, s, run) == one + rest;
    assert (made + one) + rest == made + (one + rest);
  }

  lemma {:induction false} ReadsExec(fix: bool, s: State, mem: string, made: seq<Ready>, run: seq<Action>)
    requires H.Inv(s.h) && ReadsInv(s, mem, made)
    ensures ReadsInv(Exec(fix, s, run), mem, made + ReadsMade(fix, s, run))
    decreases |run|
  {
    if run == [] {
      assert made + [] == made;
    } else {
      ReadsStep(fix, s, mem, made, run[0]);
      HandoffStep(fix, s, run[0]);
      ReadsExec(fix, Step(fix, s, run[0]), mem, made + ReadMade(s, run[0]), run[1..]);
      MadeFirst(fix, s, made, run);
    }
  }

  /** In every interleaving, with either erase: the memory, the number of buffers used and the
      messages read are those of the read() calls made, in their order. */
  lemma {:induction false} RunReads(fix: bool, s: State, mem: string, run: seq<Action>)
    requires Reached(fix, s, mem, run)
    ensures ReadsInv(s, mem, ReadsMade(fix, Init(mem), run))
  {
    InvInit(fix, mem);
    ReadsExec(fix, Init(mem), mem, [], run);
    assert [] + ReadsMade(fix, Init(mem), run) == ReadsMade(fix, Init(mem), run);
  }

  /** The items of some made from call number calls + 1 on. */
  function ItemsOf(events: seq<Ready>, calls: nat): seq<Item> {
    if events == [] then []
    else
      var n := |events| - 1;
      ItemsOf(events[..n], calls) + (if Closing(events[n].result) then [] else [ItemOf(events[n], calls + n + 1)])
  }

  lemma {:induction false} MsgsOfItems(events: seq<Ready>, calls: nat)
    ensures Msgs(ItemsOf(events, calls)) == BatchMessages(events, calls)
  {
    if events != [] { MsgsOfItems(events[..|events| - 1], calls); }
  }

  function Reads(events: seq<Ready>): (r: seq<Action>)
    ensures |r| == |events|
  {
    seq(|events|, i requires 0 <= i < |events| => ReadReady(events[i]))
  }

  function AfterReads(s: State, events: seq<Ready>): State {
    s.(mem := BatchMemory(s.mem, events, s.calls), calls := s.calls + |events|,
       h := s.h.(messages := Reverse(ItemsOf(events, s.calls)) + s.h.messages,
                 read := s.h.read + ItemsOf(events, s.calls)))
  }

  lemma {:induction false} ReadsAlone(fix: bool, s: State, events: seq<Ready>)
    requires s.h.net.Reading? && FitBuffers(events)
    ensures Exec(fix, s, Reads(events)) == AfterReads(s, events)
  {
    if events == [] {
      assert Reverse<Item>([]) + s.h.messages == s.h.messages && s.h.read + [] == s.h.read;
    } else {
      var n := |events| - 1;
      var e := events[n];
      var mid := AfterReads(s, events[..n]);
      ReadsAlone(fix, s, events[..n]);
      assert Reads(events) == Reads(events[..n]) + [ReadReady(e)];
      ExecConcat(fix, s, Reads(events[..n]), [ReadReady(e)]);
      ExecOne(fix, mid, ReadReady(e));
      OneReadMore(s, events);
    }
  }

  lemma {:induction false} OneReadMore(s: State, events: seq<Ready>)
    requires s.h.net.Reading? && events != []
    ensures ReadStep(AfterReads(s, events[..|events| - 1]), events[|events| - 1]) == AfterReads(s, events)
  {
    var n := |events| - 1;
    var before := ItemsOf(events[..n], s.calls);
    var x := if Closing(events[n].result) then [] else [ItemOf(events[n], s.calls + n + 1)];
    assert ItemsOf(events, s.calls) == before + x;
    InFront(before, x, s.h.messages);
    assert (s.h.read + before) + x == s.h.read + (before + x);
    assert Reverse(before) + s.h.messages == [] + (Reverse(before) + s.h.messages);
  }

  lemma InFront(before: seq<Item>, x: seq<Item>, rest: seq<Item>)
    requires |x| <= 1
    ensures x + (Reverse(before) + rest) == Reverse(before + x) + rest
  {
    ReverseConcat(before, x);
    assert Reverse(x) == x;
    assert x + (Reverse(before) + rest) == (x + Reverse(before)) + rest;
  }

  /** The made of the pipeline are those of ClientHandler.ReadClientData: the same memory, the
      same number of allocator calls, and the same messages, newest first - empty and failing
      made included. */
  lemma {:induction false} ReadsAreHandlers(fix: bool, s: State, events: seq<Ready>)
    requires s.h.net.Reading? && FitBuffers(events)
    ensures var t := Exec(fix, s, Reads(events));
            && t.calls == s.calls + |events| && t.mem == BatchMemory(s.mem, events, s.calls)
            && Msgs(t.h.messages) == Reverse(BatchMessages(events, s.calls)) + Msgs(s.h.messages)
  {
    ReadsAlone(fix, s, events);
    MsgsOfItems(events, s.calls);
    var items := ItemsOf(events, s.calls);
    assert Msgs(Reverse(items)) == Reverse(Msgs(items));
    assert Msgs(Reverse(items) + s.h.messages) == Msgs(Reverse(items)) + Msgs(s.h.messages);
  }

  // ---- replies ----------------------------------------------------------------------------------

  /** The replies to some dispatches in a row, each to its own descriptor. */
  function RepliesOf(store: Store, events: seq<Event>, fds: seq<nat>): seq<Reply>
    requires |fds| == |events|
  {
    if events == [] then []
    else
      var n := |events| - 1;
      var o := Dispatch.Dispatch(Replay(store, events[..n]), events[n].view, events[n].sendOk);
      RepliesOf(store, events[..n], fds[..n]) + (if o.reply.Some? then [Reply(fds[n], o.reply.value, o.closed)] else [])
  }

  /** The messages of those dispatches that return true. */
  function DoneOf(store: Store, events: seq<Event>, items: seq<Item>): seq<Completion>
    requires |items| == |events|
  {
    if events == [] then []
    else
      var n := |events| - 1;
      var o := Dispatch.Dispatch(Replay(store, events[..n]), events[n].view, events[n].sendOk);
      DoneOf(store, events[..n], items[..n]) + (if o.done then [Completion(items[n], events[n])] else [])
  }

  /** The descriptors from which messages have been read, as 16-bit numbers. */
  function Sources(items: seq<Item>): (r: seq<nat>)
    ensures |r| == |items|
  {
    seq(|items|, i requires 0 <= i < |items| => items[i].fd % TWO_TO_THE_16)
  }

  ghost predicate SentInv(s: State) {
    && |s.dispatched| == |s.events|
    && (forall item :: item in s.dispatched ==> item in s.h.read)
    && s.sent == RepliesOf(map[], s.events, Sources(s.dispatched))
    && s.completed == DoneOf(map[], s.events, s.dispatched)
  }

  lemma {:induction false} SentDispatch(s: State, sendOk: bool)
    requires SentInv(s) && s.store == Replay(map[], s.events) && Enabled(s, DispatchNext(sendOk))
    requires var item := s.waiting[|s.pass.done|];
             item in s.h.read && item.msg.fd == item.fd % TWO_TO_THE_16
    ensures SentInv(DispatchStep(s, sendOk))
  {
    var n, t := |s.events|, DispatchStep(s, sendOk);
    assert t.events[..n] == s.events && t.dispatched[..n] == s.dispatched;
    assert Sources(t.dispatched)[..n] == Sources(s.dispatched);
    assert s.sent + [] == s.sent && s.completed + [] == s.completed;
  }

  lemma {:induction false} SentStep(fix: bool, s: State, a: Action)
    requires Inv(fix, s) && SentInv(s)
    ensures SentInv(Step(fix, s, a))
  {
    if a.DispatchNext? && Enabled(s, a) {
      var item := s.waiting[|s.pass.done|];
      LiveWasRead(s, item);
      assert WellRead(item, s.calls);
      SentDispatch(s, a.sendOk);
    } else {
      SentOtherwise(fix, s, a);
    }
  }

  lemma {:induction false} SentOtherwise(fix: bool, s: State, a: Action)
    requires SentInv(s) && !(a.DispatchNext? && Enabled(s, a))
    ensures SentInv(Step(fix, s, a))
  {
    StepIsHandoffStep(fix, s, a);
    ReadGrows(s.h, HandoffAction(s, a));
    assert s.h.read <= Step(fix, s, a).h.read;
  }

  lemma ReadGrows(h: H.State<Item>, b: H.Action<Item>)
    ensures h.read <= H.Step(h, b).read
  {
  }

  lemma {:induction false} SentExec(fix: bool, s: State, run: seq<Action>)
    requires Inv(fix, s) && SentInv(s)
    ensures SentInv(Exec(fix, s, run))
    decreases |run|
  {
    if run != [] {
      SentStep(fix, s, run[0]);
      InvStep(fix, s, run[0]);
      SentExec(fix, Step(fix, s, run[0]), run[1..]);
    }
  }

  /** In every run, with either erase: every reply goes to, and every closing is of, the
      descriptor that the dispatched message was read from (as a 16-bit number); the replies
      are those of the dispatches in order; and the completed messages are those whose
      dispatch returned true. */
  lemma {:induction false} RepliesGoHome(fix: bool, s: State, mem: string, run: seq<Action>)
    requires Reached(fix, s, mem, run)
    ensures |s.dispatched| == |s.events|
    ensures s.sent == RepliesOf(map[], s.events, Sources(s.dispatched))
    ensures s.completed == DoneOf(map[], s.events, s.dispatched)
    ensures forall item :: item in s.dispatched ==> FromRead(item, ReadsMade(fix, Init(mem), run), item.call - 1)
  {
    InvInit(fix, mem);
    SentExec(fix, Init(mem), run);
    RunReads(fix, s, mem, run);
    var made := ReadsMade(fix, Init(mem), run);
    forall item | item in s.dispatched ensures FromRead(item, made, item.call - 1) {
      var k :| 0 <= k < |s.h.read| && s.h.read[k] == item;
      assert FromRead(item, made, OpenIndices(made)[k]);
    }
  }
}
