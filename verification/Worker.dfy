/** The worker's objects: mailboxes (Message.cpp), the session map (Session.cpp), the shared
    queue (MessageServer.cpp) and the message handler (MessageHandler.cpp). */
module Worker {
  import opened Common
  import opened Dispatch
  import opened Handoff
  import opened Passes
  import opened VectorErase
  import J = JsonReply

  /** Message: the mailbox of one session, newest payload first. */
  class Message {
    var Messages: seq<string>

    constructor ()
      ensures Messages == []
    {
      Messages := [];
    }

    method AddMessage(payload: string)
      modifies this
      ensures Messages == [payload] + old(Messages)
    {
      Messages := [payload] + Messages;
    }

    method Clear()
      modifies this
      ensures Messages == []
    {
      Messages := [];
    }
  }

  /** Session: the map from session IDs to their mailbox objects, no two IDs sharing one. */
  class Session {
    var SessionData: map<string, Message>

    ghost predicate Valid()
      reads this
    {
      forall a, b :: a in SessionData && b in SessionData && a != b ==> SessionData[a] != SessionData[b]
    }

    ghost function Contents(): Store
      reads this, SessionData.Values
    {
      map id | id in SessionData :: SessionData[id].Messages
    }

    constructor ()
      ensures Valid() && Contents() == map[] && SessionData == map[]
    {
      SessionData := map[];
    }

    /** unordered_map::insert: an ID that is already there keeps its mailbox. */
    method Add(id: string)
      requires Valid()
      modifies this
      ensures Valid() && fresh(SessionData.Values - old(SessionData.Values)) && id in SessionData
      ensures Contents() == if id in old(SessionData) then old(Contents()) else old(Contents())[id := []]
    {
      if id !in SessionData {
        var m := new Message();
        ghost var before := Contents();
        SessionData := SessionData[id := m];
        assert Contents() == before[id := []];
      }
    }

    method FindSessionElement(id: string) returns (found: bool)
      ensures found <==> id in SessionData
    {
      found := id in SessionData;
    }

    /** Dereferences the lookup without a test: the caller has made sure that it succeeds. */
    method AddMessage(id: string, payload: string)
      requires Valid() && id in SessionData
      modifies SessionData[id]
      ensures Valid() && Contents() == old(Contents())[id := [payload] + old(Contents())[id]]
    {
      SessionData[id].AddMessage(payload);
    }

    method GetMessageObject(id: string) returns (m: Message?)
      ensures m == if id in SessionData then SessionData[id] else null
    {
      m := if id in SessionData then SessionData[id] else null;
    }
  }

  /** The flag and the queue that the two threads share, as MsgServer sets them up. */
  class SharedQueue {
    var QueueLock: Flag
    var Queue: seq<Transfer>

    constructor ()
      ensures QueueLock == ProcessedQueue && Queue == []
    {
      QueueLock, Queue := ProcessedQueue, [];
    }
  }

  /** The queue section of the worker when no step of the network thread comes in between:
      all of the queue is taken, in order, and the flag is released - only if it said WROTE. */
  method DrainQueue(shared: SharedQueue, queueMessages: Vector<Transfer>)
    modifies shared, queueMessages
    ensures if old(shared.QueueLock).WroteQueue? then
              queueMessages.elems == old(queueMessages.elems) + old(shared.Queue) && shared.Queue == []
            else queueMessages.elems == old(queueMessages.elems) && shared.Queue == old(shared.Queue)
    ensures shared.QueueLock == ProcessedQueue
  {
    if shared.QueueLock == WroteQueue {
      var size := |shared.Queue|;
      var i := 0;
      while i < size
        invariant 0 <= i <= size == |old(shared.Queue)|
        invariant shared.Queue == old(shared.Queue)[i..]
        invariant queueMessages.elems == old(queueMessages.elems) + old(shared.Queue)[..i]
        invariant shared.QueueLock == WroteQueue
      {
        queueMessages.elems := queueMessages.elems + [shared.Queue[0]];
        shared.Queue := shared.Queue[1..];
        i := i + 1;
      }
      shared.QueueLock := ProcessedQueue;
    }
  }

  /** What the dispatches of a pass get to see in the memory image. */
  function Views(mem: string, q: seq<Transfer>): (vs: seq<View>)
    ensures |vs| == |q|
  {
    seq(|q|, i requires 0 <= i < |q| => ViewOf(mem, q[i]))
  }

  function TextOf(reply: Option<Reply>): Option<string> {
    if reply.Some? then Some(reply.value.text) else None
  }

  predicate ClosedBy(reply: Option<Reply>) { reply.Some? && reply.value.closed }

  class MessageHandler {
    const QueueMessages: Vector<Transfer>
    const SessionObj: Session

    ghost predicate Valid()
      reads SessionObj
    {
      SessionObj.Valid()
    }

    constructor ()
      ensures Valid() && fresh(QueueMessages) && fresh(SessionObj)
      ensures QueueMessages.elems == [] && SessionObj.Contents() == map[] && SessionObj.SessionData == map[]
    {
      QueueMessages := new Vector<Transfer>();
      SessionObj := new Session();
    }

    /** dispatchMessage on a buffer of the memory image; sendOk is the result of the write, which
        goes to the descriptor of the message. */
    method DispatchMessage(mem: string, message: Transfer, sendOk: bool)
      returns (done: bool, reply: Option<Reply>, ghost delivered: seq<string>)
      requires Valid()
      modifies SessionObj, SessionObj.SessionData.Values
      ensures Valid() && fresh(SessionObj.SessionData.Values - old(SessionObj.SessionData.Values))
      ensures Outcome(SessionObj.Contents(), done, TextOf(reply), delivered, ClosedBy(reply))
              == Dispatch.Dispatch(old(SessionObj.Contents()), ViewOf(mem, message), sendOk)
      ensures reply.Some? ==> reply.value.fd == message.fd
    {
      var v := ViewOf(mem, message);
      if v.kind.Set? {
        reply := ProcessSet(v, PayloadBytes(message.bytes), message.fd);
        return true, reply, [];
      } else if v.kind.Get? {
        done, reply, delivered := ProcessGet(v, sendOk, message.fd);
      } else {
        return true, None, [];
      }
    }

    method ProcessSet(v: View, msgBytes: nat, fd: nat) returns (reply: Option<Reply>)
      requires Valid() && |v.payload| == msgBytes
      modifies SessionObj, SessionObj.SessionData.Values
      ensures Valid() && fresh(SessionObj.SessionData.Values - old(SessionObj.SessionData.Values))
      ensures Outcome(SessionObj.Contents(), true, TextOf(reply), [], ClosedBy(reply))
              == SetOutcome(old(SessionObj.Contents()), v)
      ensures reply.Some? ==> reply.value.fd == fd
    {
      ContentsKeys(SessionObj);
      if |SessionObj.SessionData| == CLIENTS_MAX {
        return Some(Reply(fd, ResultCode(E_SESSION_CONTAINER_FULL), false));
      }
      if msgBytes == 0 { return None; }
      var found := SessionObj.FindSessionElement(v.id);
      if !found { SessionObj.Add(v.id); }
      SessionObj.AddMessage(v.id, v.payload);
      reply := Some(Reply(fd, ResultCode(I_INSERT_MSG_OK), false));
    }

    method ProcessGet(v: View, sendOk: bool, fd: nat)
      returns (done: bool, reply: Option<Reply>, ghost delivered: seq<string>)
      requires Valid()
      modifies SessionObj.SessionData.Values
      ensures Valid() && SessionObj.SessionData == old(SessionObj.SessionData)
      ensures Outcome(SessionObj.Contents(), done, TextOf(reply), delivered, ClosedBy(reply))
              == GetOutcome(old(SessionObj.Contents()), v, sendOk)
      ensures reply.Some? ==> reply.value.fd == fd
    {
      ghost var before := SessionObj.Contents();
      var mailbox := SessionObj.GetMessageObject(v.id);
      if mailbox == null { return false, None, []; }
      if |mailbox.Messages| == 0 { return false, None, []; }
      var text := J.BuildReply(mailbox.Messages);
      assert SessionObj.Contents() == before;
      if !sendOk { return true, Some(Reply(fd, text, false)), []; }
      delivered := mailbox.Messages;
      mailbox.Clear();
      assert SessionObj.Contents() == before[v.id := []];
      return true, Some(Reply(fd, text, true)), delivered;
    }

    /** The dispatch loop of processMessages, collecting the indices to delete. */
    method DispatchWindow(mem: string, ok: nat -> bool) returns (deletes: seq<nat>, ghost done: seq<bool>)
      requires Valid()
      modifies SessionObj, SessionObj.SessionData.Values
      ensures Valid() && fresh(SessionObj.SessionData.Values - old(SessionObj.SessionData.Values))
      ensures |done| == WindowSize(|QueueMessages.elems|) && deletes == DoneIndices(done)
      ensures WindowResult(SessionObj.Contents(), done)
              == Window(old(SessionObj.Contents()), Views(mem, QueueMessages.elems)[..|done|], ok)
    {
      var count := WindowSize(|QueueMessages.elems|);
      deletes, done := DispatchFirst(mem, ok, count, Views(mem, QueueMessages.elems));
    }

    method DispatchFirst(mem: string, ok: nat -> bool, count: nat, ghost vs: seq<View>)
      returns (deletes: seq<nat>, ghost done: seq<bool>)
      requires Valid() && count <= |QueueMessages.elems| == |vs|
      requires forall i :: 0 <= i < |vs| ==> vs[i] == ViewOf(mem, QueueMessages.elems[i])
      modifies SessionObj, SessionObj.SessionData.Values
      ensures Valid() && fresh(SessionObj.SessionData.Values - old(SessionObj.SessionData.Values))
      ensures |done| == count && deletes == DoneIndices(done)
      ensures WindowResult(SessionObj.Contents(), done) == Window(old(SessionObj.Contents()), vs[..count], ok)
    {
      deletes, done := [], [];
      var i := 0;
      while i < count
        invariant 0 <= i <= count
        invariant Valid() && fresh(SessionObj.SessionData.Values - old(SessionObj.SessionData.Values))
        invariant |done| == i && deletes == DoneIndices(done)
        invariant WindowResult(SessionObj.Contents(), done) == Window(old(SessionObj.Contents()), vs[..i], ok)
      {
        var isDone := DispatchEntry(mem, ok(i), QueueMessages.elems[i], ok, old(SessionObj.Contents()), vs, done);
        if isDone { deletes := deletes + [i]; }
        done := done + [isDone];
        i := i + 1;
      }
    }

    /** One round of the loop: entry number |done|. */
    method DispatchEntry(mem: string, sendOk: bool, message: Transfer,
                         ghost ok: nat -> bool, ghost start: Store, ghost vs: seq<View>, ghost done: seq<bool>)
      returns (isDone: bool)
      requires Valid() && |done| < |vs| && vs[|done|] == ViewOf(mem, message) && ok(|done|) == sendOk
      requires WindowResult(SessionObj.Contents(), done) == Window(start, vs[..|done|], ok)
      modifies SessionObj, SessionObj.SessionData.Values
      ensures Valid() && fresh(SessionObj.SessionData.Values - old(SessionObj.SessionData.Values))
      ensures WindowResult(SessionObj.Contents(), done + [isDone]) == Window(start, vs[..|done| + 1], ok)
      ensures DoneIndices(done + [isDone]) == DoneIndices(done) + if isDone then [|done|] else []
    {
      ghost var before := SessionObj.Contents();
      var reply;
      ghost var delivered;
      isDone, reply, delivered := DispatchMessage(mem, message, sendOk);
      ghost var o := Outcome(SessionObj.Contents(), isDone, TextOf(reply), delivered, ClosedBy(reply));
      WindowStep(start, vs, ok, done, before, o);
    }

    /** processMessages up to the deletion: drain the queue, then, unless nothing is waiting,
        dispatch a window of the waiting messages. */
    method DrainAndDispatch(shared: SharedQueue, mem: string, ok: nat -> bool)
      returns (deletes: seq<nat>, ghost done: seq<bool>)
      requires Valid()
      modifies shared, QueueMessages, SessionObj, SessionObj.SessionData.Values
      ensures Valid() && shared.QueueLock == ProcessedQueue
      ensures QueueMessages.elems == Drained(old(shared.QueueLock), old(shared.Queue), old(QueueMessages.elems))
      ensures |done| == WindowSize(|QueueMessages.elems|) && deletes == DoneIndices(done)
      ensures WindowResult(SessionObj.Contents(), done)
              == Window(old(SessionObj.Contents()), Views(mem, QueueMessages.elems)[..|done|], ok)
    {
      DrainQueue(shared, QueueMessages);
      deletes, done := DispatchWaiting(mem, ok);
    }

    method DispatchWaiting(mem: string, ok: nat -> bool) returns (deletes: seq<nat>, ghost done: seq<bool>)
      requires Valid()
      modifies SessionObj, SessionObj.SessionData.Values
      ensures Valid() && fresh(SessionObj.SessionData.Values - old(SessionObj.SessionData.Values))
      ensures |done| == WindowSize(|QueueMessages.elems|) && deletes == DoneIndices(done)
      ensures WindowResult(SessionObj.Contents(), done)
              == Window(old(SessionObj.Contents()), Views(mem, QueueMessages.elems)[..|done|], ok)
    {
      if |QueueMessages.elems| == 0 {
        assert Views(mem, QueueMessages.elems)[..0] == [];
        return [], [];
      }
      deletes, done := DispatchWindow(mem, ok);
    }

    /** processMessages as written. fault: the erase has run off the vector. */
    method ProcessMessages(shared: SharedQueue, mem: string, ok: nat -> bool)
      returns (fault: bool, ghost done: seq<bool>)
      requires Valid()
      modifies shared, QueueMessages, SessionObj, SessionObj.SessionData.Values
      ensures Valid() && shared.QueueLock == ProcessedQueue
      ensures var q := Drained(old(shared.QueueLock), old(shared.Queue), old(QueueMessages.elems));
              && |done| == WindowSize(|q|)
              && WindowResult(SessionObj.Contents(), done)
                 == Window(old(SessionObj.Contents()), Views(mem, q)[..|done|], ok)
              && (fault <==> EraseEach(q, DoneIndices(done)).None?)
              && (!fault ==> EraseEach(q, DoneIndices(done)) == Some(QueueMessages.elems))
    {
      var deletes;
      deletes, done := DrainAndDispatch(shared, mem, ok);
      fault := QueueMessages.EraseElements(deletes);
    }

    /** The same with the shift-correct erase: one pass leaves exactly what was not done. */
    method ProcessMessagesCorrected(shared: SharedQueue, mem: string, ok: nat -> bool) returns (ghost done: seq<bool>)
      requires Valid()
      modifies shared, QueueMessages, SessionObj, SessionObj.SessionData.Values
      ensures Valid() && shared.QueueLock == ProcessedQueue
      ensures var q := Drained(old(shared.QueueLock), old(shared.Queue), old(QueueMessages.elems));
              && |done| == WindowSize(|q|)
              && WindowResult(SessionObj.Contents(), done)
                 == Window(old(SessionObj.Contents()), Views(mem, q)[..|done|], ok)
              && QueueMessages.elems == Left(q, done)
    {
      var deletes;
      deletes, done := DrainAndDispatch(shared, mem, ok);
      DeleteCorrected(QueueMessages, deletes, done);
    }
  }

  method DeleteCorrected(queueMessages: Vector<Transfer>, deletes: seq<nat>, ghost done: seq<bool>)
    requires |done| <= |queueMessages.elems| && deletes == DoneIndices(done)
    modifies queueMessages
    ensures queueMessages.elems == Left(old(queueMessages.elems), done)
  {
    CorrectedPassLeaves(queueMessages.elems, done);
    queueMessages.EraseElementsCorrected(deletes);
  }

  /** The result of ProcessMessagesCorrected is a Pass over what the dispatches see, so the
      lemmas of module Passes speak about the handler, for the buffers as the pass finds them.
      (Module Rounds follows the buffers through whole runs.) */
  lemma CorrectedIsPass(mem: string, q: seq<Transfer>, store: Store, ok: nat -> bool, done: seq<bool>, after: Store)
    requires |done| == WindowSize(|q|)
    requires WindowResult(after, done) == Window(store, Views(mem, q)[..|done|], ok)
    ensures (Views(mem, Left(q, done)), after) == Pass(Views(mem, q), store, ok)
  {
    ViewsLeft(mem, q, done);
  }

  lemma WindowStep(store: Store, vs: seq<View>, ok: nat -> bool, done: seq<bool>, before: Store, o: Outcome)
    requires |done| < |vs|
    requires WindowResult(before, done) == Window(store, vs[..|done|], ok)
    requires o == Dispatch.Dispatch(before, vs[|done|], ok(|done|))
    ensures WindowResult(o.store, done + [o.done]) == Window(store, vs[..|done| + 1], ok)
    ensures DoneIndices(done + [o.done]) == DoneIndices(done) + if o.done then [|done|] else []
  {
    var taken := vs[..|done| + 1];
    assert taken[..|done|] == vs[..|done|];
    assert taken[|done|] == vs[|done|];
    DoneSnoc(done, o.done);
  }

  lemma DoneSnoc(done: seq<bool>, isDone: bool)
    ensures DoneIndices(done + [isDone]) == DoneIndices(done) + if isDone then [|done|] else []
  {
    assert (done + [isDone])[..|done|] == done;
  }

  /** The waiting messages after an undisturbed queue section. */
  function Drained(flag: Flag, queue: seq<Transfer>, waiting: seq<Transfer>): seq<Transfer> {
    if flag.WroteQueue? then waiting + queue else waiting
  }

  lemma ContentsKeys(s: Session)
    ensures s.Contents().Keys == s.SessionData.Keys
    ensures |s.Contents()| == |s.SessionData|
  {
    assert s.Contents().Keys == s.SessionData.Keys;
    assert |s.Contents()| == |s.Contents().Keys| && |s.SessionData| == |s.SessionData.Keys|;
  }

  lemma {:induction false} KeptViews(mem: string, q: seq<Transfer>, done: seq<bool>)
    requires |q| == |done|
    ensures Views(mem, Kept(q, done)) == Kept(Views(mem, q), done)
  {
    if q != [] {
      var n := |q| - 1;
      KeptViews(mem, q[..n], done[..n]);
      assert Views(mem, q)[..n] == Views(mem, q[..n]);
      var last := if done[n] then [] else [q[n]];
      assert Views(mem, Kept(q[..n], done[..n]) + last) == Views(mem, Kept(q[..n], done[..n])) + Views(mem, last);
    }
  }

  lemma {:induction false} ViewsLeft(mem: string, q: seq<Transfer>, done: seq<bool>)
    requires |done| <= |q|
    ensures Views(mem, Left(q, done)) == Left(Views(mem, q), done)
  {
    var w := |done|;
    KeptViews(mem, q[..w], done);
    assert Views(mem, q)[..w] == Views(mem, q[..w]) && Views(mem, q)[w..] == Views(mem, q[w..]);
    assert Views(mem, Kept(q[..w], done) + q[w..]) == Views(mem, Kept(q[..w], done)) + Views(mem, q[w..]);
  }
}
