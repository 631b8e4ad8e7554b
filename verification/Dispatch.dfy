/** What one dispatch of a message does to the session store and what it answers
    (MessageHandler::dispatchMessage, Session.cpp, Message.cpp), and what whole sequences of
    dispatches do. The classes of module Worker are proved against these functions. */
module Dispatch {
  import opened Common
  import J = JsonReply

  /** MessageTransfer_t; the pointer is an offset into the memory image. */
  datatype Transfer = Transfer(fd: nat, ptr: nat, bytes: nat)

  /** The type field as the two comparisons of dispatchMessage classify it. */
  datatype Kind = Get | Set | Mismatch

  function KindOf(field: string): Kind {
    if field == MSG_INDICATOR_GET then Get else if field == MSG_INDICATOR_SET then Set else Mismatch
  }

  /** Only these two texts, and each of them. */
  lemma KindIff(field: string)
    ensures KindOf(field).Get? <==> field == "GET"
    ensures KindOf(field).Set? <==> field == "SET"
  {
    if field == "GET" || field == "SET" { assert "GET"[0] != "SET"[0]; }
  }

  /** The three slices of a buffer that dispatchMessage looks at. */
  datatype View = View(kind: Kind, id: string, payload: string)

  /** string(pointer, len). Bytes behind the end of the memory image, which C++ must not
      read, show as zeros. */
  function Slice(mem: string, from: nat, len: nat): (r: string)
    ensures |r| == len
    ensures from + len <= |mem| ==> r == mem[from..from + len]
  {
    seq(len, i requires 0 <= i < len => if from + i < |mem| then mem[from + i] else '\0')
  }

  /** uint16_t MsgBytes = Message.MsgBytes - (SESSION_ID_BYTES + 3), wrapping below 67. */
  function PayloadBytes(bytes: nat): nat { (bytes - HEADER_BYTES) % TWO_TO_THE_16 }

  function ViewOf(mem: string, m: Transfer): (v: View)
    ensures |v.id| == SESSION_ID_BYTES && |v.payload| == PayloadBytes(m.bytes)
  {
    View(KindOf(Slice(mem, m.ptr, 3)), Slice(mem, m.ptr + 3, SESSION_ID_BYTES),
         Slice(mem, m.ptr + HEADER_BYTES, PayloadBytes(m.bytes)))
  }

  /** Session ID to mailbox; a mailbox holds its payloads newest first. */
  type Store = map<string, seq<string>>

  function MailboxOf(store: Store, id: string): seq<string> {
    if id in store then store[id] else []
  }

  const I_INSERT_MSG_OK := 2
  const E_SESSION_CONTAINER_FULL := 100

  function ResultCode(code: nat): string { J.ResultText(code) }

  /** A write to a client's descriptor, which is closed afterwards or not. */
  datatype Reply = Reply(fd: nat, text: string, closed: bool)

  /** reply is the text written to the client, if any; delivered is the mailbox content that
      a successful write has handed over. */
  datatype Outcome = Outcome(store: Store, done: bool, reply: Option<string>, delivered: seq<string>, closed: bool)

  function SetOutcome(store: Store, v: View): Outcome {
    if |store| == CLIENTS_MAX then Outcome(store, true, Some(ResultCode(E_SESSION_CONTAINER_FULL)), [], false)
    else if v.payload == "" then Outcome(store, true, None, [], false)
    else Outcome(store[v.id := [v.payload] + MailboxOf(store, v.id)],
                 true, Some(ResultCode(I_INSERT_MSG_OK)), [], false)
  }

  /** sendOk stands for a write that returns more than zero. */
  function GetOutcome(store: Store, v: View, sendOk: bool): Outcome {
    if v.id !in store || store[v.id] == [] then Outcome(store, false, None, [], false)
    else if !sendOk then Outcome(store, true, Some(J.ReplyText(store[v.id])), [], false)
    else Outcome(store[v.id := []], true, Some(J.ReplyText(store[v.id])), store[v.id], true)
  }

  function Dispatch(store: Store, v: View, sendOk: bool): Outcome {
    if v.kind.Set? then SetOutcome(store, v)
    else if v.kind.Get? then GetOutcome(store, v, sendOk)
    else Outcome(store, true, None, [], false)
  }

  predicate CanComplete(store: Store, v: View) {
    !v.kind.Get? || MailboxOf(store, v.id) != []
  }

  /** A dispatch returns false exactly for a GET on a missing or empty mailbox, and then
      changes and answers nothing; no dispatch ever touches another session. */
  lemma DispatchFrame(store: Store, v: View, sendOk: bool)
    ensures var o := Dispatch(store, v, sendOk);
            && (o.done <==> CanComplete(store, v))
            && (!o.done ==> o == Outcome(store, false, None, [], false))
            && (forall id :: id != v.id ==> MailboxOf(o.store, id) == MailboxOf(store, id))
            && (v.kind.Get? && !sendOk ==> o.store == store)
            && (o.closed <==> v.kind.Get? && o.done && sendOk)
            && (o.closed <==> o.delivered != [])
            && (v.kind.Mismatch? ==> o == Outcome(store, true, None, [], false))
  {
  }

  /** A GET that is answered sends the whole mailbox, newest first, in a form that a JSON reader
      recovers exactly if no stored payload holds a quotation mark, a backslash or a control
      character; only a successful write empties the mailbox. */
  lemma GetReplyReadable(store: Store, v: View, sendOk: bool)
    requires v.kind.Get? && CanComplete(store, v)
    ensures var o := Dispatch(store, v, sendOk);
            && o.reply.Some?
            && (J.ReadsAs(o.reply.value, MailboxOf(store, v.id))
                <==> forall p :: p in MailboxOf(store, v.id) ==> J.Clean(p))
            && MailboxOf(o.store, v.id) == (if sendOk then [] else MailboxOf(store, v.id))
            && o.delivered == (if sendOk then MailboxOf(store, v.id) else [])
  {
    J.ReplyRecoverableIff(MailboxOf(store, v.id));
  }

  // ---- histories -----------------------------------------------------------------------------

  datatype Event = Event(view: View, sendOk: bool)

  function Replay(store: Store, events: seq<Event>): (s: Store)
    decreases |events|
  {
    if events == [] then store
    else Replay(Dispatch(store, events[0].view, events[0].sendOk).store, events[1..])
  }

  /** A SET is accepted unless the store is full or the payload is empty. */
  predicate Accepts(store: Store, v: View) {
    v.kind.Set? && |store| != CLIENTS_MAX && v.payload != ""
  }

  /** What a client reads in the reply to its SET: the number 2 exactly if its message has been
      stored, and 100 exactly if the store is full, which is reported even for an empty message;
      an empty message in a store that is not full is not answered. */
  lemma AcceptedIffTold(store: Store, v: View, sendOk: bool)
    requires v.kind.Set?
    ensures var o := Dispatch(store, v, sendOk);
            && (o.reply.Some? && J.CodeIn(o.reply.value) == Some(2)
                <==> o.store == store[v.id := [v.payload] + MailboxOf(store, v.id)])
            && (o.reply.Some? && J.CodeIn(o.reply.value) == Some(100) <==> |store| == 1024)
            && (o.reply.None? <==> v.payload == "" && |store| != 1024)
    ensures Accepts(store, v)
            <==> Dispatch(store, v, sendOk).store == store[v.id := [v.payload] + MailboxOf(store, v.id)]
  {
    J.ResultReads(I_INSERT_MSG_OK);
    J.ResultReads(E_SESSION_CONTAINER_FULL);
    MailboxGrows(store, v);
  }

  lemma MailboxGrows(store: Store, v: View)
    ensures var s := store[v.id := [v.payload] + MailboxOf(store, v.id)];
            s != store && s != store[v.id := []] && |MailboxOf(s, v.id)| == |MailboxOf(store, v.id)| + 1
  {
    var s := store[v.id := [v.payload] + MailboxOf(store, v.id)];
    assert |MailboxOf(s, v.id)| == |MailboxOf(store, v.id)| + 1;
    assert MailboxOf(store[v.id := []], v.id) == [];
  }

  /** The payloads that the dispatches of events accept for a session, in dispatch order. */
  function Accepted(store: Store, events: seq<Event>, id: string): (r: seq<string>)
    decreases |events|
  {
    if events == [] then []
    else
      var v := events[0].view;
      (if Accepts(store, v) && v.id == id then [v.payload] else [])
      + Accepted(Dispatch(store, v, events[0].sendOk).store, events[1..], id)
  }

  /** The batches that successful writes hand over for a session, each turned oldest first. */
  function HandedOver(store: Store, events: seq<Event>, id: string): (r: seq<string>)
    decreases |events|
  {
    if events == [] then []
    else
      var o := Dispatch(store, events[0].view, events[0].sendOk);
      (if events[0].view.id == id then Reverse(o.delivered) else []) + HandedOver(o.store, events[1..], id)
  }

  /** Exactly-once delivery over every sequence of dispatches and every pattern of failing
      writes: what was handed over for a session, followed by what its mailbox still holds, is
      what it held at the start followed by everything accepted since, each payload once and
      in dispatch order. */
  lemma {:induction false} ExactlyOnce(store: Store, events: seq<Event>, id: string)
    ensures HandedOver(store, events, id) + Reverse(MailboxOf(Replay(store, events), id))
            == Reverse(MailboxOf(store, id)) + Accepted(store, events, id)
    decreases |events|
  {
    if events != [] {
      var v := events[0].view;
      var o := Dispatch(store, v, events[0].sendOk);
      ExactlyOnce(o.store, events[1..], id);
      OneStepOnce(store, events[0], id);
      Chain(if v.id == id then Reverse(o.delivered) else [], HandedOver(o.store, events[1..], id),
            Reverse(MailboxOf(Replay(store, events), id)), Reverse(MailboxOf(o.store, id)),
            Accepted(o.store, events[1..], id), Reverse(MailboxOf(store, id)),
            if Accepts(store, v) && v.id == id then [v.payload] else []);
    }
  }

  lemma Chain(now: seq<string>, later: seq<string>, last: seq<string>, mid: seq<string>,
              accLater: seq<string>, first: seq<string>, acc: seq<string>)
    requires later + last == mid + accLater
    requires now + mid == first + acc
    ensures (now + later) + last == first + (acc + accLater)
  {
    assert (now + later) + last == now + (later + last);
    assert now + (mid + accLater) == (now + mid) + accLater;
  }

  lemma OneStepOnce(store: Store, e: Event, id: string)
    ensures var o := Dispatch(store, e.view, e.sendOk);
            (if e.view.id == id then Reverse(o.delivered) else []) + Reverse(MailboxOf(o.store, id))
            == Reverse(MailboxOf(store, id))
               + (if Accepts(store, e.view) && e.view.id == id then [e.view.payload] else [])
  {
    DispatchFrame(store, e.view, e.sendOk);
    if Accepts(store, e.view) && e.view.id == id {
      ReverseConcat([e.view.payload], MailboxOf(store, id));
    }
  }

  /** The session store in every reachable state. */
  ghost predicate StoreInv(store: Store) {
    && |store| <= 1024
    && (forall id :: id in store ==> |id| == 64)
    && (forall id :: id in store ==> forall p :: p in store[id] ==> p != "")
  }

  /** All that a dispatch can do to the store. */
  lemma StoreEffect(store: Store, v: View, sendOk: bool)
    ensures Effect(store, v, Dispatch(store, v, sendOk).store)
  {
  }

  ghost predicate Effect(store: Store, v: View, after: Store) {
    || after == store
    || (v.id in store && after == store[v.id := []])
    || (v.payload != "" && |store| != CLIENTS_MAX && after == store[v.id := [v.payload] + MailboxOf(store, v.id)])
  }

  lemma StoreInvPut(store: Store, id: string, mailbox: seq<string>)
    requires StoreInv(store) && |id| == SESSION_ID_BYTES && (id in store || |store| < CLIENTS_MAX)
    requires forall p :: p in mailbox ==> p != ""
    ensures StoreInv(store[id := mailbox]) && store.Keys <= store[id := mailbox].Keys
  {
    var after := store[id := mailbox];
    assert after.Keys == store.Keys + {id};
    assert |after| == |after.Keys| && |store| == |store.Keys|;
    if id in store { assert after.Keys == store.Keys; }
  }

  lemma StoreInvStep(store: Store, v: View, sendOk: bool)
    requires StoreInv(store) && |v.id| == SESSION_ID_BYTES
    ensures var after := Dispatch(store, v, sendOk).store;
            StoreInv(after) && store.Keys <= after.Keys
  {
    StoreEffect(store, v, sendOk);
    EffectKeepsInv(store, v, Dispatch(store, v, sendOk).store);
  }

  lemma EffectKeepsInv(store: Store, v: View, after: Store)
    requires StoreInv(store) && |v.id| == SESSION_ID_BYTES && Effect(store, v, after)
    ensures StoreInv(after) && store.Keys <= after.Keys
  {
    if after != store {
      if v.id in store && after == store[v.id := []] {
        StoreInvPut(store, v.id, []);
      } else {
        StoreInvPut(store, v.id, [v.payload] + MailboxOf(store, v.id));
      }
    }
  }

  lemma {:induction false} StoreInvReplay(store: Store, events: seq<Event>)
    requires StoreInv(store) && forall e :: e in events ==> |e.view.id| == SESSION_ID_BYTES
    ensures StoreInv(Replay(store, events)) && store.Keys <= Replay(store, events).Keys
    decreases |events|
  {
    if events != [] {
      StoreInvStep(store, events[0].view, events[0].sendOk);
      StoreInvReplay(Dispatch(store, events[0].view, events[0].sendOk).store, events[1..]);
    }
  }

  /** The capacity test comes before the lookup, and no session is ever removed: once the
      store holds CLIENTS_MAX sessions no payload is accepted again, for old sessions either. */
  lemma {:induction false} FullForever(store: Store, events: seq<Event>, id: string)
    requires |store| == 1024
    ensures Replay(store, events).Keys == store.Keys
    ensures Accepted(store, events, id) == []
    decreases |events|
  {
    if events != [] {
      var after := Dispatch(store, events[0].view, events[0].sendOk).store;
      assert after.Keys == store.Keys;
      assert |after| == |after.Keys| == |store.Keys|;
      FullForever(after, events[1..], id);
    }
  }

  lemma {:induction false} KeysGrow(store: Store, events: seq<Event>)
    ensures store.Keys <= Replay(store, events).Keys && |store| <= |Replay(store, events)|
    decreases |events|
  {
    if events != [] {
      KeysGrow(Dispatch(store, events[0].view, events[0].sendOk).store, events[1..]);
      OneKeyMore(store, events[0]);
    }
  }

  lemma OneKeyMore(store: Store, e: Event)
    ensures var after := Dispatch(store, e.view, e.sendOk).store;
            store.Keys <= after.Keys && |store| <= |after|
  {
    FewerKeys(store, Dispatch(store, e.view, e.sendOk).store);
  }

  lemma FewerKeys(a: Store, b: Store)
    requires a.Keys <= b.Keys
    ensures |a| <= |b|
  {
    assert b.Keys == a.Keys + (b.Keys - a.Keys);
    assert |a| == |a.Keys| && |b| == |b.Keys|;
  }

  /** The non-empty payloads of SETs for a session, in order. */
  function Payloads(events: seq<Event>, id: string): (r: seq<string>)
    decreases |events|
  {
    if events == [] then []
    else
      var v := events[0].view;
      (if v.kind.Set? && v.id == id && v.payload != "" then [v.payload] else []) + Payloads(events[1..], id)
  }

  lemma {:induction false} AcceptedBelowCapacity(store: Store, events: seq<Event>, id: string)
    requires |Replay(store, events)| < CLIENTS_MAX
    ensures Accepted(store, events, id) == Payloads(events, id)
    decreases |events|
  {
    if events != [] {
      KeysGrow(store, events);
      AcceptedBelowCapacity(Dispatch(store, events[0].view, events[0].sendOk).store, events[1..], id);
    }
  }

  lemma {:induction false} NothingHandedOver(store: Store, events: seq<Event>, id: string)
    requires forall e :: e in events ==> !e.view.kind.Get?
    ensures HandedOver(store, events, id) == []
    decreases |events|
  {
    if events != [] {
      var o := Dispatch(store, events[0].view, events[0].sendOk);
      assert o.delivered == [] && Reverse<string>([]) == [];
      NothingHandedOver(o.store, events[1..], id);
    }
  }

  /** MSG_PER_SESSION_MAX is only a reserve hint: between two GETs a mailbox takes up any number
      of payloads, newest first, and as long as the store has not filled up, all of them. */
  lemma MailboxUnbounded(store: Store, events: seq<Event>, id: string)
    requires forall e :: e in events ==> !e.view.kind.Get?
    ensures MailboxOf(Replay(store, events), id) == Reverse(Accepted(store, events, id)) + MailboxOf(store, id)
    ensures |Replay(store, events)| < CLIENTS_MAX ==> Accepted(store, events, id) == Payloads(events, id)
  {
    NothingHandedOver(store, events, id);
    ExactlyOnce(store, events, id);
    var before, after := MailboxOf(store, id), MailboxOf(Replay(store, events), id);
    var accepted := Accepted(store, events, id);
    assert [] + Reverse(after) == Reverse(after);
    ReverseConcat(Reverse(before), accepted);
    ReverseReverse(before);
    ReverseReverse(after);
    if |Replay(store, events)| < CLIENTS_MAX { AcceptedBelowCapacity(store, events, id); }
  }
}
