/** evaluate/performance/Thread.cpp: the message generator of the performance tool, which
    writes one message after the other into segments of its own memory block. */
module Generator {
  import opened Common
  import opened Dispatch
  import opened MemoryBlock
  import opened Wire
  import S = SessionId

  datatype MessageItem = MessageItem(MemPointer: nat, MessageLength: nat)

  /** x * m by repeated addition. */
  function Product(x: nat, m: nat): nat { if x == 0 then 0 else Product(x - 1, m) + m }

  lemma {:induction false} ProductIsTimes(x: nat, m: nat)
    ensures Product(x, m) == x * m
  {
    if x > 0 {
      ProductIsTimes(x - 1, m);
      assert x * m == (x - 1) * m + m;
    }
  }

  /** The segments that a thread asks for. */
  function SegmentsFor(sessions: nat, messages: nat): nat { Product(sessions, messages + 1) }

  /** The number of segments that 32-bit addresses tell apart. */
  const ADDRESSABLE := TWO_TO_THE_32 / MSGBUFFER_SIZE

  /** There are more segments than messages. */
  lemma {:induction false} MoreSegmentsThanMessages(sessions: nat, messages: nat)
    ensures SegmentsFor(sessions, messages) == Product(sessions, messages) + sessions
  {
    if sessions > 0 { MoreSegmentsThanMessages(sessions - 1, messages); }
  }

  lemma {:induction false} ProductGrows(x: nat, y: nat, m: nat)
    requires x <= y
    ensures Product(x, m) <= Product(y, m)
  {
    if x < y { ProductGrows(x, y - 1, m); }
  }

  /** Item i points where allocator call i + 1 does, with its length in 16 bits. */
  function ItemFor(count: nat, text: string, i: nat): MessageItem {
    MessageItem(Pointer(count, MSGBUFFER_SIZE, i + 1), |text| % TWO_TO_THE_16)
  }

  /** What memcpy takes of a text: as many bytes as its item says. */
  function Copied(text: string): (r: string)
    ensures |r| == |text| % TWO_TO_THE_16
  {
    text[..|text| % TWO_TO_THE_16]
  }

  /** No later item has been written over this one. */
  ghost predicate Undisturbed(items: seq<MessageItem>, i: nat)
    requires i < |items|
  {
    forall j :: i < j < |items| ==>
      Apart(items[i].MemPointer, items[i].MessageLength, items[j].MemPointer, items[j].MessageLength)
  }

  /** The items of these texts; and each that no later one meets still holds what was copied. */
  ghost predicate ItemsHold(count: nat, items: seq<MessageItem>, mem: string, texts: seq<string>) {
    |items| == |texts| && FirstItemsHold(count, items, mem, texts, |texts|)
  }

  ghost predicate FirstItemsHold(count: nat, items: seq<MessageItem>, mem: string, texts: seq<string>, n: nat)
    requires n <= |items| == |texts|
  {
    n == 0 || (FirstItemsHold(count, items, mem, texts, n - 1) && ItemHolds(count, items, mem, texts, n - 1))
  }

  ghost predicate ItemHolds(count: nat, items: seq<MessageItem>, mem: string, texts: seq<string>, i: nat)
    requires i < |items| == |texts|
  {
    && items[i] == ItemFor(count, texts[i], i)
    && (Undisturbed(items, i) ==> Holds(mem, items[i].MemPointer, Copied(texts[i])))
  }

  lemma {:induction false} ItemsHoldIff(count: nat, items: seq<MessageItem>, mem: string, texts: seq<string>, n: nat)
    requires n <= |items| == |texts|
    ensures FirstItemsHold(count, items, mem, texts, n)
            <==> forall i :: 0 <= i < n ==> ItemHolds(count, items, mem, texts, i)
  {
    if n > 0 { ItemsHoldIff(count, items, mem, texts, n - 1); }
  }

  lemma AddressModulo(count: nat, k: nat)
    requires k < count
    ensures Pointer(count, MSGBUFFER_SIZE, k) == (k % ADDRESSABLE) * MSGBUFFER_SIZE
    ensures Pointer(count, MSGBUFFER_SIZE, k) + MSGBUFFER_SIZE <= count * MSGBUFFER_SIZE
  {
    PointerClosedForm(count, MSGBUFFER_SIZE, k);
    var q, r := k / ADDRESSABLE, k % ADDRESSABLE;
    assert k == q * ADDRESSABLE + r && ADDRESSABLE * MSGBUFFER_SIZE == TWO_TO_THE_32;
    S.RemainderUnique(k * MSGBUFFER_SIZE, TWO_TO_THE_32, q, r * MSGBUFFER_SIZE);
  }

  /** Two items use disjoint segments inside the block if and only if the distance of their
      numbers is no multiple of 2^19; otherwise they share one. */
  lemma ItemsDisjointIff(count: nat, i: nat, j: nat)
    requires i < j && j + 1 < count
    ensures var p, q := Pointer(count, MSGBUFFER_SIZE, i + 1), Pointer(count, MSGBUFFER_SIZE, j + 1);
            && (Apart(p, MSGBUFFER_SIZE, q, MSGBUFFER_SIZE) <==> (j - i) % ADDRESSABLE != 0)
            && (p == q <==> (j - i) % ADDRESSABLE == 0)
            && p + MSGBUFFER_SIZE <= count * MSGBUFFER_SIZE && q + MSGBUFFER_SIZE <= count * MSGBUFFER_SIZE
  {
    AddressModulo(count, i + 1);
    AddressModulo(count, j + 1);
    SameRemainderIff(i + 1, j + 1, ADDRESSABLE);
  }

  lemma SameRemainderIff(x: nat, y: nat, p: nat)
    requires p > 0 && x <= y
    ensures x % p == y % p <==> (y - x) % p == 0
  {
    if (y - x) % p == 0 { DistanceToRemainder(x, y, p); }
    if x % p == y % p { RemainderToDistance(x, y, p); }
  }

  lemma DistanceToRemainder(x: nat, y: nat, p: nat)
    requires p > 0 && x <= y && (y - x) % p == 0
    ensures x % p == y % p
  {
    var q, d := x / p, (y - x) / p;
    assert x == q * p + x % p && y - x == d * p;
    assert y == (q + d) * p + x % p;
    S.RemainderUnique(y, p, q + d, x % p);
  }

  lemma RemainderToDistance(x: nat, y: nat, p: nat)
    requires p > 0 && x <= y && x % p == y % p
    ensures (y - x) % p == 0
  {
    var d := y / p - x / p;
    assert x == (x / p) * p + x % p && y == (y / p) * p + y % p;
    assert y - x == d * p;
    S.MulAtLeast(d, p);
    S.RemainderUnique(y - x, p, d, 0);
  }

  /** Writing the next message keeps all earlier ones that it does not meet. */
  lemma NextItemHolds(count: nat, items: seq<MessageItem>, mem: string, texts: seq<string>, text: string)
    requires ItemsHold(count, items, mem, texts)
    requires var next := ItemFor(count, text, |texts|); next.MemPointer + next.MessageLength <= |mem|
    ensures var next := ItemFor(count, text, |texts|);
            ItemsHold(count, items + [next], Overwrite(mem, next.MemPointer, Copied(text)), texts + [text])
  {
    var n, next := |texts|, ItemFor(count, text, |texts|);
    var items', texts' := items + [next], texts + [text];
    var mem' := Overwrite(mem, next.MemPointer, Copied(text));
    ItemsHoldIff(count, items, mem, texts, n);
    forall i | 0 <= i < n + 1 ensures ItemHolds(count, items', mem', texts', i) {
      if i < n {
        assert ItemHolds(count, items, mem, texts, i);
        StillHolds(count, items, mem, texts, text, i);
      } else {
        OverwriteHolds(mem, next.MemPointer, Copied(text));
      }
    }
    ItemsHoldIff(count, items', mem', texts', n + 1);
  }

  lemma StillHolds(count: nat, items: seq<MessageItem>, mem: string, texts: seq<string>, text: string, i: nat)
    requires i < |items| == |texts| && ItemHolds(count, items, mem, texts, i)
    requires var next := ItemFor(count, text, |texts|); next.MemPointer + next.MessageLength <= |mem|
    ensures var next := ItemFor(count, text, |texts|);
            ItemHolds(count, items + [next], Overwrite(mem, next.MemPointer, Copied(text)), texts + [text], i)
  {
    var next := ItemFor(count, text, |texts|);
    if Undisturbed(items + [next], i) {
      BeforeUndisturbed(items, next, i);
      OverwriteApart(mem, next.MemPointer, Copied(text), items[i].MemPointer, Copied(texts[i]));
    }
  }

  lemma BeforeUndisturbed(items: seq<MessageItem>, next: MessageItem, i: nat)
    requires i < |items| && Undisturbed(items + [next], i)
    ensures Undisturbed(items, i)
    ensures Apart(next.MemPointer, next.MessageLength, items[i].MemPointer, items[i].MessageLength)
  {
    assert forall j :: 0 <= j < |items| ==> (items + [next])[j] == items[j];
    assert (items + [next])[|items|] == next;
  }

  /** Nothing is disturbed where all texts fit their segments, there are segments enough, and
      the item is one of the last 2^19. */
  lemma FittingUndisturbed(count: nat, items: seq<MessageItem>, texts: seq<string>, i: nat)
    requires |items| == |texts| < count
    requires forall j :: 0 <= j < |texts| ==> items[j] == ItemFor(count, texts[j], j)
    requires forall j :: 0 <= j < |texts| ==> |texts[j]| <= MSGBUFFER_SIZE
    requires i < |items| <= i + ADDRESSABLE
    ensures Undisturbed(items, i)
  {
    forall j | i < j < |items|
      ensures Apart(items[i].MemPointer, items[i].MessageLength, items[j].MemPointer, items[j].MessageLength)
    {
      ItemsDisjointIff(count, i, j);
      SmallModulus(j - i, ADDRESSABLE);
      SmallModulus(|texts[i]|, TWO_TO_THE_16);
      SmallModulus(|texts[j]|, TWO_TO_THE_16);
    }
  }

  /** The settings of a thread, and the results of rand() for lengths and characters. */
  datatype Plan = Plan(kind: string, lengthMin: nat, lengthMax: nat, messages: nat,
                       lengthRand: nat -> nat, byteRand: nat -> nat -> nat)
  {
    /** The range is usable: rand() % lengthMax must not divide by zero. */
    predicate Valid() { lengthMin == lengthMax || lengthMax > 0 }

    /** The length that the settings ask for: a fixed one, or one of the lengthMax lengths from
        lengthMin on, as rand() has it. */
    ghost predicate Configured(n: nat, i: nat)
      requires Valid()
    {
      if lengthMin == lengthMax then n == lengthMin
      else lengthMin <= n < lengthMin + lengthMax && SameRemainder(n - lengthMin, lengthRand(i), lengthMax)
    }

    function PayloadLength(i: nat): (n: nat)
      requires Valid()
      ensures Configured(n, i) && n <= LongestPayload()
    {
      if lengthMin == lengthMax then lengthMin else RandIntRange(lengthRand(i), lengthMin, lengthMax)
    }

    function LongestPayload(): nat
      requires Valid()
    {
      if lengthMin == lengthMax then lengthMin else lengthMin + lengthMax - 1
    }

    function TextFor(id: string, i: nat): (text: string)
      requires Valid()
      ensures |text| == |kind| + |id| + PayloadLength(i)
    {
      Encode(kind, id, RandomAscii(byteRand(i), PayloadLength(i)))
    }

    /** What memcpy takes of message i, for session IDs of a given length. */
    function CopiedLength(idLength: nat, i: nat): nat
      requires Valid()
    {
      (|kind| + idLength + PayloadLength(i)) % TWO_TO_THE_16
    }

    /** No memcpy runs out of a block of count segments. */
    ghost predicate StaysInBlock(count: nat, idLength: nat, total: nat)
      requires Valid()
    {
      forall i :: 0 <= i < total ==>
        Pointer(count, MSGBUFFER_SIZE, i + 1) + CopiedLength(idLength, i) <= count * MSGBUFFER_SIZE
    }

    /** n messages with the given session ID behind the given ones. */
    function Extended(texts: seq<string>, id: string, n: nat): (r: seq<string>)
      requires Valid()
      ensures |r| == |texts| + n
    {
      if n == 0 then texts
      else
        var before := Extended(texts, id, n - 1);
        before + [TextFor(id, |before|)]
    }

    /** The messages of the first x sessions, with the IDs drawn for them one after the other. */
    function Texts(ids: nat -> string, x: nat): (r: seq<string>)
      requires Valid()
      ensures |r| == Product(x, messages)
    {
      if x == 0 then [] else Extended(Texts(ids, x - 1), ids(x), messages)
    }
  }

  lemma NextStaysInBlock(plan: Plan, count: nat, id: string, total: nat, i: nat)
    requires plan.Valid() && plan.StaysInBlock(count, |id|, total) && i < total
    ensures var next := ItemFor(count, plan.TextFor(id, i), i);
            next.MemPointer + next.MessageLength <= count * MSGBUFFER_SIZE
  {
    assert plan.CopiedLength(|id|, i) == |plan.TextFor(id, i)| % TWO_TO_THE_16;
  }

  lemma FewerStayInBlock(plan: Plan, count: nat, idLength: nat, total: nat, fewer: nat)
    requires plan.Valid() && plan.StaysInBlock(count, idLength, total) && fewer <= total
    ensures plan.StaysInBlock(count, idLength, fewer)
  {
  }

  lemma {:induction false} ExtendedAt(plan: Plan, texts: seq<string>, id: string, n: nat, i: nat)
    requires plan.Valid() && i < |texts| + n
    ensures plan.Extended(texts, id, n)[i] == if i < |texts| then texts[i] else plan.TextFor(id, i)
  {
    if n > 0 && i < |texts| + n - 1 { ExtendedAt(plan, texts, id, n - 1, i); }
  }

  /** The IDs that are drawn from a counter, after some that have been drawn before. */
  function Ids(start: seq<S.Byte>, drawn: nat): nat -> string { (k: nat) => S.NthId(start, drawn + k) }

  /** The messages of session k are numbered from k * messages on. */
  lemma {:induction false} TextOfSession(plan: Plan, ids: nat -> string, sessions: nat, k: nat, i: nat)
    requires plan.Valid() && k < sessions
    requires Product(k, plan.messages) <= i < Product(k, plan.messages) + plan.messages
    ensures i < |plan.Texts(ids, sessions)| && plan.Texts(ids, sessions)[i] == plan.TextFor(ids(k + 1), i)
    decreases sessions
  {
    var x := sessions - 1;
    var before := plan.Texts(ids, x);
    SessionTexts(plan, ids, x);
    if k < x {
      TextOfSession(plan, ids, x, k, i);
      ExtendedAt(plan, before, ids(sessions), plan.messages, i);
    } else {
      assert |before| == Product(k, plan.messages);
      ExtendedAt(plan, before, ids(sessions), plan.messages, i);
    }
  }

  lemma SessionTexts(plan: Plan, ids: nat -> string, x: nat)
    requires plan.Valid()
    ensures plan.Texts(ids, x + 1) == plan.Extended(plan.Texts(ids, x), ids(x + 1), plan.messages)
  {
  }

  /** The session of message number i. */
  function SessionOf(i: nat, messages: nat): nat
    requires messages > 0
  {
    i / messages
  }

  lemma SessionBounds(i: nat, messages: nat, sessions: nat)
    requires messages > 0 && i < Product(sessions, messages)
    ensures var k := SessionOf(i, messages);
            k < sessions && Product(k, messages) <= i < Product(k, messages) + messages
  {
    var k := i / messages;
    ProductIsTimes(sessions, messages);
    ProductIsTimes(k, messages);
    assert i == k * messages + i % messages;
    if k >= sessions { ProductMonotone(sessions, k, messages); }
  }

  /** Message i of a thread carries the ID of its session number i / messages. */
  lemma {:induction false} TextAt(plan: Plan, ids: nat -> string, sessions: nat, i: nat)
    requires plan.Valid() && plan.messages > 0 && i < |plan.Texts(ids, sessions)|
    ensures plan.Texts(ids, sessions)[i] == plan.TextFor(ids(SessionOf(i, plan.messages) + 1), i)
  {
    var k := SessionOf(i, plan.messages);
    SessionBounds(i, plan.messages, sessions);
    TextOfSession(plan, ids, sessions, k, i);
  }

  lemma OneSessionMore(plan: Plan, start: seq<S.Byte>, x: nat, id: string)
    requires plan.Valid() && id == S.NthId(start, x + 1)
    ensures plan.Texts(Ids(start, 0), x + 1) == plan.Extended(plan.Texts(Ids(start, 0), x), id, plan.messages)
  {
    assert Ids(start, 0)(x + 1) == S.NthId(start, x + 1);
  }

  lemma IdFromValue(bytes: seq<S.Byte>, start: seq<S.Byte>, k: nat)
    requires |bytes| == |start| && S.Value(bytes) == S.NthValue(start, k)
    ensures S.Hex(bytes) == S.NthId(start, k)
  {
    S.ValueInjective(bytes, S.BytesOf(S.NthValue(start, k), |start|));
  }

  class Thread {
    const SessionAmount: nat
    const MessageAmount: nat
    const MemMessages: MemoryManager
    var MessageItems: seq<MessageItem>

    ghost predicate Valid()
      reads this, MemMessages
    {
      && MemMessages.Valid()
      && MemMessages.SegmentCount == SegmentsFor(SessionAmount, MessageAmount) % TWO_TO_THE_32
      && MemMessages.SegmentSize == MSGBUFFER_SIZE
    }

    constructor (sessions: nat, messages: nat)
      ensures Valid() && MessageItems == [] && MemMessages.Calls == 0
      ensures SessionAmount == sessions && MessageAmount == messages
      ensures fresh(MemMessages) && fresh(MemMessages.Block)
    {
      SessionAmount, MessageAmount, MessageItems := sessions, messages, [];
      ProductIsTimes(sessions, messages + 1);
      MemMessages := new MemoryManager(sessions * (messages + 1) % TWO_TO_THE_32, MSGBUFFER_SIZE);
    }

    /** Exactly these messages have been written, and all of them lie where they belong. */
    ghost predicate Written(texts: seq<string>)
      reads this, MemMessages, MemMessages.Block
    {
      && Valid() && MemMessages.Calls == |texts|
      && ItemsHold(MemMessages.SegmentCount, MessageItems, MemMessages.Block[..], texts)
    }

    /** The generator: S sessions with M messages each, which must not run out of the block.
        Afterwards every item that no later one was written over still points at the bytes of
        its own message, and the session counter has advanced by S. */
    method GenerateMessages(session: S.Session, plan: Plan)
      requires Valid() && MessageItems == [] && MemMessages.Calls == 0
      requires session.UpcountSessionID != [] && plan.messages == MessageAmount && plan.Valid()
      requires plan.StaysInBlock(MemMessages.SegmentCount, 2 * |session.UpcountSessionID|,
                                 Product(SessionAmount, MessageAmount))
      modifies this, MemMessages, MemMessages.Block, session
      ensures Written(plan.Texts(Ids(old(session.UpcountSessionID), 0), SessionAmount))
      ensures |session.UpcountSessionID| == |old(session.UpcountSessionID)|
      ensures S.Value(session.UpcountSessionID) == S.NthValue(old(session.UpcountSessionID), SessionAmount)
    {
      ghost var start := session.UpcountSessionID;
      var x := 0;
      while x < SessionAmount
        invariant 0 <= x <= SessionAmount
        invariant Written(plan.Texts(Ids(start, 0), x))
        invariant |session.UpcountSessionID| == |start|
        invariant S.Value(session.UpcountSessionID) == S.NthValue(start, x)
      {
        NextSession(session, plan, x, start);
        x := x + 1;
      }
    }

    method NextSession(session: S.Session, plan: Plan, x: nat, ghost start: seq<S.Byte>)
      requires x < SessionAmount && plan.messages == MessageAmount && plan.Valid()
      requires Written(plan.Texts(Ids(start, 0), x))
      requires |session.UpcountSessionID| == |start| > 0 && S.Value(session.UpcountSessionID) == S.NthValue(start, x)
      requires plan.StaysInBlock(MemMessages.SegmentCount, 2 * |start|, Product(SessionAmount, MessageAmount))
      modifies this, MemMessages, MemMessages.Block, session
      ensures Written(plan.Texts(Ids(start, 0), x + 1))
      ensures |session.UpcountSessionID| == |start| && S.Value(session.UpcountSessionID) == S.NthValue(start, x + 1)
    {
      var id := NextId(session, start, x);
      ProductGrows(x + 1, SessionAmount, MessageAmount);
      FewerStayInBlock(plan, MemMessages.SegmentCount, |id|,
                       Product(SessionAmount, MessageAmount), Product(x + 1, MessageAmount));
      OneSessionMore(plan, start, x, id);
      GenerateSession(id, plan, plan.Texts(Ids(start, 0), x));
    }

    method NextId(session: S.Session, ghost start: seq<S.Byte>, ghost x: nat) returns (id: string)
      requires |session.UpcountSessionID| == |start| > 0 && S.Value(session.UpcountSessionID) == S.NthValue(start, x)
      modifies session
      ensures |session.UpcountSessionID| == |start| && S.Value(session.UpcountSessionID) == S.NthValue(start, x + 1)
      ensures id == S.NthId(start, x + 1) && |id| == 2 * |start|
    {
      var generated := session.GenerateID();
      IdFromValue(session.UpcountSessionID, start, x + 1);
      id := generated.value;
    }

    /** The inner loop: the messages of one session, behind those already written. */
    method GenerateSession(id: string, plan: Plan, ghost before: seq<string>)
      requires plan.messages == MessageAmount && plan.Valid() && Written(before)
      requires plan.StaysInBlock(MemMessages.SegmentCount, |id|, |before| + MessageAmount)
      modifies this, MemMessages, MemMessages.Block
      ensures Written(plan.Extended(before, id, MessageAmount))
    {
      var y := 0;
      while y < MessageAmount
        invariant 0 <= y <= MessageAmount
        invariant Written(plan.Extended(before, id, y))
      {
        NextStaysInBlock(plan, MemMessages.SegmentCount, id, |before| + MessageAmount, |MessageItems|);
        var text := BuildMessage(id, plan, |MessageItems|);
        AppendMessage(text, plan.Extended(before, id, y));
        y := y + 1;
      }
    }

    method BuildMessage(id: string, plan: Plan, i: nat) returns (text: string)
      requires plan.Valid()
      ensures text == plan.TextFor(id, i)
    {
      var message := new PerfMessage();
      message.SetHeader(plan.kind, id, plan.PayloadLength(i));
      message.GenerateRandomPayload(plan.byteRand(i));
      assert message.MessagePayload == RandomAscii(plan.byteRand(i), plan.PayloadLength(i));
      text := message.GetMessage();
    }

    method AppendMessage(text: string, ghost texts: seq<string>)
      requires Written(texts)
      requires var next := ItemFor(MemMessages.SegmentCount, text, |texts|);
               next.MemPointer + next.MessageLength <= MemMessages.Block.Length
      modifies this, MemMessages, MemMessages.Block
      ensures Written(texts + [text])
    {
      NextItemHolds(MemMessages.SegmentCount, MessageItems, MemMessages.Block[..], texts, text);
      var length := |text| % TWO_TO_THE_16;
      var destination := MemMessages.GetNextMemPointer();
      MemMessages.CopyInto(destination, text[..length]);
      MessageItems := MessageItems + [MessageItem(destination, length)];
    }
  }

  /** Item i of a thread that has generated its messages, if no later one was written over it:
      its own type, the ID of session i / messages, and its own payload, read back from the
      block (cut to a length of 16 bits). */
  lemma ItemReadsBack(count: nat, items: seq<MessageItem>, mem: string, plan: Plan, ids: nat -> string,
                      sessions: nat, i: nat)
    requires plan.Valid() && plan.messages > 0 && i < |items| && Undisturbed(items, i)
    requires ItemsHold(count, items, mem, plan.Texts(ids, sessions))
    ensures ReadsBack(items[i], mem, Copied(plan.TextFor(ids(SessionOf(i, plan.messages) + 1), i)))
  {
    TextAt(plan, ids, sessions, i);
    ItemsHoldIff(count, items, mem, plan.Texts(ids, sessions), |items|);
    assert ItemHolds(count, items, mem, plan.Texts(ids, sessions), i);
  }

  /** Where all messages fit their segments of 8192 bytes, each of the last 2^19 items of a
      thread - all of them, if there are no more - holds its whole text. */
  lemma {:induction false} FittingReadsBack(items: seq<MessageItem>, mem: string, plan: Plan, ids: nat -> string,
                                            sessions: nat, i: nat)
    requires plan.Valid() && plan.messages > 0 && i < |items| <= i + 0x8_0000
    requires ItemsHold(SegmentsFor(sessions, plan.messages), items, mem, plan.Texts(ids, sessions))
    requires forall text :: text in plan.Texts(ids, sessions) ==> |text| <= 8192
    ensures ReadsBack(items[i], mem, plan.TextFor(ids(SessionOf(i, plan.messages) + 1), i))
  {
    var count, texts := SegmentsFor(sessions, plan.messages), plan.Texts(ids, sessions);
    MoreSegmentsThanMessages(sessions, plan.messages);
    ItemsAre(count, items, mem, texts);
    FittingUndisturbed(count, items, texts, i);
    ItemReadsBack(count, items, mem, plan, ids, sessions, i);
    TextAt(plan, ids, sessions, i);
    CopiedWhole(texts[i]);
  }

  lemma {:induction false} ItemsAre(count: nat, items: seq<MessageItem>, mem: string, texts: seq<string>)
    requires ItemsHold(count, items, mem, texts)
    ensures forall j :: 0 <= j < |texts| ==> texts[j] in texts && items[j] == ItemFor(count, texts[j], j)
  {
    ItemsHoldIff(count, items, mem, texts, |items|);
    forall j | 0 <= j < |texts| ensures texts[j] in texts && items[j] == ItemFor(count, texts[j], j) {
      assert ItemHolds(count, items, mem, texts, j);
    }
  }

  lemma CopiedWhole(text: string)
    requires |text| <= MSGBUFFER_SIZE
    ensures Copied(text) == text
  {
    SmallModulus(|text|, TWO_TO_THE_16);
  }

  lemma FittingStaysInBlock(plan: Plan, count: nat, idLength: nat, total: nat)
    requires plan.Valid() && |plan.kind| + idLength + plan.LongestPayload() <= MSGBUFFER_SIZE && count > 0
    ensures plan.StaysInBlock(count, idLength, total)
  {
    forall i | 0 <= i < total
      ensures Pointer(count, MSGBUFFER_SIZE, i + 1) + plan.CopiedLength(idLength, i) <= count * MSGBUFFER_SIZE
    {
      SmallModulus(|plan.kind| + idLength + plan.PayloadLength(i), TWO_TO_THE_16);
      if i + 1 < count {
        AddressModulo(count, i + 1);
      } else {
        PointerClosedForm(count, MSGBUFFER_SIZE, i + 1);
        ProductMonotone(1, count, MSGBUFFER_SIZE);
      }
    }
  }

  /** string(MemPointer, MessageLength) is the text. */
  ghost predicate ReadsBack(item: MessageItem, mem: string, text: string) {
    && item.MemPointer + item.MessageLength <= |mem|
    && mem[item.MemPointer..item.MemPointer + item.MessageLength] == text
  }

  /** The server decodes message i of a thread of SETs as what the settings ask for: the ID of
      its session, which 32 counter bytes print in the required 64 characters, and a payload of
      the configured length, of characters from space to underscore as rand() has them. */
  lemma {:induction false} GeneratedDecodes(plan: Plan, start: seq<S.Byte>, drawn: nat, sessions: nat, i: nat)
    requires plan.Valid() && plan.kind == "SET" && |start| == 32
    requires plan.messages > 0 && i < |plan.Texts(Ids(start, drawn), sessions)|
    ensures Carries(plan.Texts(Ids(start, drawn), sessions)[i], plan,
                    S.NthId(start, drawn + SessionOf(i, plan.messages) + 1), i)
  {
    var ids := Ids(start, drawn);
    TextAt(plan, ids, sessions, i);
    TextCarries(plan, S.NthId(start, drawn + SessionOf(i, plan.messages) + 1), i);
  }

  /** The text is a SET for this session with a payload as message i of the plan has it. */
  ghost predicate Carries(text: string, plan: Plan, id: string, i: nat)
    requires plan.Valid()
  {
    && |text| >= HEADER_BYTES && Decode(text).kind.Set? && Decode(text).id == id
    && plan.Configured(|Decode(text).payload|, i)
    && forall j :: 0 <= j < |Decode(text).payload| ==> RandomChar(Decode(text).payload[j], plan.byteRand(i)(j))
  }

  lemma {:induction false} TextCarries(plan: Plan, id: string, i: nat)
    requires plan.Valid() && plan.kind == "SET" && |id| == SESSION_ID_BYTES
    ensures Carries(plan.TextFor(id, i), plan, id, i)
  {
    var payload := RandomAscii(plan.byteRand(i), plan.PayloadLength(i));
    SetDecodes(id, payload);
    CharsRandom(plan.byteRand(i), plan.PayloadLength(i));
  }

  lemma {:induction false} SetDecodes(id: string, payload: string)
    requires |id| == SESSION_ID_BYTES
    ensures |Encode("SET", id, payload)| >= HEADER_BYTES
    ensures Decode(Encode("SET", id, payload)) == View(Set, id, payload)
  {
    KindIff("SET");
    EncodeDecode("SET", id, payload);
  }

  lemma {:induction false} CharsRandom(rand: nat -> nat, n: nat)
    ensures forall j :: 0 <= j < n ==> RandomChar(RandomAscii(rand, n)[j], rand(j))
  {
  }

  ghost predicate RandomChar(c: char, r: nat) {
    32 <= c as int <= 95 && SameRemainder(c as int - 32, r, 64)
  }

  // ---- all threads of a performance test -------------------------------------------------------

  /** All threads draw from the one Session that PerformanceSet starts at this vector. */
  const PERFORMANCE_START: seq<S.Byte> :=
    [1, 1, 1, 1, 1] + seq<S.Byte>(27, _ => 0)

  /** The number of the generateID call that session x of thread t makes. */
  function DrawNumber(sessions: nat, t: nat, x: nat): nat { Product(t, sessions) + x + 1 }

  /** The configuration, and for each thread its settings. */
  datatype Config = Config(sessions: nat, messages: nat, plans: seq<Plan>)

  /** The settings are usable, and no memcpy runs out of the block of its thread. */
  ghost predicate Usable(config: Config) {
    forall plan :: plan in config.plans ==> UsablePlan(plan, config.sessions, config.messages)
  }

  ghost predicate UsablePlan(plan: Plan, sessions: nat, messages: nat) {
    && plan.messages == messages && plan.Valid()
    && plan.StaysInBlock(SegmentsFor(sessions, messages) % TWO_TO_THE_32, SESSION_ID_BYTES, Product(sessions, messages))
  }

  lemma {:induction false} SameTexts(plan: Plan, a: nat -> string, b: nat -> string, x: nat)
    requires plan.Valid() && forall k: nat :: a(k) == b(k)
    ensures plan.Texts(a, x) == plan.Texts(b, x)
  {
    if x > 0 { SameTexts(plan, a, b, x - 1); }
  }

  /** A thread generates from where the threads before it have left the counter. */
  lemma TextsGoOn(plan: Plan, start: seq<S.Byte>, drawn: nat, now: seq<S.Byte>, x: nat)
    requires plan.Valid() && |now| == |start| && S.Value(now) == S.NthValue(start, drawn)
    ensures plan.Texts(Ids(now, 0), x) == plan.Texts(Ids(start, drawn), x)
  {
    var a, b := Ids(now, 0), Ids(start, drawn);
    forall k: nat ensures a(k) == b(k) { S.NthIdGoesOn(start, drawn, now, k); }
    SameTexts(plan, a, b, x);
  }

  /** The messages of thread t; each thread before it has drawn an ID for each session. */
  function ThreadTexts(plan: Plan, start: seq<S.Byte>, sessions: nat, t: nat): seq<string>
    requires plan.Valid()
  {
    plan.Texts(Ids(start, Product(t, sessions)), sessions)
  }

  /** So its message i carries the ID that its session i / messages draws. */
  lemma ThreadTextAt(plan: Plan, start: seq<S.Byte>, sessions: nat, t: nat, i: nat)
    requires plan.Valid() && plan.messages > 0 && i < |ThreadTexts(plan, start, sessions, t)|
    ensures |ThreadTexts(plan, start, sessions, t)| == sessions * plan.messages
    ensures ThreadTexts(plan, start, sessions, t)[i]
            == plan.TextFor(S.NthId(start, DrawNumber(sessions, t, SessionOf(i, plan.messages))), i)
  {
    var ids := Ids(start, Product(t, sessions));
    ProductIsTimes(sessions, plan.messages);
    TextAt(plan, ids, sessions, i);
  }

  /** After the sessions of thread t, as many IDs have been drawn as thread t + 1 goes on from. */
  lemma NextDraws(start: seq<S.Byte>, sessions: nat, t: nat, now: seq<S.Byte>)
    requires |now| == |start| && S.Value(now) == S.NthValue(start, Product(t, sessions))
    ensures S.NthValue(now, sessions) == S.NthValue(start, Product(t + 1, sessions))
  {
    var drawn, next := Product(t, sessions), Product(t + 1, sessions);
    assert next == drawn + sessions;
    S.NthValueGoesOn(start, drawn, now, sessions);
  }

  /** Each thread has written its texts. */
  ghost predicate AllWritten(threads: seq<Thread>, texts: seq<seq<string>>)
    reads set u | 0 <= u < |threads| :: threads[u]
    reads set u | 0 <= u < |threads| :: threads[u].MemMessages
    reads set u | 0 <= u < |threads| :: threads[u].MemMessages.Block
  {
    && |threads| == |texts|
    && (threads == [] ||
        var n := |threads| - 1;
        AllWritten(threads[..n], texts[..n]) && threads[n].Written(texts[n]))
  }

  lemma {:induction false} WrittenAt(threads: seq<Thread>, texts: seq<seq<string>>, t: nat)
    requires AllWritten(threads, texts) && t < |threads|
    ensures threads[t].Written(texts[t])
  {
    var n := |threads| - 1;
    if t < n { WrittenAt(threads[..n], texts[..n], t); }
  }

  /** The first n threads have the messages of their plans, each drawing after those before. */
  ghost predicate AllTexts(config: Config, start: seq<S.Byte>, texts: seq<seq<string>>)
    requires Usable(config)
  {
    && |texts| <= |config.plans|
    && forall t :: 0 <= t < |texts| ==> IsThreadText(config, start, t, texts[t])
  }

  ghost predicate IsThreadText(config: Config, start: seq<S.Byte>, t: nat, text: seq<string>)
    requires t < |config.plans|
  {
    config.plans[t].Valid() && text == ThreadTexts(config.plans[t], start, config.sessions, t)
  }

  class Perf {
    var ThreadObjects: seq<Thread>

    constructor ()
      ensures ThreadObjects == []
    {
      ThreadObjects := [];
    }

    /** generatePayload: one thread object after the other, all drawing from one Session. The
        messages of thread t carry the IDs number t * sessions + 1, ... after the start. */
    method GeneratePayload(config: Config) returns (ghost texts: seq<seq<string>>)
      requires Usable(config)
      modifies this
      ensures |texts| == |config.plans| && AllTexts(config, PERFORMANCE_START, texts)
      ensures |ThreadObjects| == |old(ThreadObjects)| + |texts| && old(ThreadObjects) <= ThreadObjects
      ensures AllWritten(ThreadObjects[|old(ThreadObjects)|..], texts)
    {
      var threads;
      var session := new S.Session(PERFORMANCE_START);
      threads, texts := GenerateThreads(session, config);
      ThreadObjects := ThreadObjects + threads;
      assert ThreadObjects[|old(ThreadObjects)|..] == threads;
    }
  }

  method GenerateThreads(session: S.Session, config: Config)
    returns (threads: seq<Thread>, ghost texts: seq<seq<string>>)
    requires Usable(config) && |session.UpcountSessionID| == 32
    modifies session
    ensures |texts| == |config.plans| && AllTexts(config, old(session.UpcountSessionID), texts)
    ensures AllWritten(threads, texts)
  {
    ghost var start := session.UpcountSessionID;
    threads, texts := [], [];
    while |threads| < |config.plans|
      invariant |threads| == |texts| <= |config.plans| && AllTexts(config, start, texts)
      invariant AllWritten(threads, texts)
      invariant |session.UpcountSessionID| == |start| == 32
      invariant S.Value(session.UpcountSessionID) == S.NthValue(start, Product(|threads|, config.sessions))
      decreases |config.plans| - |threads|
    {
      var thread;
      ghost var text;
      thread, text := GenerateNext(session, config, start, threads, texts);
      NextText(config, start, texts, text);
      threads, texts := threads + [thread], texts + [text];
    }
  }

  lemma NextText(config: Config, start: seq<S.Byte>, texts: seq<seq<string>>, text: seq<string>)
    requires Usable(config) && AllTexts(config, start, texts) && |texts| < |config.plans|
    requires IsThreadText(config, start, |texts|, text)
    ensures AllTexts(config, start, texts + [text])
  {
  }

  lemma NextWritten(threads: seq<Thread>, texts: seq<seq<string>>, thread: Thread, text: seq<string>)
    requires AllWritten(threads, texts) && thread.Written(text)
    ensures AllWritten(threads + [thread], texts + [text])
  {
    assert (threads + [thread])[..|threads|] == threads && (texts + [text])[..|texts|] == texts;
  }

  method GenerateNext(session: S.Session, config: Config, ghost start: seq<S.Byte>,
                      threads: seq<Thread>, ghost texts: seq<seq<string>>)
    returns (thread: Thread, ghost text: seq<string>)
    requires Usable(config) && |threads| < |config.plans| && |session.UpcountSessionID| == |start| == 32
    requires S.Value(session.UpcountSessionID) == S.NthValue(start, Product(|threads|, config.sessions))
    requires AllWritten(threads, texts)
    modifies session
    ensures fresh(thread) && IsThreadText(config, start, |threads|, text)
    ensures AllWritten(threads + [thread], texts + [text])
    ensures |session.UpcountSessionID| == |start|
    ensures S.Value(session.UpcountSessionID) == S.NthValue(start, Product(|threads| + 1, config.sessions))
  {
    thread, text := GenerateThread(session, config, start, |threads|);
    NextWritten(threads, texts, thread, text);
  }

  method GenerateThread(session: S.Session, config: Config, ghost start: seq<S.Byte>, t: nat)
    returns (thread: Thread, ghost text: seq<string>)
    requires Usable(config) && t < |config.plans| && |session.UpcountSessionID| == |start| == 32
    requires S.Value(session.UpcountSessionID) == S.NthValue(start, Product(t, config.sessions))
    modifies session
    ensures fresh(thread) && fresh(thread.MemMessages) && fresh(thread.MemMessages.Block)
    ensures IsThreadText(config, start, t, text) && thread.Written(text)
    ensures |session.UpcountSessionID| == |start|
    ensures S.Value(session.UpcountSessionID) == S.NthValue(start, Product(t + 1, config.sessions))
  {
    ghost var now, drawn := session.UpcountSessionID, Product(t, config.sessions);
    var plan := config.plans[t];
    assert UsablePlan(plan, config.sessions, config.messages);
    thread := new Thread(config.sessions, config.messages);
    assert plan.StaysInBlock(thread.MemMessages.SegmentCount, 2 * |now|, Product(config.sessions, config.messages));
    thread.GenerateMessages(session, plan);
    text := ThreadTexts(plan, start, config.sessions, t);
    TextsGoOn(plan, start, drawn, now, config.sessions);
    NextDraws(start, config.sessions, t, now);
  }

  /** Whatever 32-bit numbers of threads and sessions are configured, no two sessions of any
      threads get the same ID, and the IDs increase in drawing order. */
  lemma AllThreadIdsIncrease(sessions: nat, t: nat, x: nat, t': nat, x': nat)
    requires sessions < TWO_TO_THE_32 && t < TWO_TO_THE_32 && t' < TWO_TO_THE_32
    requires x < sessions && x' < sessions && (t < t' || (t == t' && x < x'))
    ensures S.LexLess(S.NthId(PERFORMANCE_START, DrawNumber(sessions, t, x)),
                      S.NthId(PERFORMANCE_START, DrawNumber(sessions, t', x')))
    ensures S.NthId(PERFORMANCE_START, DrawNumber(sessions, t, x))
            != S.NthId(PERFORMANCE_START, DrawNumber(sessions, t', x'))
  {
    var i, j := DrawNumber(sessions, t, x), DrawNumber(sessions, t', x');
    ProductIsTimes(t, sessions);
    ProductIsTimes(t', sessions);
    if t < t' {
      ProductMonotone(t + 1, t', sessions);
      assert (t + 1) * sessions == t * sessions + sessions;
    }
    ProductMonotone(t', TWO_TO_THE_32 - 1, sessions);
    assert j <= TWO_TO_THE_32 * TWO_TO_THE_32;
    StartFarFromWrap();
    S.IdsIncrease(PERFORMANCE_START, i, j);
    S.IdsDistinct(PERFORMANCE_START, i, j);
  }

  /** The start vector is more than 2^64 below the point where the counter wraps. */
  lemma StartFarFromWrap()
    ensures |PERFORMANCE_START| == 32
    ensures S.Value(PERFORMANCE_START) + TWO_TO_THE_32 * TWO_TO_THE_32 < S.Pow256(32)
  {
    ZerosBelow([1, 1, 1, 1, 1], 27);
    var five: seq<S.Byte> := [1, 1, 1, 1, 1];
    assert S.Value(five) + 1 < S.Pow256(5) by { FiveOnes(); }
    PowerSplit(5, 27);
    PowerSplit(8, 19);
    assert S.Pow256(8) == TWO_TO_THE_32 * TWO_TO_THE_32 by { EightBytes(); }
    var p := S.Pow256(27);
    MemoryBlock.ProductMonotone(1, S.Pow256(19), S.Pow256(8));
    MemoryBlock.ProductMonotone(S.Value(five) + 2, S.Pow256(5), p);
    assert (S.Value(five) + 2) * p == S.Value(five) * p + 2 * p;
  }

  lemma {:induction false} ZerosBelow(bytes: seq<S.Byte>, n: nat)
    ensures S.Value(bytes + seq<S.Byte>(n, _ => 0)) == S.Value(bytes) * S.Pow256(n)
  {
    var all := bytes + seq<S.Byte>(n, _ => 0);
    if n == 0 {
      assert all == bytes;
    } else {
      assert all[..|all| - 1] == bytes + seq<S.Byte>(n - 1, _ => 0);
      ZerosBelow(bytes, n - 1);
      Rearrange(256, S.Value(bytes), S.Pow256(n - 1));
    }
  }

  lemma Rearrange(a: nat, b: nat, c: nat)
    ensures a * (b * c) == b * (a * c)
  {
  }

  lemma {:induction false} PowerSplit(m: nat, n: nat)
    ensures S.Pow256(m + n) == S.Pow256(m) * S.Pow256(n)
    decreases n
  {
    if n > 0 {
      PowerSplit(m, n - 1);
      Rearrange(256, S.Pow256(m), S.Pow256(n - 1));
    }
  }

  lemma FiveOnes()
    ensures S.Value([1, 1, 1, 1, 1]) + 1 < S.Pow256(5)
  {
    var five: seq<S.Byte> := [1, 1, 1, 1, 1];
    assert five[..4] == [1, 1, 1, 1] && five[..4][..3] == [1, 1, 1] && five[..4][..3][..2] == [1, 1];
    assert S.Pow256(2) == 65536 && S.Pow256(4) == 65536 * 65536;
  }

  lemma EightBytes()
    ensures S.Pow256(8) == TWO_TO_THE_32 * TWO_TO_THE_32
  {
    assert S.Pow256(2) == 65536;
    PowerSplit(2, 2);
    PowerSplit(4, 4);
  }
}
