/** The wire format: the encoders of the Apache module (apache/Request.cpp) and of the
    performance tool (evaluate/performance/Message.cpp) against the slicing of the worker. */
module Wire {
  import opened Common
  import opened Dispatch
  import opened MemoryBlock
  import J = JsonReply

  function Encode(kind: string, id: string, payload: string): string { kind + id + payload }

  /** The slices of a buffer that holds a whole message. */
  function Decode(d: string): View
    requires |d| >= HEADER_BYTES
  {
    View(KindOf(d[..3]), d[3..HEADER_BYTES], d[HEADER_BYTES..])
  }

  const DECLINED := -1
  const OK := 0

  /** Request of the Apache module, after the URI has been parsed into its three fields. */
  class Request {
    var MessageType: string
    var MessageSession: string
    var MessagePayload: string
    var ReturnCode: int

    constructor (kind: string, session: string, payload: string)
      ensures MessageType == kind && MessageSession == session && MessagePayload == payload
      ensures ReturnCode == DECLINED
    {
      MessageType, MessageSession, MessagePayload, ReturnCode := kind, session, payload, DECLINED;
    }

    /** processMessage up to the sending: nothing goes out and the code stays as it was unless
        the type is known, the session ID is 64 bytes long and a SET has a payload. */
    method ProcessMessage() returns (sent: Option<string>)
      modifies this`ReturnCode
      ensures sent == WireText(MessageType, MessageSession, MessagePayload)
      ensures ReturnCode == if sent.Some? then OK else old(ReturnCode)
    {
      if MessageType != MSG_INDICATOR_GET && MessageType != MSG_INDICATOR_SET { return None; }
      if |MessageSession| != SESSION_ID_BYTES { return None; }
      if MessageType == MSG_INDICATOR_SET && |MessagePayload| == 0 { return None; }
      if MessageType == MSG_INDICATOR_SET {
        sent := Some(MSG_INDICATOR_SET + MessageSession + MessagePayload);
      } else {
        sent := Some(MSG_INDICATOR_GET + MessageSession);
        assert MSG_INDICATOR_GET + MessageSession == Encode(MessageType, MessageSession, "");
      }
      ReturnCode := OK;
    }
  }

  function WireText(kind: string, session: string, payload: string): Option<string> {
    if |session| != SESSION_ID_BYTES then None
    else match KindOf(kind)
      case Set => if payload == "" then None else Some(Encode(kind, session, payload))
      case Get => Some(Encode(kind, session, ""))
      case Mismatch => None
  }

  /** What the Apache module sends is what the worker decodes, and a request is sent exactly
      if the worker would find a valid type, and for a SET a payload, in it. */
  lemma RequestRoundTrip(kind: string, session: string, payload: string)
    ensures var sent := WireText(kind, session, payload);
            && (sent.Some? <==> |session| == 64 && (kind == "GET" || (kind == "SET" && payload != "")))
            && (sent.Some? ==> |sent.value| >= HEADER_BYTES)
            && (sent.Some? ==> sent.value[..3] == kind && sent.value[3..67] == session
                               && sent.value[67..] == if kind == "SET" then payload else "")
            && (sent.Some? ==> Decode(sent.value)
                               == View(KindOf(kind), session, if KindOf(kind).Set? then payload else ""))
  {
    KindIff(kind);
    if WireText(kind, session, payload).Some? {
      EncodeDecode(kind, session, if KindOf(kind).Set? then payload else "");
    }
  }

  lemma EncodeDecode(kind: string, id: string, payload: string)
    requires |kind| == 3 && |id| == SESSION_ID_BYTES
    ensures var d := Encode(kind, id, payload);
            && |d| == 67 + |payload| && d[..3] == kind && d[3..67] == id && d[67..] == payload
            && Decode(d) == View(KindOf(kind), id, payload)
  {
  }

  /** Conversely, a buffer of at least 67 bytes is restored from its slices. */
  lemma DecodeEncode(d: string)
    requires |d| >= HEADER_BYTES
    ensures Encode(d[..3], Decode(d).id, Decode(d).payload) == d
  {
  }

  /** A message that lies whole in its buffer is what the worker's slices show if it is at least
      67 bytes long; a shorter one makes the payload length wrap to more than 65000 bytes. */
  lemma ViewOfWholeBuffer(mem: string, m: Transfer, d: string)
    requires Holds(mem, m.ptr, d) && m.bytes == |d| <= MSGBUFFER_SIZE
    ensures |d| >= HEADER_BYTES ==> ViewOf(mem, m) == Decode(d)
    ensures |d| < 67 ==> |ViewOf(mem, m).payload| == 65536 - (67 - |d|)
  {
    if |d| >= HEADER_BYTES {
      SmallModulus(|d| - HEADER_BYTES, TWO_TO_THE_16);
      HeldSlice(mem, m.ptr, d, 0, 3);
      HeldSlice(mem, m.ptr, d, 3, HEADER_BYTES);
      HeldSlice(mem, m.ptr, d, HEADER_BYTES, |d|);
      assert d[HEADER_BYTES..|d|] == d[HEADER_BYTES..] && d[0..3] == d[..3];
    }
  }

  /** Type and session ID are those at the start of the buffer, whatever the length says. */
  lemma HeaderOfBuffer(mem: string, m: Transfer, d: string)
    requires Holds(mem, m.ptr, d) && |d| >= HEADER_BYTES
    ensures ViewOf(mem, m).kind == Decode(d).kind && ViewOf(mem, m).id == Decode(d).id
  {
    HeldSlice(mem, m.ptr, d, 0, 3);
    HeldSlice(mem, m.ptr, d, 3, HEADER_BYTES);
    assert d[0..3] == d[..3];
  }

  lemma HeldSlice(mem: string, at: nat, d: string, lo: nat, hi: nat)
    requires Holds(mem, at, d) && lo <= hi <= |d|
    ensures Slice(mem, at + lo, hi - lo) == d[lo..hi]
  {
    forall i | lo <= i < hi ensures mem[at + i] == d[i] {
      assert mem[at..at + |d|][i] == d[i];
    }
  }

  /** Message of the performance tool. */
  class PerfMessage {
    var MessageType: string
    var SessionID: string
    var MessagePayload: string
    var PayloadLength: nat

    constructor ()
      ensures MessageType == SessionID == MessagePayload == "" && PayloadLength == 0
    {
      MessageType, SessionID, MessagePayload, PayloadLength := "", "", "", 0;
    }

    method SetHeader(kind: string, id: string, length: nat)
      modifies this
      ensures MessageType == kind && SessionID == id && PayloadLength == length
      ensures MessagePayload == old(MessagePayload)
    {
      MessageType, SessionID, PayloadLength := kind, id, length;
    }

    /** generateRandomPayload with the results of rand() as its input. */
    method GenerateRandomPayload(rand: nat -> nat)
      modifies this
      ensures MessagePayload == old(MessagePayload) + RandomAscii(rand, PayloadLength)
      ensures MessageType == old(MessageType) && SessionID == old(SessionID) && PayloadLength == old(PayloadLength)
    {
      var generated: seq<nat> := [];
      while |generated| < PayloadLength
        invariant |generated| <= PayloadLength
        invariant forall i :: 0 <= i < |generated| ==> generated[i] == RandIntRange(rand(i), 32, 64)
        invariant MessagePayload == old(MessagePayload)
        invariant MessageType == old(MessageType) && SessionID == old(SessionID) && PayloadLength == old(PayloadLength)
      {
        generated := generated + [RandIntRange(rand(|generated|), 32, 64)];
      }
      VectorToMessage(generated);
      assert MessagePayload == old(MessagePayload) + RandomAscii(rand, PayloadLength);
    }

    method VectorToMessage(generated: seq<nat>)
      requires forall i :: 0 <= i < |generated| ==> generated[i] < 256
      modifies this`MessagePayload
      ensures MessagePayload == old(MessagePayload) + Chars(generated)
    {
      var i := 0;
      while i < |generated|
        invariant 0 <= i <= |generated|
        invariant MessagePayload == old(MessagePayload) + Chars(generated[..i])
      {
        assert Chars(generated[..i + 1]) == Chars(generated[..i]) + [generated[i] as char];
        MessagePayload := MessagePayload + [generated[i] as char];
        i := i + 1;
      }
      assert generated[..i] == generated;
    }

    method GetMessage() returns (text: string)
      ensures text == Encode(MessageType, SessionID, MessagePayload)
    {
      text := MessageType + SessionID + MessagePayload;
    }
  }

  /** Congruent modulo n. */
  predicate SameRemainder(a: nat, b: nat, n: nat)
    requires n > 0
  {
    a % n == b % n
  }

  /** rand() % From + To: the parameter named From is the number of values, not the largest. */
  function RandIntRange(r: nat, to: nat, from: nat): (n: nat)
    requires from > 0
    ensures to <= n <= to + from - 1 && SameRemainder(n - to, r, from)
  {
    SmallModulus(r % from, from);
    r % from + to
  }

  function Chars(values: seq<nat>): (s: string)
    requires forall i :: 0 <= i < |values| ==> values[i] < 256
    ensures |s| == |values|
  {
    seq(|values|, i requires 0 <= i < |values| => values[i] as char)
  }

  /** generateRandUint8Ascii: a character from space to underscore. */
  function RandAscii(r: nat): (c: char)
    ensures 32 <= c as int <= 95 && SameRemainder(c as int - 32, r, 64)
  {
    RandIntRange(r, 32, 64) as char
  }

  function RandomAscii(rand: nat -> nat, length: nat): (s: string)
    ensures |s| == length && forall i :: 0 <= i < length ==> s[i] == RandAscii(rand(i))
  {
    seq(length, i requires 0 <= i < length => RandAscii(rand(i)))
  }

  /** Of the 64 characters generated, two - the quotation mark and the backslash - spoil the
      JSON reply; a payload without them is one that a reader of the reply recovers. */
  lemma GeneratedCleanIff(rand: nat -> nat, length: nat)
    ensures J.Clean(RandomAscii(rand, length))
            <==> forall i :: 0 <= i < length ==> rand(i) % 64 != 2 && rand(i) % 64 != 60
  {
    var s := RandomAscii(rand, length);
    forall i | 0 <= i < length ensures J.Unescaped(s[i]) <==> rand(i) % 64 != 2 && rand(i) % 64 != 60 {
      assert s[i] as int == rand(i) % 64 + 32;
    }
  }
}
