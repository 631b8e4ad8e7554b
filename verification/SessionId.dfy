/** evaluate/performance/Session.hpp: session IDs from a counter over a byte vector, printed
    as padded hexadecimal digits. */
module SessionId {
  import opened Common

  type Byte = b: int | 0 <= b < 256

  /** ++ on an unsigned byte. */
  function Incremented(b: Byte): Byte { if b == 255 then 0 else b + 1 }

  function Pow256(n: nat): (p: nat)
    ensures p > 0
  {
    if n == 0 then 1 else 256 * Pow256(n - 1)
  }

  /** The big-endian value of a byte vector. */
  function Value(bytes: seq<Byte>): (v: nat)
    ensures v < Pow256(|bytes|)
  {
    if bytes == [] then 0 else 256 * Value(bytes[..|bytes| - 1]) + bytes[|bytes| - 1]
  }

  /** Adding one modulo 256^n. */
  function Successor(v: nat, n: nat): nat { if v + 1 == Pow256(n) then 0 else v + 1 }

  lemma {:induction false} ValueInjective(a: seq<Byte>, b: seq<Byte>)
    requires |a| == |b|
    ensures Value(a) == Value(b) <==> a == b
  {
    if a != [] && Value(a) == Value(b) {
      var n := |a| - 1;
      assert a[n] - b[n] == 256 * (Value(b[..n]) - Value(a[..n]));
      ValueInjective(a[..n], b[..n]);
      assert a == a[..n] + [a[n]] && b == b[..n] + [b[n]];
    }
  }

  class Session {
    var UpcountSessionID: seq<Byte>

    constructor (start: seq<Byte>)
      ensures UpcountSessionID == start
    {
      UpcountSessionID := start;
    }

    /** The recursive increment with carry. Called on an index inside the vector it adds one,
        modulo 256^(index+1), to the bytes up to that index and leaves the rest alone; the
        vector's bounds check fails on any other index (ok == false). */
    method IncrementID(index: nat) returns (ok: bool)
      modifies this
      ensures ok <==> index < |old(UpcountSessionID)|
      ensures !ok ==> UpcountSessionID == old(UpcountSessionID)
      ensures |UpcountSessionID| == |old(UpcountSessionID)|
      ensures ok ==> UpcountSessionID[index + 1..] == old(UpcountSessionID)[index + 1..]
      ensures ok ==> Value(UpcountSessionID[..index + 1])
                     == Successor(Value(old(UpcountSessionID)[..index + 1]), index + 1)
      ensures ok ==> CarryStopsLeft(old(UpcountSessionID), UpcountSessionID, index)
      decreases index
    {
      if index >= |UpcountSessionID| { return false; }
      ghost var before := UpcountSessionID;
      if UpcountSessionID[index] == 255 && index > 0 {
        UpcountSessionID := UpcountSessionID[index := 0];
        ok := IncrementID(index - 1);
        CarryOn(before, UpcountSessionID, index);
      } else {
        UpcountSessionID := UpcountSessionID[index := Incremented(UpcountSessionID[index])];
        NoCarry(before, UpcountSessionID, index);
        ok := true;
      }
    }

    /** generateID: the next ID, or none if the vector is empty. */
    method GenerateID() returns (id: Option<string>)
      modifies this
      ensures |UpcountSessionID| == |old(UpcountSessionID)|
      ensures id == if UpcountSessionID == [] then None else Some(Hex(UpcountSessionID))
      ensures Value(UpcountSessionID) == Successor(Value(old(UpcountSessionID)), |UpcountSessionID|)
    {
      if |UpcountSessionID| == 0 { return None; }
      assert UpcountSessionID[..|UpcountSessionID|] == UpcountSessionID;
      var ok := IncrementID(|UpcountSessionID| - 1);
      assert UpcountSessionID[..|UpcountSessionID|] == UpcountSessionID;
      var text := SessionVector2String(UpcountSessionID);
      id := Some(text);
    }
  }

  /** Going left from index, bytes of 255 turn to 0 until one is counted up (the first byte
      wraps); everything left of that one is unchanged. */
  ghost predicate CarryStopsLeft(a: seq<Byte>, b: seq<Byte>, index: nat)
    requires index < |a| == |b|
  {
    exists stop :: 0 <= stop <= index && CarriedTo(a, b, stop, index)
  }

  ghost predicate CarriedTo(a: seq<Byte>, b: seq<Byte>, stop: nat, index: nat)
    requires stop <= index < |a| == |b|
  {
    && b[..stop] == a[..stop]
    && b[stop] == Incremented(a[stop])
    && forall i :: stop < i <= index ==> a[i] == 255 && b[i] == 0
  }

  lemma PrefixSnoc(bytes: seq<Byte>, index: nat)
    requires index < |bytes|
    ensures Value(bytes[..index + 1]) == 256 * Value(bytes[..index]) + bytes[index]
  {
    assert bytes[..index + 1][..index] == bytes[..index];
  }

  /** Counting up a byte that does not carry. */
  lemma NoCarry(before: seq<Byte>, after: seq<Byte>, index: nat)
    requires index < |before| && (before[index] == 255 ==> index == 0)
    requires after == before[index := Incremented(before[index])]
    ensures after[index + 1..] == before[index + 1..]
    ensures Value(after[..index + 1]) == Successor(Value(before[..index + 1]), index + 1)
    ensures CarryStopsLeft(before, after, index)
  {
    PrefixSnoc(before, index);
    PrefixSnoc(after, index);
    assert after[..index] == before[..index];
    assert CarriedTo(before, after, index, index);
    assert Pow256(index + 1) == 256 * Pow256(index);
  }

  /** A byte of 255 turns to 0, and the increment goes on one byte further left. */
  lemma CarryOn(before: seq<Byte>, after: seq<Byte>, index: nat)
    requires 0 < index < |before| == |after| && before[index] == 255
    requires after[index..] == before[index := 0][index..]
    requires Value(after[..index]) == Successor(Value(before[index := 0][..index]), index)
    requires CarryStopsLeft(before[index := 0], after, index - 1)
    ensures after[index + 1..] == before[index + 1..]
    ensures Value(after[..index + 1]) == Successor(Value(before[..index + 1]), index + 1)
    ensures CarryStopsLeft(before, after, index)
  {
    var mid := before[index := 0];
    SuffixEqual(after, mid, index);
    assert mid[..index] == before[..index];
    PrefixSnoc(before, index);
    PrefixSnoc(after, index);
    assert Pow256(index + 1) == 256 * Pow256(index);
    var stop: nat :| stop <= index - 1 && CarriedTo(mid, after, stop, index - 1);
    assert mid[..stop] == before[..stop];
    assert CarriedTo(before, after, stop, index);
  }

  lemma SuffixEqual(a: seq<Byte>, b: seq<Byte>, index: nat)
    requires index < |a| == |b| && a[index..] == b[index..]
    ensures a[index] == b[index] && a[index + 1..] == b[index + 1..]
  {
    assert a[index..][0] == b[index..][0] && a[index..][1..] == b[index..][1..];
  }

  // ---- the hex printer -------------------------------------------------------------------------

  function HexDigit(d: nat): (c: char)
    requires d < 16
  {
    "0123456789abcdef"[d]
  }

  function HexValue(c: char): (r: Option<nat>)
    ensures r.Some? ==> r.value < 16 && HexDigit(r.value) == c
  {
    if '0' <= c <= '9' then Some(c as int - '0' as int)
    else if 'a' <= c <= 'f' then Some(c as int - 'a' as int + 10)
    else None
  }

  /** What a stream prints for hex << v: no leading zero. */
  function HexStream(v: nat): string {
    if v < 16 then [HexDigit(v)] else HexStream(v / 16) + [HexDigit(v % 16)]
  }

  function HexPair(b: Byte): string { [HexDigit(b / 16), HexDigit(b % 16)] }

  function Hex(bytes: seq<Byte>): (s: string)
    ensures |s| == 2 * |bytes|
  {
    if bytes == [] then "" else Hex(bytes[..|bytes| - 1]) + HexPair(bytes[|bytes| - 1])
  }

  /** Padding the stream output of small values with a zero gives two digits per byte. */
  method SessionVector2String(bytes: seq<Byte>) returns (id: string)
    ensures id == Hex(bytes)
  {
    id := "";
    var i := 0;
    while i < |bytes|
      invariant 0 <= i <= |bytes|
      invariant id == Hex(bytes[..i])
    {
      assert bytes[..i + 1][..i] == bytes[..i];
      var value := bytes[i];
      var output := HexStream(value);
      PaddedStream(value);
      ghost var before := id;
      if 0 <= value <= 15 { id := id + "0"; }
      id := id + output;
      assert id == before + HexPair(value);
      i := i + 1;
    }
    assert bytes[..i] == bytes;
  }

  lemma PaddedStream(b: Byte)
    ensures HexPair(b) == (if b <= 15 then "0" else "") + HexStream(b)
  {
    if b > 15 { assert b / 16 < 16; }
  }

  function UnhexPair(hi: char, lo: char): Option<Byte> {
    if HexValue(hi).Some? && HexValue(lo).Some? then Some(16 * HexValue(hi).value + HexValue(lo).value) else None
  }

  /** The bytes that a string of hex digits stands for. */
  function Unhex(s: string): (r: Option<seq<Byte>>)
    decreases |s|
  {
    if s == "" then Some([])
    else if |s| == 1 then None
    else
      var prefix, last := Unhex(s[..|s| - 2]), UnhexPair(s[|s| - 2], s[|s| - 1]);
      if prefix.Some? && last.Some? then Some(prefix.value + [last.value]) else None
  }

  lemma DigitValue(d: nat)
    requires d < 16
    ensures HexValue(HexDigit(d)) == Some(d)
  {
  }

  lemma PairUnhex(b: Byte)
    ensures UnhexPair(HexPair(b)[0], HexPair(b)[1]) == Some(b)
  {
    DigitValue(b / 16);
    DigitValue(b % 16);
  }

  lemma UnhexPairHex(hi: char, lo: char)
    requires UnhexPair(hi, lo).Some?
    ensures HexPair(UnhexPair(hi, lo).value) == [hi, lo]
  {
    var h, l := HexValue(hi).value, HexValue(lo).value;
    assert (16 * h + l) / 16 == h && (16 * h + l) % 16 == l;
  }

  lemma UnhexSnoc(s: string, bytes: seq<Byte>, b: Byte)
    requires Unhex(s) == Some(bytes)
    ensures Unhex(s + HexPair(b)) == Some(bytes + [b])
  {
    var t := s + HexPair(b);
    assert t[..|t| - 2] == s;
    PairUnhex(b);
  }

  /** Round trip in both directions: every vector is recovered from its ID, and every string
      that decodes is the ID of what it decodes to. */
  lemma {:induction false} HexUnhex(bytes: seq<Byte>)
    ensures Unhex(Hex(bytes)) == Some(bytes)
  {
    if bytes != [] {
      var n := |bytes| - 1;
      HexUnhex(bytes[..n]);
      UnhexSnoc(Hex(bytes[..n]), bytes[..n], bytes[n]);
      assert bytes == bytes[..n] + [bytes[n]];
    }
  }

  /** An ID consists of the characters 0-9 and a-f only. */
  lemma {:induction false} HexCharacters(bytes: seq<Byte>)
    ensures forall c :: c in Hex(bytes) ==> '0' <= c <= '9' || 'a' <= c <= 'f'
  {
    if bytes != [] {
      HexCharacters(bytes[..|bytes| - 1]);
      PairUnhex(bytes[|bytes| - 1]);
    }
  }

  lemma {:induction false} UnhexHex(s: string)
    requires Unhex(s).Some?
    ensures Hex(Unhex(s).value) == s
    decreases |s|
  {
    if s != "" {
      var k := |s| - 2;
      UnhexParts(s);
      UnhexHex(s[..k]);
      UnhexPairHex(s[k], s[k + 1]);
      OnePairMore(s[..k], Unhex(s[..k]).value, UnhexPair(s[k], s[k + 1]).value);
    }
  }

  lemma {:induction false} UnhexParts(s: string)
    requires s != "" && Unhex(s).Some?
    ensures |s| >= 2 && s == s[..|s| - 2] + [s[|s| - 2], s[|s| - 1]]
    ensures Unhex(s[..|s| - 2]).Some? && UnhexPair(s[|s| - 2], s[|s| - 1]).Some?
  {
  }

  lemma OnePairMore(s: string, bytes: seq<Byte>, b: Byte)
    requires Unhex(s) == Some(bytes) && Hex(bytes) == s
    ensures Unhex(s + HexPair(b)) == Some(bytes + [b]) && Hex(bytes + [b]) == s + HexPair(b)
  {
    UnhexSnoc(s, bytes, b);
    HexSnoc(bytes, b);
  }

  lemma HexSnoc(bytes: seq<Byte>, b: Byte)
    ensures Hex(bytes + [b]) == Hex(bytes) + HexPair(b)
  {
    assert (bytes + [b])[..|bytes|] == bytes;
  }

  /** Lexicographic order: the first difference decides. */
  ghost predicate LexLess(a: string, b: string) {
    exists k :: DecidesAt(a, b, k)
  }

  ghost predicate DecidesAt(a: string, b: string, k: int) {
    0 <= k < |a| && k < |b| && a[..k] == b[..k] && a[k] < b[k]
  }

  /** Lexicographic order of IDs of the same length is the order of their values. */
  lemma HexOrder(a: seq<Byte>, b: seq<Byte>)
    requires |a| == |b|
    ensures LexLess(Hex(a), Hex(b)) <==> Value(a) < Value(b)
  {
    if Value(a) < Value(b) {
      HexLess(a, b);
    } else if Value(b) < Value(a) {
      HexLess(b, a);
      LexAsymmetric(Hex(b), Hex(a));
    } else {
      ValueInjective(a, b);
    }
  }

  lemma {:induction false} HexLess(a: seq<Byte>, b: seq<Byte>)
    requires |a| == |b| && Value(a) < Value(b)
    ensures LexLess(Hex(a), Hex(b))
  {
    var n := |a| - 1;
    if Value(a[..n]) < Value(b[..n]) {
      HexLess(a[..n], b[..n]);
      LexExtend(Hex(a[..n]), Hex(b[..n]), HexPair(a[n]), HexPair(b[n]));
    } else {
      ValueInjective(a[..n], b[..n]);
      PairLess(a[n], b[n]);
      LexBehind(Hex(a[..n]), HexPair(a[n]), HexPair(b[n]));
    }
  }

  lemma LexExtend(a: string, b: string, x: string, y: string)
    requires LexLess(a, b)
    ensures LexLess(a + x, b + y)
  {
    var k :| DecidesAt(a, b, k);
    assert (a + x)[..k] == a[..k] && (b + y)[..k] == b[..k];
    assert DecidesAt(a + x, b + y, k);
  }

  lemma LexBehind(a: string, x: string, y: string)
    requires LexLess(x, y)
    ensures LexLess(a + x, a + y)
  {
    var k :| DecidesAt(x, y, k);
    assert (a + x)[..|a| + k] == a + x[..k] && (a + y)[..|a| + k] == a + y[..k];
    assert DecidesAt(a + x, a + y, |a| + k);
  }

  lemma PairLess(x: Byte, y: Byte)
    requires x < y
    ensures LexLess(HexPair(x), HexPair(y))
  {
    PairOrder(x, y);
    var k := if x / 16 < y / 16 then 0 else 1;
    assert HexPair(x)[..k] == HexPair(y)[..k];
    assert DecidesAt(HexPair(x), HexPair(y), k);
  }

  lemma PairOrder(x: Byte, y: Byte)
    requires x < y
    ensures x / 16 < y / 16 || (x / 16 == y / 16 && x % 16 < y % 16)
    ensures forall d, e :: 0 <= d < e < 16 ==> HexDigit(d) < HexDigit(e)
  {
  }

  lemma LexAsymmetric(a: string, b: string)
    requires LexLess(a, b)
    ensures !LexLess(b, a)
  {
    var k :| DecidesAt(a, b, k);
    forall j ensures !DecidesAt(b, a, j) {}
  }

  // ---- sequences of generated IDs ----------------------------------------------------------------

  /** The n-byte vector with a given value. */
  function BytesOf(v: nat, n: nat): (bytes: seq<Byte>)
    requires v < Pow256(n)
    ensures |bytes| == n && Value(bytes) == v
  {
    if n == 0 then [] else
    var prefix := BytesOf(v / 256, n - 1);
    var bytes := prefix + [v % 256];
    assert bytes[..n - 1] == prefix;
    bytes
  }

  lemma MulAtLeast(d: int, p: nat)
    ensures d >= 1 ==> d * p >= p
    ensures d <= -1 ==> d * p <= -(p as int)
  {
  }

  lemma RemainderUnique(x: nat, p: nat, q: nat, r: nat)
    requires p > 0 && r < p && x == q * p + r
    ensures x % p == r
  {
    assert x == (x / p) * p + x % p;
    MulAtLeast(x / p - q, p);
    assert (x / p - q) * p == r - x % p;
  }

  lemma SuccessorModulo(x: nat, p: nat)
    requires p > 0
    ensures (if x % p + 1 == p then 0 else x % p + 1) == (x + 1) % p
  {
    var q, r := x / p, x % p;
    assert x == q * p + r;
    if r + 1 == p {
      assert x + 1 == (q + 1) * p;
      RemainderUnique(x + 1, p, q + 1, 0);
    } else {
      RemainderUnique(x + 1, p, q, r + 1);
    }
  }

  lemma RemaindersDiffer(x: nat, y: nat, p: nat)
    requires x < y < x + p
    ensures x % p != y % p
  {
    assert x == (x / p) * p + x % p && y == (y / p) * p + y % p;
    MulAtLeast(y / p - x / p, p);
    assert (y / p - x / p) * p == (y - y % p) - (x - x % p);
  }

  /** The value of the counter after k calls of generateID, counting one up at a time. */
  function NthValue(start: seq<Byte>, k: nat): (v: nat)
    ensures v < Pow256(|start|)
  {
    if k == 0 then Value(start) else Successor(NthValue(start, k - 1), |start|)
  }

  /** It is addition modulo 256^n. */
  lemma {:induction false} NthValueModular(start: seq<Byte>, k: nat)
    ensures NthValue(start, k) == (Value(start) + k) % Pow256(|start|)
  {
    if k == 0 {
      RemainderUnique(Value(start), Pow256(|start|), 0, Value(start));
    } else {
      NthValueModular(start, k - 1);
      SuccessorModulo(Value(start) + (k - 1), Pow256(|start|));
    }
  }

  /** The ID that the k-th call of generateID after a start vector returns. */
  function NthId(start: seq<Byte>, k: nat): string {
    Hex(BytesOf(NthValue(start, k), |start|))
  }

  /** Going on from the vector that a calls have left gives the IDs from number a on. */
  lemma NthIdGoesOn(start: seq<Byte>, a: nat, now: seq<Byte>, k: nat)
    requires |now| == |start| && Value(now) == NthValue(start, a)
    ensures NthId(now, k) == NthId(start, a + k)
  {
    NthValueGoesOn(start, a, now, k);
  }

  lemma {:induction false} NthValueGoesOn(start: seq<Byte>, a: nat, now: seq<Byte>, k: nat)
    requires |now| == |start| && Value(now) == NthValue(start, a)
    ensures NthValue(now, k) == NthValue(start, a + k)
  {
    if k > 0 { NthValueGoesOn(start, a, now, k - 1); }
  }

  lemma ValuesDiffer(start: seq<Byte>, i: nat, j: nat)
    requires i < j < i + Pow256(|start|)
    ensures NthValue(start, i) != NthValue(start, j)
  {
    NthValueModular(start, i);
    NthValueModular(start, j);
    RemaindersDiffer(Value(start) + i, Value(start) + j, Pow256(|start|));
  }

  /** Any two of 256^n consecutive IDs differ. */
  lemma IdsDistinct(start: seq<Byte>, i: nat, j: nat)
    requires i < j < i + Pow256(|start|)
    ensures NthId(start, i) != NthId(start, j)
  {
    ValuesDiffer(start, i, j);
    HexDiffers(NthValue(start, i), NthValue(start, j), |start|);
  }

  lemma HexDiffers(v: nat, w: nat, n: nat)
    requires v < Pow256(n) && w < Pow256(n) && v != w
    ensures Hex(BytesOf(v, n)) != Hex(BytesOf(w, n))
  {
    HexUnhex(BytesOf(v, n));
    HexUnhex(BytesOf(w, n));
  }

  lemma {:induction false} ValueBeforeWrap(start: seq<Byte>, k: nat)
    requires Value(start) + k < Pow256(|start|)
    ensures NthValue(start, k) == Value(start) + k
  {
    if k > 0 { ValueBeforeWrap(start, k - 1); }
  }

  /** Until the counter wraps, IDs strictly increase lexicographically. */
  lemma IdsIncrease(start: seq<Byte>, i: nat, j: nat)
    requires i < j && Value(start) + j < Pow256(|start|)
    ensures LexLess(NthId(start, i), NthId(start, j))
  {
    ValueBeforeWrap(start, i);
    ValueBeforeWrap(start, j);
    HexOrder(BytesOf(NthValue(start, i), |start|), BytesOf(NthValue(start, j), |start|));
  }
}
