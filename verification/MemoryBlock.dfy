/** MemoryManager.hpp: one allocated block handed out in segments. A pointer is modelled by
    its offset from the base address; the element type is the one-byte char used everywhere. */
module MemoryBlock {
  import opened Common

  /** SegmentOffset after one call: it grows to the segment count and is never reset. */
  function NextOffset(count: nat, offset: nat): nat {
    if offset >= count then offset else offset + 1
  }

  /** The address computation, with the 32-bit product of the two unsigned operands. */
  function AddressOf(count: nat, size: nat, offset: nat): nat {
    if offset < count then (offset * size) % TWO_TO_THE_32 else 0
  }

  /** SegmentOffset after a number of calls. */
  function OffsetAfter(count: nat, calls: nat): nat {
    if calls == 0 then 0 else NextOffset(count, OffsetAfter(count, calls - 1))
  }

  /** The pointer returned by call number k, counting from 1. */
  function Pointer(count: nat, size: nat, k: nat): nat {
    AddressOf(count, size, OffsetAfter(count, k))
  }

  function Overwrite(mem: string, at: nat, data: string): (r: string)
    requires at + |data| <= |mem|
    ensures |r| == |mem|
  {
    mem[..at] + data + mem[at + |data|..]
  }

  ghost predicate Holds(mem: string, at: nat, data: string) {
    at + |data| <= |mem| && mem[at..at + |data|] == data
  }

  ghost predicate Apart(a: nat, la: nat, b: nat, lb: nat) {
    a + la <= b || b + lb <= a
  }

  class MemoryManager {
    const SegmentCount: nat
    const SegmentSize: nat
    const Block: array<char>
    var SegmentOffset: nat
    ghost var Calls: nat

    ghost predicate Valid()
      reads this
    {
      && SegmentCount < TWO_TO_THE_32 && SegmentSize < TWO_TO_THE_32
      && Block.Length == SegmentCount * SegmentSize
      && SegmentOffset == OffsetAfter(SegmentCount, Calls)
    }

    constructor (count: nat, size: nat)
      requires count < TWO_TO_THE_32 && size < TWO_TO_THE_32
      ensures Valid() && fresh(Block) && Calls == 0
      ensures SegmentCount == count && SegmentSize == size
    {
      SegmentCount, SegmentSize := count, size;
      SegmentOffset, Calls := 0, 0;
      Block := new char[count * size];
    }

    method GetNextMemPointer() returns (p: nat)
      requires Valid()
      modifies this
      ensures Valid() && Calls == old(Calls) + 1
      ensures p == Pointer(SegmentCount, SegmentSize, Calls)
    {
      SegmentOffset := if SegmentOffset >= SegmentCount then SegmentOffset else SegmentOffset + 1;
      Calls := Calls + 1;
      p := GetMemPointer(SegmentOffset);
    }

    method GetMemPointer(offset: nat) returns (p: nat)
      ensures p == AddressOf(SegmentCount, SegmentSize, offset)
    {
      p := 0;
      if offset < SegmentCount {
        p := (offset * SegmentSize) % TWO_TO_THE_32;
      }
    }

    /** read() and memcpy() into a buffer of the block. */
    method CopyInto(at: nat, data: string)
      requires at + |data| <= Block.Length
      modifies Block
      ensures Block[..] == Overwrite(old(Block[..]), at, data)
    {
      forall i | 0 <= i < |data| { Block[at + i] := data[i]; }
    }
  }

  /** The segment that call k hands out. */
  function Segment(count: nat, k: nat): nat { if k < count then k else 0 }

  /** Closed form of the as-written allocator: call k hands out segment k as long as k is
      below the segment count, and segment 0 in every later call. */
  lemma {:induction false} PointerClosedForm(count: nat, size: nat, k: nat)
    ensures OffsetAfter(count, k) == Min(k, count)
    ensures Pointer(count, size, k) == Segment(count, k) * size % TWO_TO_THE_32
  {
    if k > 0 { PointerClosedForm(count, size, k - 1); }
    if k >= count { assert Segment(count, k) * size == 0; }
  }

  /** A cyclic allocator (segment k mod count) is what the first count calls look like; the
      first call that tells the two apart is number count + 1. */
  lemma CyclicUpToCount(count: nat, k: nat)
    requires count >= 2 && 1 <= k <= count + 1
    ensures Segment(count, k) == k % count <==> k <= count
  {
    if k < count { SmallModulus(k, count); }
    else { assert k == 1 * count + (k - count); SmallModulus(k - count, count); }
  }

  lemma SmallModulus(k: nat, n: nat)
    requires k < n
    ensures k % n == k
  {
  }

  /** The first count calls hand out pairwise disjoint segments of the block. */
  ghost predicate DisjointSegments(count: nat, size: nat) {
    forall j, k :: 1 <= j < k <= count ==> Apart(Pointer(count, size, j), size, Pointer(count, size, k), size)
  }

  /** ... which is so exactly when no segment address overflows 32 bits. */
  lemma DisjointIffNoOverflow(count: nat, size: nat)
    requires count >= 1 && 0 < size < TWO_TO_THE_32
    ensures DisjointSegments(count, size) <==> (count - 1) * size < TWO_TO_THE_32
  {
    if (count - 1) * size < TWO_TO_THE_32 {
      forall j, k | 1 <= j < k <= count
        ensures Apart(Pointer(count, size, j), size, Pointer(count, size, k), size)
      {
        SegmentsApart(count, size, j, k);
      }
    } else {
      var k := FirstOverflow(size, count - 1);
      PointerClosedForm(count, size, k);
      PointerClosedForm(count, size, count);
      assert k * size % TWO_TO_THE_32 == k * size - TWO_TO_THE_32;
      assert !Apart(Pointer(count, size, k), size, Pointer(count, size, count), size);
    }
  }

  lemma {:induction false} FirstOverflow(size: nat, n: nat) returns (k: nat)
    requires 0 < size < TWO_TO_THE_32 && n * size >= TWO_TO_THE_32
    ensures 1 <= k <= n && TWO_TO_THE_32 <= k * size < TWO_TO_THE_32 + size
  {
    k := n;
    if (n - 1) * size >= TWO_TO_THE_32 {
      k := FirstOverflow(size, n - 1);
    } else {
      assert n * size == (n - 1) * size + size;
    }
  }

  lemma ProductMonotone(a: nat, b: nat, size: nat)
    requires a <= b
    ensures a * size <= b * size
  {
  }

  /** Segments of two different calls below the count never meet, and lie inside the block. */
  lemma SegmentsApart(count: nat, size: nat, j: nat, k: nat)
    requires 1 <= j && j < count && j < k && (count - 1) * size < TWO_TO_THE_32
    ensures Apart(Pointer(count, size, j), size, Pointer(count, size, k), size)
    ensures Pointer(count, size, k) + size <= count * size
  {
    PointerClosedForm(count, size, j);
    PointerClosedForm(count, size, k);
    PointerNoOverflow(count, size, j);
    ProductMonotone(1, j, size);
    if k < count {
      PointerNoOverflow(count, size, k);
      ProductMonotone(j + 1, k, size);
      ProductMonotone(k + 1, count, size);
      assert (j + 1) * size == j * size + size;
      assert (k + 1) * size == k * size + size;
    } else {
      ProductMonotone(1, count, size);
    }
  }

  lemma PointerNoOverflow(count: nat, size: nat, k: nat)
    requires k < count && (count - 1) * size < TWO_TO_THE_32
    ensures Pointer(count, size, k) == k * size
  {
    PointerClosedForm(count, size, k);
    ProductMonotone(k, count - 1, size);
    SmallModulus(k * size, TWO_TO_THE_32);
  }

  /** Every pointer ever handed out is the start of a whole segment inside the block. */
  lemma PointerInBlock(count: nat, size: nat, k: nat)
    requires count >= 1 && (count - 1) * size < TWO_TO_THE_32
    ensures Pointer(count, size, k) + size <= count * size
  {
    PointerClosedForm(count, size, k);
    ProductMonotone(1, count, size);
    if k < count {
      PointerNoOverflow(count, size, k);
      ProductMonotone(k + 1, count, size);
      assert (k + 1) * size == k * size + size;
    }
  }

  /** A write is read back, and leaves every buffer it does not meet as it was. */
  lemma OverwriteHolds(mem: string, at: nat, data: string)
    requires at + |data| <= |mem|
    ensures Holds(Overwrite(mem, at, data), at, data)
  {
  }

  lemma OverwriteApart(mem: string, at: nat, data: string, b: nat, kept: string)
    requires at + |data| <= |mem| && Holds(mem, b, kept) && Apart(at, |data|, b, |kept|)
    ensures Holds(Overwrite(mem, at, data), b, kept)
  {
    var after := Overwrite(mem, at, data);
    forall i | b <= i < b + |kept| ensures after[i] == mem[i] {}
    assert after[b..b + |kept|] == mem[b..b + |kept|];
  }
}
