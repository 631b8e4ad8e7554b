/** Vector.hpp: std::vector extended by an erase that takes a list of indices. */
module VectorErase {
  import opened Common

  function RemoveAt<T>(s: seq<T>, i: nat): (r: seq<T>)
    requires i < |s|
  {
    s[..i] + s[i + 1..]
  }

  /** One std::vector::erase after the other, each at the given index of the vector as it
      is by then. None: an index lay outside the vector, which C++ leaves undefined. */
  function EraseEach<T>(s: seq<T>, indices: seq<nat>): (r: Option<seq<T>>)
    decreases |indices|
  {
    if indices == [] then Some(s)
    else if indices[0] >= |s| then None
    else EraseEach(RemoveAt(s, indices[0]), indices[1..])
  }

  /** The elements of s whose position is not in drop, in order. */
  function Without<T>(s: seq<T>, drop: set<nat>): (r: seq<T>)
  {
    if s == [] then []
    else
      var last := |s| - 1;
      Without(s[..last], drop) + (if last in drop then [] else [s[last]])
  }

  function Positions(indices: seq<nat>): (r: set<nat>) {
    set p | p in indices
  }

  /** The original positions that the uncorrected loop hits: the k-th index moved right by k. */
  function Raised(indices: seq<nat>): (r: seq<nat>)
    ensures |r| == |indices|
  {
    seq(|indices|, k requires 0 <= k < |indices| => indices[k] + k)
  }

  /** The indices a shift-correct loop hands to erase: the k-th one moved left by k. */
  function Corrected(indices: seq<nat>): (r: seq<nat>)
    ensures |r| == |indices|
  {
    seq(|indices|, k requires 0 <= k < |indices| => if indices[k] >= k then indices[k] - k else 0)
  }

  lemma {:induction false} IndexAtLeast(indices: seq<nat>, k: nat)
    requires Ascending(indices) && k < |indices|
    ensures indices[k] >= k
  {
    if k > 0 { IndexAtLeast(indices, k - 1); }
  }

  class Vector<T> {
    var elems: seq<T>

    constructor ()
      ensures elems == []
    {
      elems := [];
    }

    /** The loop as written: the erase index is not corrected for the elements already gone. */
    method EraseElements(indices: seq<nat>) returns (fault: bool)
      modifies this
      ensures fault <==> EraseEach(old(elems), indices).None?
      ensures !fault ==> EraseEach(old(elems), indices) == Some(elems)
    {
      var i := 0;
      while i < |indices|
        invariant 0 <= i <= |indices|
        invariant EraseEach(elems, indices[i..]) == EraseEach(old(elems), indices)
      {
        assert indices[i..][1..] == indices[i + 1..];
        if indices[i] >= |elems| { return true; }
        elems := RemoveAt(elems, indices[i]);
        i := i + 1;
      }
      fault := false;
    }

    /** The repaired loop: the k-th index is moved left by the k elements already erased. */
    method EraseElementsCorrected(indices: seq<nat>)
      requires Ascending(indices) && forall k :: 0 <= k < |indices| ==> indices[k] < |elems|
      modifies this
      ensures elems == Without(old(elems), Positions(indices))
    {
      CorrectedErase(elems, indices);
      CorrectedShape(indices);
      ghost var shifted := Corrected(indices);
      var i := 0;
      while i < |indices|
        invariant 0 <= i <= |indices|
        invariant EraseEach(elems, shifted[i..]) == Some(Without(old(elems), Positions(indices)))
      {
        assert shifted[i..][0] == indices[i] - i;
        assert shifted[i..][1..] == shifted[i + 1..];
        elems := RemoveAt(elems, indices[i] - i);
        i := i + 1;
      }
    }
  }

  lemma {:induction false} WithoutNothing<T>(s: seq<T>, drop: set<nat>)
    requires forall d :: d in drop ==> d >= |s|
    ensures Without(s, drop) == s
  {
    if s != [] { WithoutNothing(s[..|s| - 1], drop); }
  }

  lemma {:induction false} WithoutMember<T>(s: seq<T>, drop: set<nat>, x: T)
    ensures x in Without(s, drop) <==> exists p: nat :: p < |s| && p !in drop && s[p] == x
  {
    if s != [] {
      var last := |s| - 1;
      WithoutMember(s[..last], drop, x);
      forall p: nat | p < last ensures s[..last][p] == s[p] {}
    }
  }

  /** Erasing one element first only shifts the later positions. */
  lemma {:induction false} WithoutAfterRemove<T>(s: seq<T>, i: nat, later: set<nat>, drop: set<nat>)
    requires i < |s|
    requires forall d :: d in later ==> d >= i
    requires forall d: nat :: d in drop <==> d == i || (d > i && d - 1 in later)
    ensures Without(RemoveAt(s, i), later) == Without(s, drop)
  {
    var last := |s| - 1;
    if i == last {
      WithoutNothing(s[..last], later);
      WithoutNothing(s[..last], drop);
      assert RemoveAt(s, i) == s[..last];
    } else {
      WithoutAfterRemove(s[..last], i, later, drop);
      var r := RemoveAt(s, i);
      assert r[..|r| - 1] == RemoveAt(s[..last], i);
      assert r[|r| - 1] == s[last];
    }
  }

  lemma RaisedTail(indices: seq<nat>)
    requires indices != []
    requires forall i, j :: 0 <= i < j < |indices| ==> indices[i] <= indices[j]
    ensures forall d :: d in Raised(indices[1..]) ==> d >= indices[0]
    ensures forall d: nat :: d in Raised(indices) <==>
      d == indices[0] || (d > indices[0] && d - 1 in Raised(indices[1..]))
  {
    var all, rest := Raised(indices), Raised(indices[1..]);
    forall k | 0 <= k < |rest| ensures all[k + 1] == rest[k] + 1 && rest[k] >= indices[0] {}
    forall d: nat | d in all && d != indices[0] ensures d > indices[0] && d - 1 in rest {
      var k :| 0 <= k < |all| && all[k] == d;
      assert rest[k - 1] == d - 1;
    }
    forall d: nat | d > indices[0] && d - 1 in rest ensures d in all {
      var k :| 0 <= k < |rest| && rest[k] == d - 1;
      assert all[k + 1] == d;
    }
    assert all[0] == indices[0];
  }

  /** What any non-descending list of indices erases, one at a time: exactly the original
      positions indices[k] + k (Raised), everything else staying in order; and it runs off the vector
      if and only if the last of those positions does. */
  lemma {:induction false} EraseEachRemovesShifted<T>(s: seq<T>, indices: seq<nat>)
    requires forall i, j :: 0 <= i < j < |indices| ==> indices[i] <= indices[j]
    ensures EraseEach(s, indices).None? <==> indices != [] && indices[|indices| - 1] + |indices| - 1 >= |s|
    ensures EraseEach(s, indices).Some? ==> EraseEach(s, indices).value == Without(s, Positions(Raised(indices)))
    decreases |indices|
  {
    if indices == [] {
      WithoutNothing(s, Positions(Raised(indices)));
    } else if indices[0] < |s| {
      var i, rest := indices[0], indices[1..];
      EraseEachRemovesShifted(RemoveAt(s, i), rest);
      RaisedTail(indices);
      WithoutAfterRemove(s, i, Positions(Raised(rest)), Positions(Raised(indices)));
    }
  }

  lemma EraseFaultIff<T>(s: seq<T>, indices: seq<nat>)
    requires Ascending(indices)
    ensures EraseEach(s, indices).None? <==> indices != [] && indices[|indices| - 1] + |indices| > |s|
  {
    assert forall i, j :: 0 <= i < j < |indices| ==> indices[i] <= indices[j];
    EraseEachRemovesShifted(s, indices);
  }

  /** The loop that erases at indices[k] - k removes exactly the listed positions. */
  lemma CorrectedErase<T>(s: seq<T>, indices: seq<nat>)
    requires Ascending(indices) && forall k :: 0 <= k < |indices| ==> indices[k] < |s|
    ensures EraseEach(s, Corrected(indices)) == Some(Without(s, Positions(indices)))
  {
    CorrectedShape(indices);
    EraseEachRemovesShifted(s, Corrected(indices));
  }

  lemma CorrectedShape(indices: seq<nat>)
    requires Ascending(indices)
    ensures Raised(Corrected(indices)) == indices
    ensures forall i, j :: 0 <= i < j < |indices| ==> Corrected(indices)[i] <= Corrected(indices)[j]
    ensures forall k :: 0 <= k < |indices| ==> Corrected(indices)[k] == indices[k] - k
  {
    forall k | 0 <= k < |indices| ensures Corrected(indices)[k] == indices[k] - k { IndexAtLeast(indices, k); }
    forall i, j | 0 <= i < j < |indices| ensures Corrected(indices)[i] <= Corrected(indices)[j]
      { AscendingGap(indices, i, j); }
  }

  lemma {:induction false} AscendingGap(indices: seq<nat>, i: nat, j: nat)
    requires Ascending(indices) && i <= j < |indices|
    ensures indices[j] - indices[i] >= j - i
    decreases j
  {
    if i < j { AscendingGap(indices, i, j - 1); }
  }

  /** The positions that the loop as written hits are the listed ones only if it has no second
      index: that one is passed over. */
  lemma RaisedIsListedIff(indices: seq<nat>)
    requires Ascending(indices)
    ensures Positions(Raised(indices)) == Positions(indices) <==> |indices| <= 1
    ensures |indices| > 1 ==> indices[1] in Positions(indices) && indices[1] !in Positions(Raised(indices))
  {
    if |indices| <= 1 {
      assert Raised(indices) == indices;
    } else {
      var raised := Raised(indices);
      forall k | 0 <= k < |raised| ensures raised[k] != indices[1] {
        assert k == 0 || indices[k] >= indices[1];
      }
      assert indices[1] in Positions(indices) && indices[1] !in Positions(raised);
    }
  }

  /** The comment in Vector.hpp promises the removal of the listed elements. The loop as written
      removes the entries at exactly the listed positions if and only if at most one is listed;
      and where all elements differ, nothing else leaves the promised vector either. */
  lemma EraseEachKeepsPromiseIff<T>(s: seq<T>, indices: seq<nat>)
    requires Ascending(indices) && forall k :: 0 <= k < |indices| ==> indices[k] < |s|
    ensures Positions(Raised(indices)) == Positions(indices) <==> |indices| <= 1
    ensures |indices| <= 1 || Distinct(s) ==>
              (EraseEach(s, indices) == Some(Without(s, Positions(indices))) <==> |indices| <= 1)
  {
    RaisedIsListedIff(indices);
    EraseEachRemovesShifted(s, indices);
    if |indices| > 1 && Distinct(s) {
      DifferentDrop(s, Positions(indices), Positions(Raised(indices)), indices[1]);
    }
  }

  lemma DifferentDrop<T>(s: seq<T>, a: set<nat>, b: set<nat>, p: nat)
    requires Distinct(s) && p < |s| && p in a && p !in b
    ensures Without(s, a) != Without(s, b)
  {
    WithoutMember(s, a, s[p]);
    WithoutMember(s, b, s[p]);
  }
}
