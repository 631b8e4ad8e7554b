/** One pass of MessageHandler::processMessages over the waiting messages, and sequences of
    passes: what a pass leaves behind, progress, and starvation. */
module Passes {
  import opened Common
  import opened Dispatch
  import opened VectorErase

  datatype WindowResult = WindowResult(store: Store, done: seq<bool>)

  /** The dispatch loop over the first entries, with the write results ok(0), ok(1), ... */
  function Window(store: Store, vs: seq<View>, ok: nat -> bool): (r: WindowResult)
    ensures |r.done| == |vs|
  {
    if vs == [] then WindowResult(store, [])
    else
      var n := |vs| - 1;
      var before := Window(store, vs[..n], ok);
      var o := Dispatch.Dispatch(before.store, vs[n], ok(n));
      WindowResult(o.store, before.done + [o.done])
  }

  /** DeleteMessages: the indices whose dispatch returned true. */
  function DoneIndices(done: seq<bool>): (r: seq<nat>)
    ensures forall k :: 0 <= k < |r| ==> r[k] < |done| && done[r[k]]
    ensures forall i :: 0 <= i < |done| && done[i] ==> i in r
    ensures Ascending(r)
  {
    if done == [] then []
    else
      var n := |done| - 1;
      DoneIndices(done[..n]) + (if done[n] then [n] else [])
  }

  /** The entries whose dispatch returned false, in order. */
  function Kept<T>(q: seq<T>, done: seq<bool>): (r: seq<T>)
    requires |q| == |done|
    ensures |r| <= |q|
  {
    if q == [] then []
    else
      var n := |q| - 1;
      Kept(q[..n], done[..n]) + (if done[n] then [] else [q[n]])
  }

  function WindowSize(n: nat): nat { if n > PROCESS_PER_LOOP_COUNT then PROCESS_PER_LOOP_COUNT else n }

  /** What a pass is meant to leave: the unanswered entries of the window, then the rest. */
  function Left<T>(q: seq<T>, done: seq<bool>): (r: seq<T>)
    requires |done| <= |q|
  {
    Kept(q[..|done|], done) + q[|done|..]
  }

  // ---- the erase at the end of a pass --------------------------------------------------------

  lemma {:induction false} WithoutIsKept<T>(q: seq<T>, done: seq<bool>, drop: set<nat>)
    requires |q| == |done|
    requires forall i: nat :: i < |done| ==> (i in drop <==> done[i])
    ensures Without(q, drop) == Kept(q, done)
  {
    if q != [] {
      var n := |q| - 1;
      WithoutIsKept(q[..n], done[..n], drop);
    }
  }

  lemma {:induction false} WithoutSuffix<T>(a: seq<T>, b: seq<T>, drop: set<nat>)
    requires forall d :: d in drop ==> d < |a|
    ensures Without(a + b, drop) == Without(a, drop) + b
    decreases |b|
  {
    if b == [] {
      assert a + b == a;
    } else {
      var n := |b| - 1;
      WithoutSuffix(a, b[..n], drop);
      assert (a + b)[..|a + b| - 1] == a + b[..n];
    }
  }

  /** With the shift-correct erase a pass leaves exactly the entries whose dispatch returned
      false, in order, followed by the untouched rest. */
  lemma CorrectedPassLeaves<T>(q: seq<T>, done: seq<bool>)
    requires |done| <= |q|
    ensures Without(q, Positions(DoneIndices(done))) == Left(q, done)
  {
    var w := |done|;
    assert q == q[..w] + q[w..];
    var drop := Positions(DoneIndices(done));
    WithoutSuffix(q[..w], q[w..], drop);
    WithoutIsKept(q[..w], done, drop);
  }

  /** With the erase as written it does so if at most one entry of the window completed, and
      only then if the entries differ. */
  lemma {:induction false} AsWrittenPassLeavesIff<T>(q: seq<T>, done: seq<bool>)
    requires |done| <= |q|
    ensures |DoneIndices(done)| <= 1 || Distinct(q) ==>
              (EraseEach(q, DoneIndices(done)) == Some(Left(q, done)) <==> |DoneIndices(done)| <= 1)
  {
    EraseEachKeepsPromiseIff(q, DoneIndices(done));
    CorrectedPassLeaves(q, done);
  }

  /** The guard that the erase as written lacks: with n entries done, the last of them at index
      i, it runs off the vector if and only if i + n exceeds the number of waiting messages. */
  predicate RunsOff(waiting: nat, done: seq<bool>) {
    var deletes := DoneIndices(done);
    deletes != [] && deletes[|deletes| - 1] + |deletes| > waiting
  }

  lemma {:induction false} AsWrittenFaultIff<T>(q: seq<T>, done: seq<bool>)
    requires |done| <= |q|
    ensures EraseEach(q, DoneIndices(done)).None? <==> RunsOff(|q|, done)
  {
    EraseFaultIff(q, DoneIndices(done));
  }

  /** In particular when every one of two or more waiting messages completes. */
  lemma AsWrittenFaultsWhenAllDone<T>(q: seq<T>, done: seq<bool>)
    requires |q| == |done| >= 2 && forall i :: 0 <= i < |done| ==> done[i]
    ensures EraseEach(q, DoneIndices(done)).None?
  {
    AllDone(done);
    AsWrittenFaultIff(q, done);
  }

  lemma {:induction false} AllDone(done: seq<bool>)
    requires forall i :: 0 <= i < |done| ==> done[i]
    ensures DoneIndices(done) == seq(|done|, i => i)
  {
    if done != [] { AllDone(done[..|done| - 1]); }
  }

  /** Where it does not: of two completed SETs in front of a waiting GET the erase as written
      keeps the second SET, whose payload is then stored a second time by the next pass, and
      drops the GET that nobody has answered. */
  lemma AsWrittenRepeatsAndLoses(store: Store, a: View, b: View, get: View, ok: nat -> bool)
    requires |store| + 2 < CLIENTS_MAX && a.id != b.id
    requires a.kind.Set? && b.kind.Set? && a.payload != "" && b.payload != ""
    requires get.kind.Get? && MailboxOf(store, get.id) == [] && get.id != a.id && get.id != b.id
    ensures var first := Window(store, [a, b, get], ok);
            && first.done == [true, true, false]
            && EraseEach([a, b, get], DoneIndices(first.done)) == Some([b])
            && MailboxOf(first.store, b.id) == [b.payload] + MailboxOf(store, b.id)
            && MailboxOf(Window(first.store, [b], ok).store, b.id) == [b.payload, b.payload] + MailboxOf(store, b.id)
  {
    TwoSetsThenGet(store, a, b, get, ok);
    SecondKept(a, b, get);
    assert |Put(Put(store, a), b)| < CLIENTS_MAX by {
      PutAtMostOneMore(store, a.id, [a.payload] + MailboxOf(store, a.id));
      PutAtMostOneMore(Put(store, a), b.id, [b.payload] + MailboxOf(Put(store, a), b.id));
    }
    OneSet(Put(Put(store, a), b), b, ok);
    PutTwice(store, a, b);
  }

  lemma PutTwice(store: Store, a: View, b: View)
    requires a.id != b.id
    ensures MailboxOf(Put(Put(store, a), b), b.id) == [b.payload] + MailboxOf(store, b.id)
    ensures MailboxOf(Put(Put(Put(store, a), b), b), b.id) == [b.payload, b.payload] + MailboxOf(store, b.id)
  {
    assert [b.payload] + ([b.payload] + MailboxOf(store, b.id)) == [b.payload, b.payload] + MailboxOf(store, b.id);
  }

  lemma TwoSetsThenGet(store: Store, a: View, b: View, get: View, ok: nat -> bool)
    requires |store| + 2 < CLIENTS_MAX
    requires a.kind.Set? && b.kind.Set? && a.payload != "" && b.payload != ""
    requires get.kind.Get? && MailboxOf(store, get.id) == [] && get.id != a.id && get.id != b.id
    ensures Window(store, [a, b, get], ok) == WindowResult(Put(Put(store, a), b), [true, true, false])
  {
    var s1, s2 := Put(store, a), Put(Put(store, a), b);
    OneSet(store, a, ok);
    assert Window(store, [a], ok) == WindowResult(s1, [true]);
    AcceptedSet(s1, b, ok(1));
    WindowSnoc(store, [a], b, ok);
    assert [a] + [b] == [a, b] && [true] + [true] == [true, true];
    assert Window(store, [a, b], ok) == WindowResult(s2, [true, true]);
    DispatchFrame(s2, get, ok(2));
    WindowSnoc(store, [a, b], get, ok);
    assert [a, b] + [get] == [a, b, get] && [true, true] + [false] == [true, true, false];
  }

  lemma OneSet(store: Store, a: View, ok: nat -> bool)
    requires |store| < CLIENTS_MAX && a.kind.Set? && a.payload != ""
    ensures Window(store, [a], ok) == WindowResult(Put(store, a), [true])
    ensures |Put(store, a)| <= |store| + 1
  {
    AcceptedSet(store, a, ok(0));
    WindowSnoc(store, [], a, ok);
    assert [] + [a] == [a] && [] + [true] == [true];
  }

  function Put(store: Store, v: View): Store { store[v.id := [v.payload] + MailboxOf(store, v.id)] }

  lemma AcceptedSet(store: Store, v: View, sendOk: bool)
    requires |store| < CLIENTS_MAX && v.kind.Set? && v.payload != ""
    ensures Dispatch.Dispatch(store, v, sendOk).store == Put(store, v) && Dispatch.Dispatch(store, v, sendOk).done
    ensures |Put(store, v)| <= |store| + 1
  {
    PutAtMostOneMore(store, v.id, [v.payload] + MailboxOf(store, v.id));
  }

  lemma WindowSnoc(store: Store, vs: seq<View>, v: View, ok: nat -> bool)
    ensures var before := Window(store, vs, ok);
            var o := Dispatch.Dispatch(before.store, v, ok(|vs|));
            Window(store, vs + [v], ok) == WindowResult(o.store, before.done + [o.done])
  {
    assert (vs + [v])[..|vs|] == vs;
  }

  lemma SecondKept<T>(x: T, y: T, z: T)
    ensures EraseEach([x, y, z], DoneIndices([true, true, false])) == Some([y])
  {
    var done := [true, true, false];
    assert done[..2] == [true, true] && [true, true][..1] == [true];
    assert DoneIndices(done) == [0, 1];
    assert RemoveAt([x, y, z], 0) == [y, z] && RemoveAt([y, z], 1) == [y];
    assert [0, 1][1..] == [1];
    assert EraseEach([y, z], [1]) == EraseEach([y], [1][1..]);
  }

  lemma PutAtMostOneMore(store: Store, id: string, mailbox: seq<string>)
    ensures |store[id := mailbox]| <= |store| + 1
  {
    assert store[id := mailbox].Keys == store.Keys + {id};
    assert |store[id := mailbox]| == |store[id := mailbox].Keys| && |store| == |store.Keys|;
  }

  // ---- progress ------------------------------------------------------------------------------

  /** A pass with the shift-correct erase, on the level of what the dispatches see. */
  function Pass(q: seq<View>, store: Store, ok: nat -> bool): (r: (seq<View>, Store)) {
    var win := Window(store, q[..WindowSize(|q|)], ok);
    (Left(q, win.done), win.store)
  }

  /** Passes number p, p + 1, ..., with no message arriving in between. */
  function Run(q: seq<View>, store: Store, ok: (nat, nat) -> bool, p: nat, passes: nat): (r: (seq<View>, Store))
    decreases passes
  {
    if passes == 0 then (q, store)
    else
      var (q', store') := Pass(q, store, Row(ok, p));
      Run(q', store', ok, p + 1, passes - 1)
  }

  /** The write results of pass number p. */
  function Row(ok: (nat, nat) -> bool, p: nat): nat -> bool { (i: nat) => ok(p, i) }

  function Gets(q: seq<View>): (n: nat)
    ensures n <= |q|
  {
    if q == [] then 0 else Gets(q[..|q| - 1]) + (if q[|q| - 1].kind.Get? then 1 else 0)
  }

  lemma {:induction false} GetsConcat(a: seq<View>, b: seq<View>)
    ensures Gets(a + b) == Gets(a) + Gets(b)
    decreases |b|
  {
    if b == [] {
      assert a + b == a;
    } else {
      GetsConcat(a, b[..|b| - 1]);
      assert (a + b)[..|a + b| - 1] == a + b[..|b| - 1];
    }
  }

  lemma {:induction false} AllGets(q: seq<View>)
    ensures Gets(q) == |q| <==> forall v :: v in q ==> v.kind.Get?
  {
    if q != [] {
      var n := |q| - 1;
      AllGets(q[..n]);
      assert q == q[..n] + [q[n]];
    }
  }

  lemma {:induction false} KeptGets(q: seq<View>, done: seq<bool>)
    requires |q| == |done|
    ensures Gets(Kept(q, done)) <= Gets(q)
  {
    if q != [] {
      var n := |q| - 1;
      KeptGets(q[..n], done[..n]);
      GetsConcat(Kept(q[..n], done[..n]), if done[n] then [] else [q[n]]);
      assert [q[n]][..0] == [];
    }
  }

  /** As long as nothing in the window completes, the store stays what it was. */
  lemma {:induction false} WindowIdle(store: Store, vs: seq<View>, ok: nat -> bool)
    requires forall v :: v in vs ==> !CanComplete(store, v)
    ensures Window(store, vs, ok).store == store
    ensures forall i :: 0 <= i < |vs| ==> !Window(store, vs, ok).done[i]
  {
    if vs != [] {
      var n := |vs| - 1;
      WindowIdle(store, vs[..n], ok);
      DispatchFrame(store, vs[n], ok(n));
    }
  }

  lemma {:induction false} WindowPrefix(store: Store, vs: seq<View>, ok: nat -> bool, k: nat)
    requires k <= |vs|
    ensures Window(store, vs[..k], ok).done == Window(store, vs, ok).done[..k]
  {
    if k < |vs| {
      var n := |vs| - 1;
      assert vs[..n][..k] == vs[..k];
      WindowPrefix(store, vs[..n], ok, k);
    } else {
      assert vs[..k] == vs;
    }
  }

  /** If some entry of the window can complete in the store that the pass begins with, some
      entry does: that one, or one before it. */
  lemma WindowActs(store: Store, vs: seq<View>, ok: nat -> bool, i: nat)
    requires i < |vs| && CanComplete(store, vs[i])
    requires forall j :: 0 <= j < i ==> !CanComplete(store, vs[j])
    ensures Window(store, vs, ok).done[i]
  {
    WindowIdle(store, vs[..i], ok);
    assert vs[..i + 1][..i] == vs[..i];
    DispatchFrame(store, vs[i], ok(i));
    WindowPrefix(store, vs, ok, i + 1);
    assert Window(store, vs[..i + 1], ok).done[i];
  }

  lemma {:induction false} KeptShorter<T>(q: seq<T>, done: seq<bool>, i: nat)
    requires |q| == |done| && i < |q| && done[i]
    ensures |Kept(q, done)| < |q|
  {
    var n := |q| - 1;
    if i < n { KeptShorter(q[..n], done[..n], i); }
  }

  lemma {:induction false} KeptAll<T>(q: seq<T>, done: seq<bool>)
    requires |q| == |done| && forall i :: 0 <= i < |done| ==> !done[i]
    ensures Kept(q, done) == q
  {
    if q != [] {
      var n := |q| - 1;
      KeptAll(q[..n], done[..n]);
      assert q == q[..n] + [q[n]];
    }
  }

  lemma NoneDone(done: seq<bool>)
    requires forall i :: 0 <= i < |done| ==> !done[i]
    ensures DoneIndices(done) == []
  {
  }

  lemma FirstCompletable(store: Store, vs: seq<View>, i: nat) returns (k: nat)
    requires i < |vs| && CanComplete(store, vs[i])
    ensures k < |vs| && CanComplete(store, vs[k]) && forall j :: 0 <= j < k ==> !CanComplete(store, vs[j])
  {
    k := 0;
    while !CanComplete(store, vs[k])
      invariant k <= i && forall j :: 0 <= j < k ==> !CanComplete(store, vs[j])
      decreases i - k
    {
      k := k + 1;
    }
  }

  /** With fewer than 256 GETs waiting, an entry that can complete is in reach of the pass. */
  lemma CompletableInWindow(q: seq<View>, store: Store) returns (i: nat)
    requires Gets(q) < 256
    requires exists v :: v in q && CanComplete(store, v)
    ensures i < WindowSize(|q|) && CanComplete(store, q[i])
  {
    var w := WindowSize(|q|);
    if w == |q| {
      i :| 0 <= i < |q| && CanComplete(store, q[i]);
    } else {
      AllGets(q[..w]);
      GetsConcat(q[..w], q[w..]);
      assert q == q[..w] + q[w..];
      var v :| v in q[..w] && !v.kind.Get?;
      i :| 0 <= i < w && q[i] == v;
    }
  }

  /** Then a pass strictly shortens the list, whatever the writes return, and adds no GET. */
  lemma PassShortens(q: seq<View>, store: Store, ok: nat -> bool)
    requires Gets(q) < 256
    requires exists v :: v in q && CanComplete(store, v)
    ensures |Pass(q, store, ok).0| < |q|
  {
    var w := WindowSize(|q|);
    var i := CompletableInWindow(q, store);
    var k := FirstCompletable(store, q[..w], i);
    WindowActs(store, q[..w], ok, k);
    KeptShorter(q[..w], Window(store, q[..w], ok).done, k);
  }

  lemma PassGets(q: seq<View>, store: Store, ok: nat -> bool)
    ensures Gets(Pass(q, store, ok).0) <= Gets(q)
  {
    var w := WindowSize(|q|);
    var done := Window(store, q[..w], ok).done;
    assert q == q[..w] + q[w..];
    GetsConcat(q[..w], q[w..]);
    GetsConcat(Kept(q[..w], done), q[w..]);
    KeptGets(q[..w], done);
  }

  /** Nothing can complete: only GETs on missing or empty mailboxes are left. */
  ghost predicate Stuck(q: seq<View>, store: Store) {
    forall v :: v in q ==> v.kind.Get? && MailboxOf(store, v.id) == []
  }

  /** If no entry of the window can complete, the pass changes nothing at all. */
  lemma IdlePass(q: seq<View>, store: Store, ok: nat -> bool)
    requires forall v :: v in q[..WindowSize(|q|)] ==> !CanComplete(store, v)
    ensures Pass(q, store, ok) == (q, store)
    ensures DoneIndices(Window(store, q[..WindowSize(|q|)], ok).done) == []
  {
    var w := WindowSize(|q|);
    WindowIdle(store, q[..w], ok);
    var done := Window(store, q[..w], ok).done;
    NoneDone(done);
    LeftAll(q, done);
  }

  lemma LeftAll<T>(q: seq<T>, done: seq<bool>)
    requires |done| <= |q| && forall i :: 0 <= i < |done| ==> !done[i]
    ensures Left(q, done) == q
  {
    KeptAll(q[..|done|], done);
    assert q == q[..|done|] + q[|done|..];
  }

  lemma {:induction false} FirstOfRun(q: seq<View>, store: Store, ok: (nat, nat) -> bool, p: nat, passes: nat)
    requires passes > 0
    ensures var next := Pass(q, store, Row(ok, p));
            Run(q, store, ok, p, passes) == Run(next.0, next.1, ok, p + 1, passes - 1)
  {
  }

  /** With fewer than 256 GETs and no arrivals, at most as many passes as there are messages
      lead to a list of nothing but GETs on missing or empty mailboxes. */
  lemma {:induction false} Progress(q: seq<View>, store: Store, ok: (nat, nat) -> bool, p: nat, passes: nat)
    requires Gets(q) < 256 && passes >= |q|
    ensures var (q', store') := Run(q, store, ok, p, passes);
            Stuck(q', store')
    decreases passes
  {
    if passes > 0 {
      var f := Row(ok, p);
      var next := Pass(q, store, f);
      if exists v :: v in q && CanComplete(store, v) {
        PassShortens(q, store, f);
        PassGets(q, store, f);
        Progress(next.0, next.1, ok, p + 1, passes - 1);
        FirstOfRun(q, store, ok, p, passes);
      } else {
        StuckStays(q, store, ok, p, passes);
      }
    }
  }

  lemma StuckPass(q: seq<View>, store: Store, ok: nat -> bool)
    requires Stuck(q, store)
    ensures Pass(q, store, ok) == (q, store)
  {
    IdlePass(q, store, ok);
  }

  lemma {:induction false} StuckStays(q: seq<View>, store: Store, ok: (nat, nat) -> bool, p: nat, passes: nat)
    requires Stuck(q, store)
    ensures Run(q, store, ok, p, passes) == (q, store)
    decreases passes
  {
    if passes > 0 {
      StuckPass(q, store, Row(ok, p));
      StuckStays(q, store, ok, p + 1, passes - 1);
    }
  }

  /** Rounds of the worker: what has arrived is put behind the waiting messages, then a pass. */
  function RunWithArrivals(q: seq<View>, store: Store, arrivals: seq<seq<View>>,
                             ok: (nat, nat) -> bool, p: nat): (r: (seq<View>, Store))
    decreases |arrivals|
  {
    if arrivals == [] then (q, store)
    else
      var (q', store') := Pass(q + arrivals[0], store, Row(ok, p));
      RunWithArrivals(q', store', arrivals[1..], ok, p + 1)
  }

  function Flatten<T>(batches: seq<seq<T>>): (r: seq<T>) {
    if batches == [] then [] else batches[0] + Flatten(batches[1..])
  }

  /** Conversely, 256 leading GETs on missing or empty mailboxes block the worker, as long as
      the dispatches see these same GETs: whatever arrives behind them, no pass ever answers,
      stores or removes anything. (Module Rounds says when arrivals keep what they see.) */
  lemma {:induction false} Starvation(q: seq<View>, store: Store, arrivals: seq<seq<View>>,
                                      ok: (nat, nat) -> bool, p: nat)
    requires |q| >= 256
    requires Stuck(q[..256], store)
    ensures RunWithArrivals(q, store, arrivals, ok, p) == (q + Flatten(arrivals), store)
    decreases |arrivals|
  {
    if arrivals == [] {
      assert q + [] == q;
    } else {
      var first, rest := arrivals[0], arrivals[1..];
      StarvedPass(q, store, first, Row(ok, p));
      Starvation(q + first, store, rest, ok, p + 1);
      Associate(q, first, Flatten(rest));
    }
  }

  lemma Associate<T>(a: seq<T>, b: seq<T>, c: seq<T>)
    ensures (a + b) + c == a + (b + c)
  {
  }

  lemma StarvedPass(q: seq<View>, store: Store, arrived: seq<View>, ok: nat -> bool)
    requires |q| >= 256
    requires Stuck(q[..256], store)
    ensures Pass(q + arrived, store, ok) == (q + arrived, store)
    ensures (q + arrived)[..256] == q[..256]
  {
    var all := q + arrived;
    assert all[..WindowSize(|all|)] == q[..256];
    IdlePass(all, store, ok);
  }
}
