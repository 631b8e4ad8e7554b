/** Rounds of the worker in the pipeline: what whole passes do to the server, with either erase,
    and starvation. */
module Rounds {
  import opened Common
  import opened Client
  import opened Dispatch
  import opened MemoryBlock
  import opened Passes
  import opened Pipeline
  import opened VectorErase
  import opened Wire
  import H = Handoff
  import W = Worker

  lemma {:induction false} ExecConcat(fix: bool, s: State, a: seq<Action>, b: seq<Action>)
    ensures Exec(fix, s, a + b) == Exec(fix, Exec(fix, s, a), b)
    decreases |a|
  {
    if a == [] {
      assert a + b == b;
    } else {
      assert (a + b)[1..] == a[1..] + b;
      ExecConcat(fix, Step(fix, s, a[0]), a[1..], b);
    }
  }

  lemma ExecOne(fix: bool, s: State, a: Action)
    ensures Exec(fix, s, [a]) == Step(fix, s, a)
  {
    assert [a][1..] == [];
  }

  // ---- a pass without a step of the network thread in between --------------------------------

  /** What the dispatches get to see. */
  function ItemViews(mem: string, q: seq<Item>): (vs: seq<View>)
    ensures |vs| == |q|
  {
    seq(|q|, i requires 0 <= i < |q| => ViewOf(mem, q[i].msg))
  }

  /** The dispatch loop, with the write results ok(0), ok(1), ... */
  function Dispatches(ok: nat -> bool, n: nat): (r: seq<Action>) {
    if n == 0 then [] else Dispatches(ok, n - 1) + [DispatchNext(ok(n - 1))]
  }

  /** The entries whose dispatch returned true, in order. */
  function Chosen(q: seq<Item>, done: seq<bool>): seq<Item>
    requires |q| == |done|
  {
    if q == [] then []
    else
      var n := |q| - 1;
      Chosen(q[..n], done[..n]) + (if done[n] then [q[n]] else [])
  }

  /** A state like s, as far as a pass does not change it. */
  ghost predicate SameOutside(s: State, t: State) {
    t.h == s.h && t.mem == s.mem && t.calls == s.calls && t.waiting == s.waiting && t.fault == s.fault
  }

  /** The dispatch steps of the pipeline are the Window of module Passes. */
  lemma {:induction false} DispatchesAlone(fix: bool, s: State, ok: nat -> bool, n: nat)
    requires s.pass.Dispatching? && s.pass.done == [] && n <= s.pass.count <= |s.waiting|
    ensures var t := Exec(fix, s, Dispatches(ok, n));
            var win := Window(s.store, ItemViews(s.mem, s.waiting)[..n], ok);
            && SameOutside(s, t) && t.pass == Dispatching(s.pass.count, win.done) && t.store == win.store
            && Items(t.completed) == Items(s.completed) + Chosen(s.waiting[..n], win.done)
  {
    if n > 0 {
      DispatchesAlone(fix, s, ok, n - 1);
      var mid := Exec(fix, s, Dispatches(ok, n - 1));
      ExecConcat(fix, s, Dispatches(ok, n - 1), [DispatchNext(ok(n - 1))]);
      ExecOne(fix, mid, DispatchNext(ok(n - 1)));
      var vs := ItemViews(s.mem, s.waiting)[..n];
      assert vs[..n - 1] == ItemViews(s.mem, s.waiting)[..n - 1];
      assert vs[n - 1] == ViewOf(mid.mem, mid.waiting[n - 1].msg);
      OneDispatchMore(mid, ok(n - 1), s.waiting, Items(s.completed));
    } else {
      assert Items(s.completed) + [] == Items(s.completed);
    }
  }

  lemma OneDispatchMore(s: State, sendOk: bool, q: seq<Item>, before: seq<Item>)
    requires Enabled(s, DispatchNext(sendOk)) && q == s.waiting
    requires Items(s.completed) == before + Chosen(q[..|s.pass.done|], s.pass.done)
    ensures var t := DispatchStep(s, sendOk);
            |t.pass.done| <= |q| && Items(t.completed) == before + Chosen(q[..|t.pass.done|], t.pass.done)
  {
    var n, t := |s.pass.done|, DispatchStep(s, sendOk);
    DispatchShape(s, sendOk, t.pass.done[n]);
    assert q[..n + 1][..n] == q[..n] && t.pass.done[..n] == s.pass.done;
  }

  /** The pass of processMessages over what is waiting. */
  function PassRun(waiting: nat, ok: nat -> bool): seq<Action> {
    if waiting == 0 then [BeginPass] else [BeginPass] + (Dispatches(ok, WindowSize(waiting)) + [EndPass])
  }

  /** What a pass works on; fault: an erase has run off the vector. */
  datatype Served = Served(waiting: seq<Item>, store: Store, fault: bool)

  function Decided(mem: string, x: Served, ok: nat -> bool): (r: WindowResult)
    ensures |r.done| == WindowSize(|x.waiting|)
  {
    Window(x.store, ItemViews(mem, x.waiting)[..WindowSize(|x.waiting|)], ok)
  }

  /** A pass with either erase, over buffers that stay as they are. */
  function PassOn(fix: bool, mem: string, x: Served, ok: nat -> bool): Served {
    var win := Decided(mem, x, ok);
    var left := LeftBy(fix, x.waiting, win.done);
    Served(if left.Some? then left.value else x.waiting, win.store, x.fault || left.None?)
  }

  /** The messages that it completes. */
  function CompletedBy(mem: string, x: Served, ok: nat -> bool): seq<Item> {
    Chosen(x.waiting[..WindowSize(|x.waiting|)], Decided(mem, x, ok).done)
  }

  function ServedBy(s: State): Served { Served(s.waiting, s.store, s.fault) }

  /** What a pass leaves of s as it is. */
  ghost predicate AfterPass(s: State, t: State) {
    t.pass.Outside? && t.h == s.h.(worker := H.Checking) && t.mem == s.mem && t.calls == s.calls
  }

  lemma EndAlone(fix: bool, s: State)
    requires Enabled(s, EndPass) && s.h.worker.Working?
    ensures var t, left := EndStep(fix, s), LeftBy(fix, s.waiting, s.pass.done);
            && AfterPass(s, t) && t.store == s.store && Items(t.completed) == Items(s.completed)
            && t.waiting == (if left.Some? then left.value else s.waiting) && t.fault == (s.fault || left.None?)
  {
  }

  /** The steps of a pass in the pipeline, with no read in between, are this pass. */
  lemma PassAlone(fix: bool, s: State, ok: nat -> bool)
    requires s.h.worker.Working? && s.pass.Outside?
    ensures var t := Exec(fix, s, PassRun(|s.waiting|, ok));
            && AfterPass(s, t) && ServedBy(t) == PassOn(fix, s.mem, ServedBy(s), ok)
            && Items(t.completed) == Items(s.completed) + CompletedBy(s.mem, ServedBy(s), ok)
  {
    ExecOne(fix, s, BeginPass);
    if s.waiting == [] {
      NothingToPass(fix, s.mem, ServedBy(s), ok);
      assert Items(s.completed) + [] == Items(s.completed);
    } else {
      FullPassAlone(fix, s, ok);
    }
  }

  lemma FullPassAlone(fix: bool, s: State, ok: nat -> bool)
    requires s.h.worker.Working? && s.pass.Outside? && s.waiting != []
    ensures var t := Exec(fix, s, PassRun(|s.waiting|, ok));
            && AfterPass(s, t) && ServedBy(t) == PassOn(fix, s.mem, ServedBy(s), ok)
            && Items(t.completed) == Items(s.completed) + CompletedBy(s.mem, ServedBy(s), ok)
  {
    var w := WindowSize(|s.waiting|);
    var begun := Step(fix, s, BeginPass);
    var decided := Exec(fix, begun, Dispatches(ok, w));
    ExecOne(fix, s, BeginPass);
    ExecConcat(fix, s, [BeginPass], Dispatches(ok, w) + [EndPass]);
    ExecConcat(fix, begun, Dispatches(ok, w), [EndPass]);
    ExecOne(fix, decided, EndPass);
    DispatchesAlone(fix, begun, ok, w);
    EndAlone(fix, decided);
  }

  lemma NothingToPass(fix: bool, mem: string, x: Served, ok: nat -> bool)
    requires x.waiting == []
    ensures PassOn(fix, mem, x, ok) == x && CompletedBy(mem, x, ok) == []
  {
    assert ItemViews(mem, x.waiting)[..0] == [];
    assert Decided(mem, x, ok) == WindowResult(x.store, []);
  }

  /** With the shift-correct erase it is the Pass of module Passes. */
  lemma PassOnIsPass(mem: string, x: Served, ok: nat -> bool)
    ensures var y := PassOn(true, mem, x, ok);
            (ItemViews(mem, y.waiting), y.store) == Pass(ItemViews(mem, x.waiting), x.store, ok) && y.fault == x.fault
  {
    var done := Decided(mem, x, ok).done;
    CorrectedPassLeaves(x.waiting, done);
    ViewsOfLeft(mem, x.waiting, done);
  }

  function Msgs(q: seq<Item>): (r: seq<Transfer>)
    ensures |r| == |q|
  {
    seq(|q|, i requires 0 <= i < |q| => q[i].msg)
  }

  lemma {:induction false} EraseMsgs(q: seq<Item>, indices: seq<nat>)
    ensures EraseEach(Msgs(q), indices).None? <==> EraseEach(q, indices).None?
    ensures EraseEach(q, indices).Some? ==> EraseEach(Msgs(q), indices) == Some(Msgs(EraseEach(q, indices).value))
    decreases |indices|
  {
    if indices != [] && indices[0] < |q| {
      assert RemoveAt(Msgs(q), indices[0]) == Msgs(RemoveAt(q, indices[0]));
      EraseMsgs(RemoveAt(q, indices[0]), indices[1..]);
    }
  }

  /** With the erase as written it is what MessageHandler.ProcessMessages promises of its pass
      over the same messages. */
  lemma PassOnIsHandlers(mem: string, x: Served, ok: nat -> bool, done: seq<bool>, after: Store)
    requires |done| == WindowSize(|x.waiting|) && !x.fault
    requires WindowResult(after, done) == Window(x.store, W.Views(mem, Msgs(x.waiting))[..|done|], ok)
    ensures var y, left := PassOn(false, mem, x, ok), EraseEach(Msgs(x.waiting), DoneIndices(done));
            y.store == after && (y.fault <==> left.None?) && (!y.fault ==> left == Some(Msgs(y.waiting)))
  {
    assert W.Views(mem, Msgs(x.waiting)) == ItemViews(mem, x.waiting);
    EraseMsgs(x.waiting, DoneIndices(done));
  }

  lemma {:induction false} ViewsOfKept(mem: string, q: seq<Item>, done: seq<bool>)
    requires |q| == |done|
    ensures ItemViews(mem, Kept(q, done)) == Kept(ItemViews(mem, q), done)
    ensures forall item :: item in Kept(q, done) ==> item in q
  {
    if q != [] {
      var n := |q| - 1;
      ViewsOfKept(mem, q[..n], done[..n]);
      assert ItemViews(mem, q)[..n] == ItemViews(mem, q[..n]);
      var last := if done[n] then [] else [q[n]];
      assert ItemViews(mem, Kept(q[..n], done[..n]) + last)
          == ItemViews(mem, Kept(q[..n], done[..n])) + ItemViews(mem, last);
    }
  }

  lemma ViewsOfLeft(mem: string, q: seq<Item>, done: seq<bool>)
    requires |done| <= |q|
    ensures ItemViews(mem, Left(q, done)) == Left(ItemViews(mem, q), done)
    ensures forall item :: item in Left(q, done) ==> item in q
  {
    var w := |done|;
    ViewsOfKept(mem, q[..w], done);
    assert ItemViews(mem, q)[..w] == ItemViews(mem, q[..w]) && ItemViews(mem, q)[w..] == ItemViews(mem, q[w..]);
    assert ItemViews(mem, Kept(q[..w], done) + q[w..]) == ItemViews(mem, Kept(q[..w], done)) + ItemViews(mem, q[w..]);
  }

  // ---- whole rounds -------------------------------------------------------------------------

  function Lift(run: seq<H.Action<Item>>): (r: seq<Action>)
    ensures |r| == |run|
  {
    seq(|run|, i requires 0 <= i < |run| => HandOver(run[i]))
  }

  /** Hand-over steps of the worker and the network thread in the pipeline. */
  lemma {:induction false} LiftExec(fix: bool, s: State, run: seq<H.Action<Item>>)
    requires forall b :: b in run ==> !b.Read? && !b.WorkDone?
    ensures s.h.popped <= H.Exec(s.h, run).popped
    ensures var h := H.Exec(s.h, run);
            Exec(fix, s, Lift(run)) == s.(h := h, waiting := s.waiting + h.popped[|s.h.popped|..])
    decreases |run|
  {
    if run == [] {
      assert s.waiting + [] == s.waiting;
    } else {
      var t := Step(fix, s, HandOver(run[0]));
      assert Lift(run)[1..] == Lift(run[1..]);
      H.StepHistories(s.h, run[0]);
      LiftStep(fix, s, run[0]);
      LiftExec(fix, t, run[1..]);
      Suffixes(s.h.popped, t.h.popped, H.Exec(s.h, run).popped, s.waiting);
    }
  }

  lemma LiftStep(fix: bool, s: State, b: H.Action<Item>)
    requires !b.Read? && !b.WorkDone? && s.h.popped <= H.Step(s.h, b).popped
    ensures var h := H.Step(s.h, b);
            Step(fix, s, HandOver(b)) == s.(h := h, waiting := s.waiting + h.popped[|s.h.popped|..])
  {
    var h := H.Step(s.h, b);
    if |h.popped| == |s.h.popped| {
      assert h.popped[|s.h.popped|..] == [];
      assert s.waiting + [] == s.waiting;
    }
  }

  lemma Suffixes<T>(a: seq<T>, b: seq<T>, c: seq<T>, q: seq<T>)
    requires a <= b <= c
    ensures (q + b[|a|..]) + c[|b|..] == q + c[|a|..]
  {
    assert b[|a|..] + c[|b|..] == c[|a|..];
  }

  lemma TransferRunSteps(h: H.State<Item>)
    ensures forall b :: b in H.TransferRun(h) ==> !b.Read? && !b.WorkDone?
  {
    TimesAll(H.PushOne, |h.messages|);
  }

  /** transferMessages of the network thread. */
  lemma {:induction false} TransferAlone(fix: bool, s: State)
    requires s.h.net.Reading?
    ensures Exec(fix, s, Lift(H.TransferRun(s.h))) == s.(h := H.AfterTransfer(s.h))
  {
    H.TransferAlone(s.h);
    TransferRunSteps(s.h);
    LiftExec(fix, s, H.TransferRun(s.h));
    assert H.AfterTransfer(s.h).popped[|s.h.popped|..] == [];
    assert s.waiting + [] == s.waiting;
  }

  /** One run of processMessages: the queue section, then the pass. */
  function Round(s: State, ok: nat -> bool): seq<Action> {
    Lift(H.DrainRun(s.h)) + PassRun(|s.waiting| + if s.h.flag.WroteQueue? then |s.h.queue| else 0, ok)
  }

  lemma DrainRunSteps(h: H.State<Item>)
    ensures forall b :: b in H.DrainRun(h) ==> !b.Read? && !b.WorkDone?
  {
    TimesAll(H.PopOne, |h.queue|);
  }

  lemma {:induction false} TimesAll(b: H.Action<Item>, n: nat)
    ensures forall c :: c in H.Times(b, n) ==> c == b
  {
    if n > 0 { TimesAll(b, n - 1); }
  }

  /** Between two rounds, with nothing left in the queue unless the flag says so. */
  ghost predicate BetweenRounds(s: State) {
    s.h.worker.Checking? && s.pass.Outside? && (s.h.flag.ProcessedQueue? ==> s.h.queue == [])
  }

  /** What whole rounds leave of s as it is: the queue has been taken. */
  ghost predicate AfterRounds(s: State, t: State) {
    && BetweenRounds(t) && t.mem == s.mem && t.calls == s.calls
    && t.h == s.h.(flag := H.ProcessedQueue, queue := [], popped := s.h.popped + s.h.queue)
  }

  lemma AfterMoreRounds(s: State, mid: State, t: State)
    requires AfterRounds(s, mid) && AfterRounds(mid, t)
    ensures AfterRounds(s, t)
  {
    assert mid.h.popped + [] == mid.h.popped;
  }

  function Drained(s: State): State {
    s.(h := s.h.(worker := H.Working, flag := H.ProcessedQueue, queue := [], popped := s.h.popped + s.h.queue),
       waiting := s.waiting + s.h.queue)
  }

  lemma DrainAlone(fix: bool, s: State)
    requires BetweenRounds(s)
    ensures Exec(fix, s, Lift(H.DrainRun(s.h))) == Drained(s)
  {
    H.DrainAlone(s.h);
    DrainRunSteps(s.h);
    LiftExec(fix, s, H.DrainRun(s.h));
    assert (s.h.popped + s.h.queue)[|s.h.popped|..] == s.h.queue;
    if s.h.flag.ProcessedQueue? {
      assert s.h.popped + s.h.queue == s.h.popped;
    }
  }

  lemma {:induction false} RoundAlone(fix: bool, s: State, ok: nat -> bool)
    requires BetweenRounds(s)
    ensures var t := Exec(fix, s, Round(s, ok));
            && AfterRounds(s, t) && ServedBy(t) == PassOn(fix, s.mem, ServedBy(Drained(s)), ok)
            && Items(t.completed) == Items(s.completed) + CompletedBy(s.mem, ServedBy(Drained(s)), ok)
  {
    var pass := PassRun(|Drained(s).waiting|, ok);
    DrainAlone(fix, s);
    ExecConcat(fix, s, Lift(H.DrainRun(s.h)), pass);
    PassAlone(fix, Drained(s), ok);
    AfterDrainAndPass(s, Exec(fix, Drained(s), pass));
    assert Exec(fix, s, Round(s, ok)) == Exec(fix, Drained(s), pass);
  }

  lemma AfterDrainAndPass(s: State, t: State)
    requires BetweenRounds(s) && AfterPass(Drained(s), t)
    ensures AfterRounds(s, t)
  {
  }

  /** Rounds number p, p + 1, ... with nothing arriving in between. */
  function RoundsRun(fix: bool, s: State, ok: (nat, nat) -> bool, p: nat, rounds: nat): seq<Action>
    decreases rounds
  {
    if rounds == 0 then []
    else
      var first := Round(s, Row(ok, p));
      first + RoundsRun(fix, Exec(fix, s, first), ok, p + 1, rounds - 1)
  }

  lemma FirstRound(fix: bool, s: State, ok: (nat, nat) -> bool, p: nat, rounds: nat)
    requires rounds > 0
    ensures var first := Round(s, Row(ok, p));
            RoundsRun(fix, s, ok, p, rounds) == first + RoundsRun(fix, Exec(fix, s, first), ok, p + 1, rounds - 1)
  {
  }

  function PassesOn(fix: bool, mem: string, x: Served, ok: (nat, nat) -> bool, p: nat, passes: nat): Served
    decreases passes
  {
    if passes == 0 then x
    else PassesOn(fix, mem, PassOn(fix, mem, x, Row(ok, p)), ok, p + 1, passes - 1)
  }

  lemma NothingToDrain(s: State)
    requires s.h.queue == []
    ensures ServedBy(Drained(s)) == ServedBy(s)
  {
    assert s.waiting + [] == s.waiting;
  }

  lemma FirstPass(fix: bool, mem: string, x: Served, ok: (nat, nat) -> bool, p: nat, passes: nat)
    requires passes > 0
    ensures PassesOn(fix, mem, x, ok, p, passes)
            == PassesOn(fix, mem, PassOn(fix, mem, x, Row(ok, p)), ok, p + 1, passes - 1)
  {
  }

  /** Whole rounds in the pipeline are such passes, over what was waiting or queued. */
  lemma {:induction false} RoundsAlone(fix: bool, s: State, ok: (nat, nat) -> bool, p: nat, rounds: nat)
    requires BetweenRounds(s) && rounds > 0
    ensures var t := Exec(fix, s, RoundsRun(fix, s, ok, p, rounds));
            AfterRounds(s, t) && ServedBy(t) == PassesOn(fix, s.mem, ServedBy(Drained(s)), ok, p, rounds)
    decreases rounds
  {
    var first := Round(s, Row(ok, p));
    var mid := Exec(fix, s, first);
    var rest := RoundsRun(fix, mid, ok, p + 1, rounds - 1);
    RoundAlone(fix, s, Row(ok, p));
    FirstRound(fix, s, ok, p, rounds);
    FirstPass(fix, s.mem, ServedBy(Drained(s)), ok, p, rounds);
    ExecConcat(fix, s, first, rest);
    if rounds > 1 {
      RoundsAlone(fix, mid, ok, p + 1, rounds - 1);
      NothingToDrain(mid);
      AfterMoreRounds(s, mid, Exec(fix, mid, rest));
    } else {
      assert rest == [];
    }
  }

  // ---- starvation -----------------------------------------------------------------------------

  /** A GET that keeps waiting: its bytes are safe, and its mailbox is missing or empty. */
  ghost predicate Blocked(store: Store, item: Item) {
    && item.call < 4096 && Whole(item)
    && Decode(item.result.data).kind.Get? && MailboxOf(store, Decode(item.result.data).id) == []
  }

  /** 256 of them are in front, and a running pass has completed nothing so far. */
  ghost predicate Starved(s: State) {
    && |s.waiting| >= 256
    && (forall i :: 0 <= i < 256 ==> Blocked(s.store, s.waiting[i]))
    && (s.pass.Dispatching? ==> forall i :: 0 <= i < |s.pass.done| ==> !s.pass.done[i])
  }

  /** Nothing has been answered, stored or removed; more may be waiting at the back. */
  ghost predicate NoEffect(s: State, t: State) {
    t.store == s.store && t.completed == s.completed && t.fault == s.fault && s.waiting <= t.waiting
  }

  lemma BlockedStays(s: State, item: Item)
    requires H.Inv(s.h) && BuffersInv(s) && WaitingInv(s) && item in s.waiting && Blocked(s.store, item)
    ensures !CanComplete(s.store, ViewOf(s.mem, item.msg))
  {
    LiveWasRead(s, item);
    assert Protected(s, item) && Intact(s, item) && WellRead(item, s.calls);
    SmallModulus(|item.result.data|, TWO_TO_THE_16);
    ViewOfWholeBuffer(s.mem, item.msg, item.result.data);
  }

  lemma StarvedDispatch(s: State, sendOk: bool)
    requires H.Inv(s.h) && BuffersInv(s) && WaitingInv(s) && Starved(s) && Enabled(s, DispatchNext(sendOk))
    ensures Starved(DispatchStep(s, sendOk)) && NoEffect(s, DispatchStep(s, sendOk))
  {
    var item := s.waiting[|s.pass.done|];
    BlockedStays(s, item);
    DispatchFrame(s.store, ViewOf(s.mem, item.msg), sendOk);
  }

  lemma StarvedEnd(fix: bool, s: State)
    requires PassShape(s) && Starved(s) && Enabled(s, EndPass)
    ensures Starved(EndStep(fix, s)) && NoEffect(s, EndStep(fix, s))
  {
    NoneDone(s.pass.done);
    CorrectedPassLeaves(s.waiting, s.pass.done);
    LeftAll(s.waiting, s.pass.done);
  }

  lemma StarvedHandOver(s: State, b: H.Action<Item>)
    requires Starved(s)
    ensures Starved(HandOverStep(s, b)) && NoEffect(s, HandOverStep(s, b))
  {
  }

  lemma StarvedStep(fix: bool, s: State, a: Action)
    requires Inv(fix, s) && Starved(s)
    ensures Starved(Step(fix, s, a)) && NoEffect(s, Step(fix, s, a))
  {
    if Enabled(s, a) {
      match a {
        case HandOver(b) => StarvedHandOver(s, b);
        case DispatchNext(sendOk) => StarvedDispatch(s, sendOk);
        case EndPass => StarvedEnd(fix, s);
        case _ =>
      }
    }
  }

  /** Starvation of the server, with either erase: 256 leading GETs on missing or empty
      mailboxes, read in the first 4095 calls, block the worker for good. Whatever arrives, no
      run from there ever answers, stores or removes anything. */
  lemma {:induction false} StarvedForever(fix: bool, s: State, run: seq<Action>)
    requires Inv(fix, s) && Starved(s)
    ensures Starved(Exec(fix, s, run)) && NoEffect(s, Exec(fix, s, run))
    decreases |run|
  {
    if run != [] {
      StarvedStep(fix, s, run[0]);
      InvStep(fix, s, run[0]);
      StarvedForever(fix, Step(fix, s, run[0]), run[1..]);
    }
  }

  /** From call 4096 on it is otherwise: each message of at least 67 bytes that arrives gives
      every such waiting message its own type and session ID, so that each of them can complete
      exactly if the new message could - always, if that is a SET. */
  lemma {:induction false} LateEntriesFollowNewest(s: State, e: Ready, item: Item, store: Store)
    requires BuffersInv(s) && Enabled(s, ReadReady(e))
    requires item in s.h.read && item.call >= 4096
    requires e.result.Received? && |e.result.data| >= HEADER_BYTES
    ensures var v, newest := ViewOf(ReadStep(s, e).mem, item.msg), Decode(e.result.data);
            && v.kind == newest.kind && v.id == newest.id
            && (CanComplete(store, v) <==> CanComplete(store, newest))
            && (newest.kind.Set? ==> CanComplete(store, v))
  {
    var mem := ReadStep(s, e).mem;
    assert WellRead(item, s.calls);
    InSegmentZero(item.call);
    InSegmentZero(s.calls + 1);
    OverwriteHolds(s.mem, 0, e.result.data);
    HeaderOfBuffer(mem, item.msg, e.result.data);
  }
}
