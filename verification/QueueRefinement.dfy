/**
 Why the scheduler may see an unbounded queue as a list of lists of events. Every step of the two
 threads on the chain of rings is, for the list, nothing, some commits, a new node, or one turn of
 the backend's read loop, which takes an event or stops.
 */
module QueueRefinement {
  import opened Bits
  import BoundedQueue
  import opened UnboundedQueue
  import Scheduler

  type Event = Scheduler.Event
  type Ctx = Scheduler.Ctx
  type Decoder = seq<BoundedQueue.Byte> -> Event

  /** The events of records i up to j of a ring. */
  function EventsOf(recs: seq<BoundedQueue.Rec>, i: nat, j: nat, decode: Decoder): (es: seq<Event>)
    requires i <= j <= |recs|
    ensures |es| == j - i && forall k :: 0 <= k < |es| ==> es[k] == decode(recs[i + k].bytes)
  {
    seq(j - i, k requires 0 <= k < j - i => decode(recs[i + k].bytes))
  }

  /** What waits in a ring: committed and not read. */
  function WaitingIn(r: BoundedQueue.Ring, decode: Decoder): seq<Event> {
    if r.k.read <= r.k.committed <= |r.tape.recs| then EventsOf(r.tape.recs, r.k.read, r.k.committed, decode) else []
  }

  /** The chain as the scheduler sees it: what waits in each node from the consumer's on. */
  function View(q: Queue, decode: Decoder): (v: seq<seq<Event>>)
    requires InBounds(q)
    ensures |v| == |q.nodes| - q.consumer
    ensures forall i :: 0 <= i < |v| ==> v[i] == WaitingIn(q.nodes[q.consumer + i].ring, decode)
  {
    seq(|q.nodes| - q.consumer, i requires 0 <= i < |q.nodes| - q.consumer => WaitingIn(q.nodes[q.consumer + i].ring, decode))
  }

  /** `empty()` decides for the chain what QueueEmpty says of the list. */
  lemma EmptyAgrees(q: Queue, decode: Decoder)
    requires QInv(q)
    ensures InBounds(q)
    ensures Scheduler.QueueEmpty(View(q, decode)) <==> !Waiting(q.nodes[q.consumer]) && !q.nodes[q.consumer].linked
  {
    hide BoundedQueue.Inv, RingsOk, ProducerOk, ConsumerOk;
    RingCounts(q, q.consumer);
    assert q.nodes[q.consumer].linked <==> q.consumer + 1 < |q.nodes|;
  }

  lemma RingCounts(q: Queue, i: nat)
    requires QInv(q) && i < |q.nodes|
    ensures var r := q.nodes[i].ring; r.k.read <= r.k.committed <= |r.tape.recs| && (r.cpc.CReading? ==> r.k.read < r.k.committed)
  {
    hide BoundedQueue.Inv;
    LogLength(q.nodes[i].ring);
  }

  // ---- The steps of the list -------------------------------------------------------------------

  /** A context of the scheduler, and whether the running prepare_read has moved to the next node. */
  datatype Seen = Seen(c: Ctx, moved: bool)

  /** A commit, as the scheduler makes it. */
  function CommitOne(c: Ctx, e: Event): (r: Ctx)
    requires c.nodes != []
    ensures r.nodes != []
  {
    c.(all := c.all + [e], nodes := Scheduler.Append(c.nodes, e))
  }

  function CommitAll(c: Ctx, es: seq<Event>): (r: Ctx)
    requires c.nodes != []
    ensures r.nodes != []
  {
    if es == [] then c else CommitOne(CommitAll(c, es[..|es| - 1]), es[|es| - 1])
  }

  /** One turn of the read loop that takes the event found. */
  function Took(c: Ctx): Ctx
    requires c.nodes != [] && Scheduler.Hop(c.nodes) != [] && Scheduler.Hop(c.nodes)[0] != []
  {
    var nodes := Scheduler.Hop(c.nodes);
    var e := nodes[0][0];
    c.(nodes := Scheduler.Pop(nodes), buf := if e.mdc then c.buf else c.buf + [e])
  }

  /** One turn of the read loop that stops. */
  function Stopped(c: Ctx): (r: Ctx)
    requires c.nodes != []
    ensures r.nodes != []
  {
    c.(nodes := Scheduler.Hop(c.nodes))
  }

  /** These are the scheduler's own steps. */
  lemma SchedulerSteps(cfg: Scheduler.Config, s: Scheduler.State, d: nat, e: Event)
    requires Scheduler.Typed(s) && d < |s.ctxs| && !s.ctxs[d].finished
    ensures e.bytes > 0 && e.ts <= Scheduler.UINT64_MAX ==>
              Scheduler.Apply(cfg, s, Scheduler.Commit(d, e)) == Scheduler.SetCtx(s, d, CommitOne(s.ctxs[d], e))
    ensures Scheduler.Apply(cfg, s, Scheduler.Grow(d)) ==
              Scheduler.SetCtx(s, d, s.ctxs[d].(nodes := s.ctxs[d].nodes + [[]]))
  {}

  lemma ReadLoopTurn(cfg: Scheduler.Config, c: Ctx, cutoff: nat, capacity: nat, got: nat, fails: bool)
    requires c.nodes != [] && got < capacity && |c.buf| < cfg.hardLimit
    ensures var nodes, r := Scheduler.Hop(c.nodes), Scheduler.ReadOne(cfg, c, cutoff, capacity, got, fails);
            if nodes[0] == [] || fails || Scheduler.TooNew(nodes[0][0], cutoff) then r.0 == Stopped(c) && r.1.None?
            else r.0 == Took(c) && r.1.Some?
  {}

  // ---- What each step of the chain is for the list ---------------------------------------------

  /** What a step of the producer on its ring commits. */
  function Newly(r: BoundedQueue.Ring, r': BoundedQueue.Ring, decode: Decoder): seq<Event> {
    if r.k.committed <= r'.k.committed <= |r'.tape.recs|
    then EventsOf(r'.tape.recs, r.k.committed, r'.k.committed, decode) else []
  }

  /**
   A step of the consumer on its ring that ends a call which had moved to this node: it finds
   nothing, or it starts another call, leaving the record it was handed where it is.
   */
  predicate EndsCall(r: BoundedQueue.Ring, step: BoundedQueue.Step) {
    || (step.CheckEmpty? && r.cpc.CReading?)
    || (step.LoadWriter? && BoundedQueue.DoLoadWriter(r).cpc.CEmpty?)
  }

  function Next(q: Queue, a: QStep, s: Seen, decode: Decoder): (t: Seen)
    requires Enabled(q, a) && s.c.nodes != []
    ensures t.c.nodes != []
  {
    var p, c := q.nodes[q.producer].ring, q.nodes[q.consumer].ring;
    match a
    case ProducerRing(step) => s.(c := CommitAll(s.c, Newly(p, BoundedQueue.Apply(p, step), decode)))
    case GrowCommit => s.(c := CommitAll(s.c, Newly(p, BoundedQueue.DoCommitWrite(p), decode)))
    case LinkNext => s.(c := s.c.(nodes := s.c.nodes + [[]]))
    case ConsumerRing(step) =>
      if step.FinishRead? && Scheduler.Hop(s.c.nodes) != [] && Scheduler.Hop(s.c.nodes)[0] != [] then Seen(Took(s.c), false)
      else if s.moved && EndsCall(c, step) then Seen(Stopped(s.c), false)
      else s
    case SwitchConsumer => s.(moved := true)
    case _ => s
  }

  /** Within a call that has moved, the list still has the node that was left, which is empty. */
  ghost predicate Refines(q: Queue, s: Seen, decode: Decoder)
    requires InBounds(q)
  {
    && s.c.nodes == (if s.moved then [[]] + View(q, decode) else View(q, decode))
    && (s.moved ==> q.cs.CNormal? && !q.nodes[q.consumer].ring.cpc.CEmpty?)
  }

  lemma StartRefines(c: BoundedQueue.Config, max: nat, decode: Decoder)
    ensures Refines(FreshQueue(c, max), Seen(Scheduler.Ctx([], [[]], [], false), false), decode)
  {
    assert View(FreshQueue(c, max), decode) == [[]];
  }

  lemma {:induction false} CommitAllNodes(c: Ctx, es: seq<Event>)
    requires c.nodes != []
    ensures var n := |c.nodes| - 1; CommitAll(c, es).nodes == c.nodes[..n] + [c.nodes[n] + es]
    ensures CommitAll(c, es).all == c.all + es && CommitAll(c, es).buf == c.buf
  {
    var n := |c.nodes| - 1;
    if es == [] {
      assert c.nodes[n] + es == c.nodes[n] && c.nodes == c.nodes[..n] + [c.nodes[n]];
    } else {
      var init := es[..|es| - 1];
      CommitAllNodes(c, init);
      assert (c.nodes[n] + init) + [es[|es| - 1]] == c.nodes[n] + es;
      assert init + [es[|es| - 1]] == es;
    }
  }

  /** More records committed at the end of a ring wait behind the others. */
  lemma WaitingGrows(r: BoundedQueue.Ring, r': BoundedQueue.Ring, decode: Decoder)
    requires r'.k.read == r.k.read <= r.k.committed <= r'.k.committed <= |r'.tape.recs|
    requires r.tape.recs <= r'.tape.recs && r.k.committed <= |r.tape.recs|
    ensures WaitingIn(r', decode) == WaitingIn(r, decode) + Newly(r, r', decode)
  {}

  lemma WaitingSame(r: BoundedQueue.Ring, r': BoundedQueue.Ring, decode: Decoder)
    requires r'.k.read == r.k.read && r'.k.committed == r.k.committed && r'.tape == r.tape
    ensures WaitingIn(r', decode) == WaitingIn(r, decode)
  {}

  /** The list after the producer's ring went to r. */
  lemma ProducerView(q: Queue, t: Queue, r: BoundedQueue.Ring, s: Seen, decode: Decoder)
    requires InBounds(q) && q.producer + 1 == |q.nodes| && Refines(q, s, decode)
    requires var p := q.nodes[q.producer].ring;
             && WaitingIn(r, decode) == WaitingIn(p, decode) + Newly(p, r, decode)
             && r.cpc == p.cpc
    requires t == SetRing(q, q.producer, r).(ps := t.ps)
    ensures Refines(t, s.(c := CommitAll(s.c, Newly(q.nodes[q.producer].ring, r, decode))), decode)
  {
    hide WaitingIn, Newly, CommitAll;
    var es := Newly(q.nodes[q.producer].ring, r, decode);
    CommitAllNodes(s.c, es);
    var v := View(q, decode);
    var n := |v| - 1;
    assert View(t, decode) == v[..n] + [v[n] + es];
    if s.moved {
      assert ([[]] + v)[..n + 1] == [[]] + v[..n];
      assert ([[]] + v[..n]) + [v[n] + es] == [[]] + (v[..n] + [v[n] + es]);
    }
  }

  lemma ProducerStep(q: Queue, a: QStep, s: Seen, decode: Decoder)
    requires QInv(q) && Enabled(q, a) && (a.ProducerRing? || a.GrowCommit?) && Refines(q, s, decode)
    ensures InBounds(Apply(q, a)) && Refines(Apply(q, a), Next(q, a, s, decode), decode)
  {
    hide BoundedQueue.Inv, BoundedQueue.Apply, BoundedQueue.Enabled, IsProducerStep, RingsOk, ChainOk, ConsumerOk;
    hide WaitingIn, Newly, CommitAll;
    var p := q.nodes[q.producer].ring;
    RingCounts(q, q.producer);
    if a.ProducerRing? {
      ProducerFrame(p, a.step);
      ProducerRingInv(q, a.step);
    }
    var r := if a.ProducerRing? then BoundedQueue.Apply(p, a.step) else BoundedQueue.DoCommitWrite(p);
    WaitingGrows(p, r, decode);
    ProducerView(q, Apply(q, a), r, s, decode);
  }

  lemma ProducerRingInv(q: Queue, step: BoundedQueue.Step)
    requires QInv(q) && Enabled(q, ProducerRing(step))
    ensures var r, r' := q.nodes[q.producer].ring, BoundedQueue.Apply(q.nodes[q.producer].ring, step);
            BoundedQueue.Inv(r) && BoundedQueue.Inv(r') && r.k.committed <= r'.k.committed <= |r'.tape.recs|
  {
    hide BoundedQueue.Inv, BoundedQueue.Apply, BoundedQueue.Enabled, IsProducerStep;
    var r := q.nodes[q.producer].ring;
    BoundedQueue.StepKeepsInv(r, step);
    ProducerFrame(r, step);
    LogLength(BoundedQueue.Apply(r, step));
  }

  /** States with the same waiting records and the same consumer are the same list. */
  lemma RefinesSame(q: Queue, t: Queue, s: Seen, decode: Decoder)
    requires InBounds(q) && Refines(q, s, decode) && |t.nodes| == |q.nodes| && t.consumer == q.consumer && InBounds(t)
    requires forall i :: q.consumer <= i < |q.nodes| ==> WaitingIn(t.nodes[i].ring, decode) == WaitingIn(q.nodes[i].ring, decode)
    requires s.moved ==> t.cs.CNormal? && !t.nodes[t.consumer].ring.cpc.CEmpty?
    ensures Refines(t, s, decode)
  {
    hide WaitingIn;
    assert View(t, decode) == View(q, decode);
  }

  /** Steps that touch neither what waits nor where the consumer is. */
  lemma QuietStep(q: Queue, a: QStep, s: Seen, decode: Decoder)
    requires QInv(q) && Enabled(q, a) && Refines(q, s, decode)
    requires !a.ProducerRing? && !a.GrowCommit? && !a.LinkNext? && !a.ConsumerRing? && !a.SwitchConsumer?
    ensures InBounds(Apply(q, a)) && Refines(Apply(q, a), Next(q, a, s, decode), decode)
  {
    hide BoundedQueue.Inv, RingsOk, ChainOk, HandleFull, WaitingIn, View;
    if a.LeaveCommit? {
      ConsumerTyped(q);
      LeaveFacts(q.nodes[q.consumer].ring);
    }
    var t := Apply(q, a);
    forall i | q.consumer <= i < |q.nodes| ensures WaitingIn(t.nodes[i].ring, decode) == WaitingIn(q.nodes[i].ring, decode) {
      WaitingSame(q.nodes[i].ring, t.nodes[i].ring, decode);
    }
    RefinesSame(q, t, s, decode);
  }

  lemma LinkStep(q: Queue, s: Seen, decode: Decoder)
    requires QInv(q) && Enabled(q, LinkNext) && Refines(q, s, decode)
    ensures InBounds(Apply(q, LinkNext)) && Refines(Apply(q, LinkNext), Next(q, LinkNext, s, decode), decode)
  {
    hide BoundedQueue.Inv, RingsOk, ChainOk, ConsumerOk, View, WaitingIn;
    var t := Apply(q, LinkNext);
    assert WaitingIn(t.nodes[|q.nodes|].ring, decode) == [] by { FreshWaiting(q.ps.next, decode); }
    LinkedView(q, t, decode);
    assert ([[]] + View(q, decode)) + [[]] == [[]] + (View(q, decode) + [[]]);
  }

  lemma FreshWaiting(c: BoundedQueue.Config, decode: Decoder)
    ensures WaitingIn(BoundedQueue.Fresh(c), decode) == []
  {}

  lemma LinkedView(q: Queue, t: Queue, decode: Decoder)
    requires InBounds(q) && InBounds(t) && |t.nodes| == |q.nodes| + 1 && t.consumer == q.consumer
    requires forall i :: 0 <= i < |q.nodes| ==> t.nodes[i].ring == q.nodes[i].ring
    requires WaitingIn(t.nodes[|q.nodes|].ring, decode) == []
    ensures View(t, decode) == View(q, decode) + [[]]
  {
    hide WaitingIn;
  }

  lemma SwitchStep(q: Queue, s: Seen, decode: Decoder)
    requires QInv(q) && Enabled(q, SwitchConsumer) && Refines(q, s, decode)
    ensures InBounds(Apply(q, SwitchConsumer)) && Refines(Apply(q, SwitchConsumer), Next(q, SwitchConsumer, s, decode), decode)
  {
    hide BoundedQueue.Inv, RingsOk, ProducerOk, View, WaitingIn;
    var t := Apply(q, SwitchConsumer);
    RingCounts(q, q.consumer);
    assert WaitingIn(q.nodes[q.consumer].ring, decode) == [] by { ReadWaiting(q.nodes[q.consumer].ring, decode); }
    TailView(q, t, decode);
  }

  lemma ReadWaiting(r: BoundedQueue.Ring, decode: Decoder)
    requires r.k.read == r.k.committed
    ensures WaitingIn(r, decode) == []
  {}

  lemma TailView(q: Queue, t: Queue, decode: Decoder)
    requires InBounds(q) && InBounds(t) && t.nodes == q.nodes && t.consumer == q.consumer + 1
    ensures View(q, decode) == [WaitingIn(q.nodes[q.consumer].ring, decode)] + View(t, decode)
  {
    hide WaitingIn;
  }

  /** Where the list differs from the chain, leaving the empty node makes them the same. */
  lemma HopView(q: Queue, s: Seen, decode: Decoder)
    requires InBounds(q) && Refines(q, s, decode)
    ensures s.moved || View(q, decode)[0] != [] ==> Scheduler.Hop(s.c.nodes) == View(q, decode)
  {
    hide WaitingIn, View;
    if s.moved { assert ([[]] + View(q, decode))[1..] == View(q, decode); }
  }

  lemma FinishStep(q: Queue, m: nat, s: Seen, decode: Decoder)
    requires QInv(q) && Enabled(q, ConsumerRing(BoundedQueue.FinishRead(m))) && Refines(q, s, decode)
    ensures var a := ConsumerRing(BoundedQueue.FinishRead(m));
            && InBounds(Apply(q, a)) && Refines(Apply(q, a), Next(q, a, s, decode), decode)
            && Scheduler.Hop(s.c.nodes) != [] && Scheduler.Hop(s.c.nodes)[0] != []
            && Scheduler.Hop(s.c.nodes)[0][0] == decode(q.nodes[q.consumer].ring.inbox.got)
  {
    hide BoundedQueue.Inv, BoundedQueue.Enabled, RingsOk, ChainOk, ProducerOk, ConsumerOk, WaitingIn, View;
    var r := q.nodes[q.consumer].ring;
    ConsumerTyped(q);
    RingCounts(q, q.consumer);
    HandedOut(r, m);
    FirstTaken(r, m, decode);
    HopView(q, s, decode);
    PoppedView(q, Apply(q, ConsumerRing(BoundedQueue.FinishRead(m))), decode);
  }

  lemma FirstTaken(r: BoundedQueue.Ring, m: nat, decode: Decoder)
    requires r.k.read < r.k.committed <= |r.tape.recs| && BoundedQueue.Enabled(r, BoundedQueue.FinishRead(m))
    ensures WaitingIn(r, decode) != [] && WaitingIn(r, decode)[0] == decode(r.tape.recs[r.k.read].bytes)
    ensures WaitingIn(BoundedQueue.Apply(r, BoundedQueue.FinishRead(m)), decode) == WaitingIn(r, decode)[1..]
  {
    hide BitAnd, Mod, WaitingIn;
    WaitingTail(r, BoundedQueue.Apply(r, BoundedQueue.FinishRead(m)), decode);
  }

  lemma WaitingTail(r: BoundedQueue.Ring, r': BoundedQueue.Ring, decode: Decoder)
    requires r.k.read < r.k.committed <= |r.tape.recs|
    requires r'.k.read == r.k.read + 1 && r'.k.committed == r.k.committed && r'.tape == r.tape
    ensures WaitingIn(r, decode) == [decode(r.tape.recs[r.k.read].bytes)] + WaitingIn(r', decode)
  {}

  lemma PoppedView(q: Queue, t: Queue, decode: Decoder)
    requires InBounds(q) && InBounds(t) && |t.nodes| == |q.nodes| && t.consumer == q.consumer
    requires forall i :: q.consumer < i < |q.nodes| ==> t.nodes[i] == q.nodes[i]
    requires var v := WaitingIn(q.nodes[q.consumer].ring, decode);
             v != [] && WaitingIn(t.nodes[q.consumer].ring, decode) == v[1..]
    ensures View(q, decode)[0] != [] && View(t, decode) == Scheduler.Pop(View(q, decode))
  {
    hide WaitingIn;
  }

  /** The bytes handed to the decoder are those of the record. */
  lemma HandedOut(r: BoundedQueue.Ring, m: nat)
    requires BoundedQueue.Inv(r) && BoundedQueue.Enabled(r, BoundedQueue.FinishRead(m))
    ensures r.cpc.CReading? && r.k.read < |r.tape.recs| && r.inbox.got == r.tape.recs[r.k.read].bytes
  {
    hide Mod, BitAnd;
  }

  lemma ReadStep(q: Queue, step: BoundedQueue.Step, s: Seen, decode: Decoder)
    requires QInv(q) && Enabled(q, ConsumerRing(step)) && !step.FinishRead? && Refines(q, s, decode)
    ensures var a := ConsumerRing(step);
            InBounds(Apply(q, a)) && Refines(Apply(q, a), Next(q, a, s, decode), decode)
  {
    hide BoundedQueue.Inv, RingsOk, ChainOk, ProducerOk, ConsumerOk, WaitingIn, View;
    var r := q.nodes[q.consumer].ring;
    ConsumerFrame(r, step);
    var t := Apply(q, ConsumerRing(step));
    ReadsStay(r, step);
    forall i | q.consumer <= i < |q.nodes| ensures WaitingIn(t.nodes[i].ring, decode) == WaitingIn(q.nodes[i].ring, decode) {
      WaitingSame(q.nodes[i].ring, t.nodes[i].ring, decode);
    }
    if s.moved && EndsCall(r, step) {
      HopView(q, s, decode);
      RefinesSame(q.(cs := CNormal), t, Seen(Stopped(s.c), false), decode);
    } else {
      RefinesSame(q, t, s, decode);
    }
  }

  lemma ReadsStay(r: BoundedQueue.Ring, step: BoundedQueue.Step)
    requires BoundedQueue.Enabled(r, step) && !IsProducerStep(step) && !step.FinishRead?
    ensures BoundedQueue.Apply(r, step).k.read == r.k.read
    ensures !r.cpc.CEmpty? && !EndsCall(r, step) ==> !BoundedQueue.Apply(r, step).cpc.CEmpty?
  {
    hide BitAnd, Mod;
  }

  /** Each step of the chain is, for the list, the step Next says. */
  lemma StepRefines(q: Queue, a: QStep, s: Seen, decode: Decoder)
    requires QInv(q) && Enabled(q, a) && Refines(q, s, decode)
    ensures InBounds(Apply(q, a)) && Refines(Apply(q, a), Next(q, a, s, decode), decode)
  {
    hide QInv, Apply, Next, Refines, Enabled;
    match a
    case ProducerRing(_) => ProducerStep(q, a, s, decode);
    case GrowCommit => ProducerStep(q, a, s, decode);
    case LinkNext => LinkStep(q, s, decode);
    case SwitchConsumer => SwitchStep(q, s, decode);
    case ConsumerRing(step) =>
      if step.FinishRead? { FinishStep(q, step.m, s, decode); } else { ReadStep(q, step, s, decode); }
    case _ => QuietStep(q, a, s, decode);
  }

  // ---- Whole runs ------------------------------------------------------------------------------

  /** The scheduler's context after k steps of a run of the chain. */
  ghost function Follow(run: seq<Queue>, steps: seq<QStep>, k: nat, decode: Decoder): (s: Seen)
    requires k < |run| == |steps| + 1
    requires forall i :: 0 <= i < k ==> Enabled(run[i], steps[i])
    ensures s.c.nodes != []
  {
    if k == 0 then Seen(Scheduler.Ctx([], [[]], [], false), false)
    else Next(run[k - 1], steps[k - 1], Follow(run, steps, k - 1, decode), decode)
  }

  /** Over every run of the chain the scheduler's list, stepped along with it, is what the chain holds. */
  lemma {:induction false} EveryRunRefines(c: BoundedQueue.Config, max: nat, run: seq<Queue>, steps: seq<QStep>, k: nat, decode: Decoder)
    requires IsRun(c, max, run, steps) && k < |run|
    ensures InBounds(run[k]) && Refines(run[k], Follow(run, steps, k, decode), decode)
  {
    hide QInv, Apply, Enabled, Next, Refines;
    if k == 0 {
      StartRefines(c, max, decode);
    } else {
      EveryRunRefines(c, max, run, steps, k - 1, decode);
      RunInv(c, max, run, steps, k - 1);
      StepRefines(run[k - 1], steps[k - 1], Follow(run, steps, k - 1, decode), decode);
    }
  }
}
