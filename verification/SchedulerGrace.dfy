/**
 The grace period: over a whole run, in single-event and in batch mode, events are processed in
 timestamp order, provided every event is committed before the clock passes its timestamp by more
 than the grace period.
 */
module SchedulerGrace {
  import opened Containers
  import opened Scheduler
  import opened SchedulerOrder

  /** A fixed set of n registered contexts, all of them cached. */
  function StartWith(n: nat, now: nat): State {
    State(seq(n, _ => Ctx([], [[]], [], false)), Registry(seq(n, i => i), false, seq(n, i => i)), now, 0, [], [], Idle)
  }

  /** Bounded queues, a fixed set of contexts, no MDC events, real clocks, and timely commits. */
  predicate Timely(cfg: Config, s: State, step: Step) {
    && InOrder(s, step)
    && !step.Register? && !step.Grow?
    && (step.Commit? ==> !step.e.mdc && !step.e.user && s.now <= step.e.ts + cfg.grace)
  }

  function LastTs(out: seq<Output>): nat {
    if out == [] then 0 else out[|out| - 1].event.ts
  }

  predicate OutSorted(out: seq<Output>) {
    forall i, j :: 0 <= i < j < |out| ==> out[i].event.ts <= out[j].event.ts
  }

  predicate AllFrom(q: seq<Event>, ts: nat) { forall x :: x in q ==> ts <= x.ts }
  predicate AllUpTo(q: seq<Event>, ts: nat) { forall x :: x in q ==> x.ts <= ts }
  predicate Plain(q: seq<Event>) { forall x :: x in q ==> !x.mdc && !x.user }

  /** A context against the last processed timestamp and the cutoff. */
  predicate GraceCtx(c: Ctx, last: nat, cutoff: nat) {
    && |c.nodes| == 1 && Plain(Flat(c.nodes))
    && AllFrom(Outstanding(c), last) && AllUpTo(c.buf, cutoff)
  }

  /** An empty buffer is no risk: what is queued is not before the cutoff. */
  predicate Covered(c: Ctx, cutoff: nat) {
    c.buf == [] ==> AllFrom(Flat(c.nodes), cutoff)
  }

  function CoveredUpTo(s: State): nat {
    match s.pc
    case Reading(i, _, _, _) => i
    case Pending(i) => i
    case Decide(_) => |s.reg.cache|
    case One => |s.reg.cache|
    case Ready => |s.reg.cache|
    case _ => 0
  }

  ghost predicate GraceInv(cfg: Config, s: State) {
    && !s.reg.flag && !s.pc.Copy?
    && s.now < UINT64_MAX
    && s.cutoff <= CutoffAt(cfg, s.now)
    && LastTs(s.out) <= s.cutoff
    && OutSorted(s.out)
    && (forall d :: 0 <= d < |s.ctxs| ==> GraceCtx(s.ctxs[d], LastTs(s.out), s.cutoff))
    && (forall d :: 0 <= d < |s.ctxs| ==> d in s.reg.cache || Drained(s.ctxs[d]))
  }

  ghost predicate CoverInv(s: State) {
    && CoveredUpTo(s) <= |s.reg.cache|
    && (forall k :: 0 <= k < CoveredUpTo(s) ==> s.reg.cache[k] < |s.ctxs| && Covered(s.ctxs[s.reg.cache[k]], s.cutoff))
    && (s.pc.Reading? ==> s.pc.capacity > 0)
    && (s.pc.Reading? && s.pc.i < |s.reg.cache| && s.pc.got > 0 ==>
          s.reg.cache[s.pc.i] < |s.ctxs| && s.ctxs[s.reg.cache[s.pc.i]].buf != [])
  }

  lemma CommitGrace(c: Ctx, e: Event, last: nat, cutoff: nat)
    requires GraceCtx(c, last, cutoff) && last <= cutoff <= e.ts && !e.mdc && !e.user
    ensures var r := c.(all := c.all + [e], nodes := Append(c.nodes, e));
            GraceCtx(r, last, cutoff) && (Covered(c, cutoff) ==> Covered(r, cutoff))
  {
    hide Flat, Append;
    FlatAppend(c.nodes, e);
    SameNodes(c.nodes, e);
  }

  /**
   One turn of the decoding loop. A stop leaves the context covered: because the queue is empty or
   its head is past the cutoff, or else because the buffer is not empty.
   */
  lemma ReadGrace(cfg: Config, c: Ctx, last: nat, cutoff: nat, capacity: nat, got: nat, fails: bool)
    requires cfg.hardLimit > 0 && capacity > 0 && cutoff != UINT64_MAX
    requires GraceCtx(c, last, cutoff) && Ordered(c) && (got > 0 || fails ==> c.buf != [])
    ensures var (r, n) := ReadOne(cfg, c, cutoff, capacity, got, fails);
            && GraceCtx(r, last, cutoff)
            && (n.None? ==> Covered(r, cutoff))
            && (n.Some? ==> r.buf != [])
            && (Covered(c, cutoff) ==> Covered(r, cutoff))
  {
    hide Flat, ReadOne, SortedTs;
    ReadOneMoves(cfg, c, cutoff, capacity, got, fails);
    ReadOneBounded(cfg, c, cutoff, capacity, got, fails);
    var (r, n) := ReadOne(cfg, c, cutoff, capacity, got, fails);
    if n.Some? {
      var e := Flat(c.nodes)[0];
      assert e in Flat(c.nodes);
      TakenGrace(c, r, e, last, cutoff);
    } else if c.buf == [] {
      assert Outstanding(c) == Flat(c.nodes);
      LaterFrom(Flat(c.nodes), cutoff);
    }
  }

  lemma TakenGrace(c: Ctx, r: Ctx, e: Event, last: nat, cutoff: nat)
    requires GraceCtx(c, last, cutoff) && !e.mdc && !e.user && cutoff != UINT64_MAX
    requires Taken(c, r, e, cutoff) && |r.nodes| == 1
    ensures GraceCtx(r, last, cutoff)
  {
    hide Flat;
    assert Outstanding(c) == c.buf + ([e] + Flat(r.nodes)) == Outstanding(r);
  }

  lemma LaterFrom(q: seq<Event>, cutoff: nat)
    requires SortedTs(q) && (q != [] ==> cutoff <= q[0].ts)
    ensures AllFrom(q, cutoff)
  {}

  /** In a bounded queue a read that stops on an empty buffer found the queue empty or its head too new. */
  lemma ReadOneBounded(cfg: Config, c: Ctx, cutoff: nat, capacity: nat, got: nat, fails: bool)
    requires |c.nodes| == 1
    ensures var (r, n) := ReadOne(cfg, c, cutoff, capacity, got, fails);
            && |r.nodes| == 1
            && (n.None? && got < capacity && |c.buf| < cfg.hardLimit && !fails && Flat(c.nodes) != [] ==>
                  TooNew(Flat(c.nodes)[0], cutoff))
  {
    hide Flat, TooNew;
    FlatOne(c.nodes[0]);
    assert c.nodes == [c.nodes[0]];
  }

  /** After processing the earliest head e, everything outstanding is still not before e. */
  lemma StillFrom(c: Ctx, e: Event, last: nat, cutoff: nat)
    requires GraceCtx(c, last, cutoff) && Ordered(c) && Covered(c, cutoff) && e.ts <= cutoff
    requires c.buf != [] ==> e.ts <= c.buf[0].ts
    ensures GraceCtx(c, e.ts, cutoff)
  {
    hide Flat;
    var o := Outstanding(c);
    if c.buf != [] {
      assert o[0] == c.buf[0];
      LaterFrom(o, e.ts);
    } else {
      assert o == Flat(c.nodes);
    }
  }

  lemma PopGrace(c: Ctx, last: nat, cutoff: nat)
    requires GraceCtx(c, last, cutoff) && c.buf != []
    ensures GraceCtx(c.(buf := c.buf[1..]), last, cutoff)
  {
    hide Flat;
    assert c.buf[1..] + Flat(c.nodes) == Outstanding(c)[1..];
  }

  lemma DrainedCovered(c: Ctx, cutoff: nat)
    requires Drained(c)
    ensures Covered(c, cutoff) && c.buf == []
  {
    hide Flat;
  }

  lemma RaiseCutoff(c: Ctx, last: nat, cutoff: nat, raised: nat)
    requires GraceCtx(c, last, cutoff) && cutoff <= raised
    ensures GraceCtx(c, last, raised)
  {
    hide Flat;
  }

  lemma ReplaceGrace(cfg: Config, s: State, d: nat, c: Ctx)
    requires GraceInv(cfg, s) && d < |s.ctxs| && GraceCtx(c, LastTs(s.out), s.cutoff)
    requires Drained(s.ctxs[d]) ==> Drained(c)
    ensures GraceInv(cfg, SetCtx(s, d, c))
  {
    hide GraceCtx, OutSorted, Drained, LastTs, CutoffAt;
  }

  lemma ReplaceCover(s: State, d: nat, c: Ctx)
    requires CoverInv(s) && d < |s.ctxs|
    requires Covered(s.ctxs[d], s.cutoff) ==> Covered(c, s.cutoff)
    requires s.ctxs[d].buf != [] ==> c.buf != []
    ensures CoverInv(SetCtx(s, d, c))
  {
    hide Covered;
  }

  lemma CommitGraceStep(cfg: Config, s: State, d: nat, e: Event)
    requires cfg.grace > 0 && Inv(s) && Typed(s) && Enabled(cfg, s, Commit(d, e)) && Timely(cfg, s, Commit(d, e))
    requires GraceInv(cfg, s) && CoverInv(s)
    ensures var t := Apply(cfg, s, Commit(d, e)); GraceInv(cfg, t) && CoverInv(t)
  {
    hide GraceCtx, Covered, Inv, CoverInv, Append, OutSorted, Drained, LastTs, InOrder;
    NotDrained(s.ctxs[d]);
    var c := s.ctxs[d].(all := s.ctxs[d].all + [e], nodes := Append(s.ctxs[d].nodes, e));
    CommitGrace(s.ctxs[d], e, LastTs(s.out), s.cutoff);
    ReplaceGrace(cfg, s, d, c);
    ReplaceCover(s, d, c);
  }

  lemma FinishGraceStep(cfg: Config, s: State, d: nat)
    requires Inv(s) && Typed(s) && Enabled(cfg, s, Finish(d)) && GraceInv(cfg, s) && CoverInv(s)
    ensures var t := Apply(cfg, s, Finish(d)); GraceInv(cfg, t) && CoverInv(t)
  {
    hide Inv, GraceInv, CoverInv, Flat, AllFrom, AllUpTo, Plain;
    var c := s.ctxs[d].(finished := true);
    assert GraceCtx(s.ctxs[d], LastTs(s.out), s.cutoff) by { GraceOf(cfg, s, d); }
    ReplaceGrace(cfg, s, d, c);
    ReplaceCover(s, d, c);
  }

  lemma GraceOf(cfg: Config, s: State, d: nat)
    requires GraceInv(cfg, s) && d < |s.ctxs|
    ensures GraceCtx(s.ctxs[d], LastTs(s.out), s.cutoff) && LastTs(s.out) <= s.cutoff
    ensures cfg.grace > 0 ==> s.cutoff != UINT64_MAX
  {
    hide GraceCtx, OutSorted, Drained, LastTs;
  }

  lemma ReadGraceStep(cfg: Config, s: State, fails: bool, capacity: nat)
    requires cfg.grace > 0 && cfg.hardLimit > 0 && Inv(s) && Typed(s) && Enabled(cfg, s, Read(fails, capacity)) && OrderInv(s)
    requires GraceInv(cfg, s) && CoverInv(s)
    ensures var t := Apply(cfg, s, Read(fails, capacity)); GraceInv(cfg, t) && CoverInv(t)
  {
    hide GraceCtx, Covered, Inv, GraceInv, Ordered, ReadOne, Drained;
    if s.pc.i < |s.reg.cache| {
      var d := s.reg.cache[s.pc.i];
      var c := s.ctxs[d];
      GraceOf(cfg, s, d);
      ReadGrace(cfg, c, LastTs(s.out), s.cutoff, s.pc.capacity, s.pc.got, fails);
      ReadOneMoves(cfg, c, s.cutoff, s.pc.capacity, s.pc.got, fails);
      ReadKeepsDrained(cfg, c, s.cutoff, s.pc.capacity, s.pc.got, fails);
      var r := ReadOne(cfg, c, s.cutoff, s.pc.capacity, s.pc.got, fails).0;
      ReplaceGrace(cfg, s, d, r);
      GracePc(cfg, SetCtx(s, d, r), DoRead(cfg, s, fails, capacity));
      ReadCover(cfg, s, fails, capacity);
    } else {
      GracePc(cfg, s, DoRead(cfg, s, fails, capacity));
    }
  }

  lemma ReadKeepsDrained(cfg: Config, c: Ctx, cutoff: nat, capacity: nat, got: nat, fails: bool)
    requires c.nodes != []
    ensures Drained(c) ==> Drained(ReadOne(cfg, c, cutoff, capacity, got, fails).0)
  {
    hide Flat, ReadOne, TooNew;
    ReadOneMoves(cfg, c, cutoff, capacity, got, fails);
  }

  lemma ReadCover(cfg: Config, s: State, fails: bool, capacity: nat)
    requires Typed(s) && Enabled(cfg, s, Read(fails, capacity)) && s.pc.i < |s.reg.cache| && CoverInv(s)
    requires var (r, n) := ReadOne(cfg, s.ctxs[s.reg.cache[s.pc.i]], s.cutoff, s.pc.capacity, s.pc.got, fails);
             && (n.None? ==> Covered(r, s.cutoff)) && (n.Some? ==> r.buf != [])
             && (Covered(s.ctxs[s.reg.cache[s.pc.i]], s.cutoff) ==> Covered(r, s.cutoff))
    ensures CoverInv(DoRead(cfg, s, fails, capacity))
  {
    hide Covered, ReadOne;
  }

  lemma GracePc(cfg: Config, s: State, t: State)
    requires GraceInv(cfg, s) && t == s.(pc := t.pc, horizon := t.horizon) && !t.pc.Copy?
    ensures GraceInv(cfg, t)
  {
    hide GraceCtx, OutSorted, Drained, LastTs, CutoffAt;
  }

  lemma ProcessGraceStep(cfg: Config, s: State)
    requires cfg.grace > 0 && Inv(s) && Typed(s) && Enabled(cfg, s, Process) && OrderInv(s)
    requires GraceInv(cfg, s) && CoverInv(s)
    ensures var t := Apply(cfg, s, Process); GraceInv(cfg, t) && CoverInv(t)
  {
    hide Inv, GraceInv, Pick, OrderInv, Covered;
    if Pick(s.ctxs, s.reg.cache).None? {
      GracePc(cfg, s, DoProcess(s));
    } else {
      ProcessedGrace(cfg, s);
    }
  }

  lemma ProcessedGrace(cfg: Config, s: State)
    requires Inv(s) && Typed(s) && Enabled(cfg, s, Process) && OrderInv(s) && GraceInv(cfg, s) && CoverInv(s)
    requires Pick(s.ctxs, s.reg.cache).Some?
    ensures GraceInv(cfg, DoProcess(s))
  {
    hide Inv, Pick, OrderInv, GraceCtx, Covered, OutSorted, LastTs, CutoffAt, Drained, CoverInv;
    var d := Pick(s.ctxs, s.reg.cache).value;
    var e := s.ctxs[d].buf[0];
    var t := DoProcess(s);
    PickedInRange(s.ctxs[d], e, LastTs(s.out), s.cutoff);
    NextOut(s.out, Output(d, e));
    NotDrained(s.ctxs[d]);
    forall x | 0 <= x < |t.ctxs| ensures GraceCtx(t.ctxs[x], LastTs(t.out), t.cutoff) {
      AfterPick(cfg, s, x, d, e);
      if x == d { PopGrace(s.ctxs[d], e.ts, s.cutoff); }
    }
  }

  lemma PickedInRange(c: Ctx, e: Event, last: nat, cutoff: nat)
    requires GraceCtx(c, last, cutoff) && c.buf != [] && e == c.buf[0]
    ensures last <= e.ts <= cutoff
  {
    hide Flat;
    assert Outstanding(c)[0] == e && c.buf[0] in c.buf;
  }

  lemma NextOut(out: seq<Output>, o: Output)
    requires OutSorted(out) && LastTs(out) <= o.event.ts
    ensures OutSorted(out + [o]) && LastTs(out + [o]) == o.event.ts
  {}

  lemma AfterPick(cfg: Config, s: State, x: nat, d: nat, e: Event)
    requires Typed(s) && Pick(s.ctxs, s.reg.cache) == Some(d) && e == s.ctxs[d].buf[0] && x < |s.ctxs|
    requires Inv(s) && Enabled(cfg, s, Process) && OrderInv(s) && GraceInv(cfg, s) && CoverInv(s)
    ensures GraceCtx(s.ctxs[x], e.ts, s.cutoff)
  {
    hide Inv, Pick, GraceCtx, Covered, OutSorted, LastTs, CutoffAt, Drained, Ordered;
    var c := s.ctxs[x];
    PickedInRange(s.ctxs[d], e, LastTs(s.out), s.cutoff);
    if x in s.reg.cache {
      var k :| 0 <= k < |s.reg.cache| && s.reg.cache[k] == x;
      if c.buf != [] { PickIsLowest(s.ctxs, s.reg.cache, x); }
    } else {
      DrainedCovered(c, s.cutoff);
    }
    StillFrom(c, e, LastTs(s.out), s.cutoff);
  }

  lemma CutoffGraceStep(cfg: Config, s: State, capacity: nat)
    requires cfg.grace > 0 && Typed(s) && Enabled(cfg, s, TakeCutoff(capacity)) && GraceInv(cfg, s) && CoverInv(s)
    ensures var t := Apply(cfg, s, TakeCutoff(capacity)); GraceInv(cfg, t) && CoverInv(t)
  {
    hide GraceCtx, OutSorted, Drained, LastTs, CutoffAt, Covered;
    var t := Apply(cfg, s, TakeCutoff(capacity));
    forall d | 0 <= d < |t.ctxs| ensures GraceCtx(t.ctxs[d], LastTs(t.out), t.cutoff) {
      RaiseCutoff(s.ctxs[d], LastTs(s.out), s.cutoff, t.cutoff);
    }
  }

  lemma TickGraceStep(cfg: Config, s: State, to: nat)
    requires cfg.grace > 0 && Typed(s) && Enabled(cfg, s, Tick(to)) && GraceInv(cfg, s) && CoverInv(s)
    ensures var t := Apply(cfg, s, Tick(to)); GraceInv(cfg, t) && CoverInv(t)
  {
    hide GraceCtx, OutSorted, Drained, LastTs, Covered;
  }

  lemma RetireGraceStep(cfg: Config, s: State, d: nat)
    requires Inv(s) && Typed(s) && Enabled(cfg, s, Retire(d)) && GraceInv(cfg, s) && CoverInv(s)
    ensures var t := Apply(cfg, s, Retire(d)); GraceInv(cfg, t) && CoverInv(t)
  {
    hide GraceCtx, OutSorted, Drained, LastTs, Covered, CutoffAt, Without, Inv, QueueEmpty;
    EmptyIsDrained(s.ctxs[d]);
  }

  lemma CheckGraceStep(cfg: Config, s: State)
    requires Typed(s) && Enabled(cfg, s, Check) && GraceInv(cfg, s) && CoverInv(s)
    ensures var t := Apply(cfg, s, Check); GraceInv(cfg, t) && CoverInv(t)
  {
    hide GraceInv, Flat;
    GracePc(cfg, s, DoCheck(s));
    if s.pc.i < |s.reg.cache| {
      var c := s.ctxs[s.reg.cache[s.pc.i]];
      if c.buf == [] && QueueEmpty(c.nodes) {
        EmptyIsFlat(c.nodes);
      }
    }
  }

  lemma QuietGraceStep(cfg: Config, s: State, step: Step)
    requires Typed(s) && Enabled(cfg, s, step) && GraceInv(cfg, s) && CoverInv(s)
    requires step.Begin? || step.StartCheck? || step.Choose? || step.CopyRegistry?
    ensures var t := Apply(cfg, s, step); GraceInv(cfg, t) && CoverInv(t)
  {
    hide GraceCtx, OutSorted, Drained, LastTs, Covered, CutoffAt, Committed;
    GracePc(cfg, s, Apply(cfg, s, step));
  }

  lemma StepGrace(cfg: Config, s: State, step: Step)
    requires cfg.grace > 0 && cfg.hardLimit > 0
    requires Inv(s) && Typed(s) && Enabled(cfg, s, step) && Timely(cfg, s, step)
    requires OrderInv(s) && GraceInv(cfg, s) && CoverInv(s)
    ensures var t := Apply(cfg, s, step); GraceInv(cfg, t) && CoverInv(t)
  {
    hide Inv, Apply, OrderInv, GraceInv, CoverInv, Enabled, Typed, InOrder;
    match step
    case Commit(d, e) => CommitGraceStep(cfg, s, d, e);
    case Finish(d) => FinishGraceStep(cfg, s, d);
    case Read(fails, capacity) => ReadGraceStep(cfg, s, fails, capacity);
    case Process => ProcessGraceStep(cfg, s);
    case TakeCutoff(capacity) => CutoffGraceStep(cfg, s, capacity);
    case Tick(to) => TickGraceStep(cfg, s, to);
    case Retire(d) => RetireGraceStep(cfg, s, d);
    case Check => CheckGraceStep(cfg, s);
    case _ => QuietGraceStep(cfg, s, step);
  }

  // ---- Runs ------------------------------------------------------------------------------------

  ghost predicate IsTimelyRun(cfg: Config, n: nat, run: seq<State>, steps: seq<Step>) {
    && |run| == |steps| + 1
    && run[0].now < UINT64_MAX && run[0] == StartWith(n, run[0].now)
    && forall i :: 0 <= i < |steps| ==>
         Typed(run[i]) && Enabled(cfg, run[i], steps[i]) && Timely(cfg, run[i], steps[i]) && run[i + 1] == Apply(cfg, run[i], steps[i])
  }

  lemma StartWithInv(s: State, n: nat, now: nat)
    requires s == StartWith(n, now)
    ensures Inv(s)
  {
    hide CtxInv, Project;
    EmptyCtxInv(Start(now));
    assert Project([], 0) == [] by { NoOutputYet([], 0); }
    forall d | 0 <= d < n ensures CtxInv(s.ctxs[d], Project(s.out, d)) { NoOutputYet([], d); }
    forall d | 0 <= d < n ensures d in s.reg.ids { assert s.reg.ids[d] == d; }
    assert forall d :: d in s.reg.ids ==> d in s.reg.cache;
  }

  lemma StartWithGrace(cfg: Config, n: nat, now: nat)
    requires now < UINT64_MAX
    ensures GraceInv(cfg, StartWith(n, now)) && CoverInv(StartWith(n, now))
    ensures OrderInv(StartWith(n, now)) && CheckInv(StartWith(n, now))
  {
    hide Drained;
    FlatOne([]);
    var s := StartWith(n, now);
    forall d | 0 <= d < n ensures d in s.reg.cache { assert s.reg.cache[d] == d; }
  }

  lemma {:induction false} TimelyRunInv(cfg: Config, c: nat, run: seq<State>, steps: seq<Step>, n: nat)
    requires cfg.grace > 0 && cfg.hardLimit > 0 && IsTimelyRun(cfg, c, run, steps) && n < |run|
    ensures Inv(run[n]) && OrderInv(run[n]) && CheckInv(run[n]) && GraceInv(cfg, run[n]) && CoverInv(run[n])
    decreases n
  {
    hide Inv, Apply, Enabled, Typed, OrderInv, CheckInv, GraceInv, CoverInv, InOrder, StartWith;
    if n == 0 {
      StartWithInv(run[0], c, run[0].now);
      StartWithGrace(cfg, c, run[0].now);
    } else {
      TimelyRunInv(cfg, c, run, steps, n - 1);
      StepKeepsInv(cfg, run[n - 1], steps[n - 1]);
      StepOrder(cfg, run[n - 1], steps[n - 1]);
      StepGrace(cfg, run[n - 1], steps[n - 1]);
    }
  }

  /**
   With a grace period and a fixed set of bounded queues, no MDC events and no user clocks: if each
   thread's timestamps do not decrease and each event is committed before the clock passes its
   timestamp by more than the grace period, then at every point of every run everything processed so
   far came out in timestamp order.
   */
  lemma GracePeriodOrdersOutput(cfg: Config, c: nat, run: seq<State>, steps: seq<Step>, n: nat)
    requires cfg.grace > 0 && cfg.hardLimit > 0 && IsTimelyRun(cfg, c, run, steps) && n < |run|
    ensures forall i, j :: 0 <= i < j < |run[n].out| ==> run[n].out[i].event.ts <= run[n].out[j].event.ts
  {
    hide Inv, OrderInv, CheckInv, CoverInv, IsTimelyRun, GraceCtx, Drained, LastTs, CutoffAt;
    TimelyRunInv(cfg, c, run, steps, n);
  }
}
