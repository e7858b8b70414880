/**
 In what order the backend processes events: the guarantee of the pending check inside a batch, and
 the guarantee of the grace period over a whole run.
 */
module SchedulerOrder {
  import opened Containers
  import opened Scheduler

  predicate SortedTs(s: seq<Event>) {
    forall i, j :: 0 <= i < j < |s| ==> s[i].ts <= s[j].ts
  }

  /** What a context has outstanding is in timestamp order, and no later than its last commit. */
  predicate Ordered(c: Ctx) {
    && SortedTs(Outstanding(c))
    && (Outstanding(c) != [] ==> c.all != [] && Outstanding(c)[|Outstanding(c)| - 1].ts <= c.all[|c.all| - 1].ts)
  }

  /** Each thread commits with timestamps that do not decrease. */
  predicate InOrder(s: State, step: Step) {
    step.Commit? && step.d < |s.ctxs| && s.ctxs[step.d].all != [] ==>
      s.ctxs[step.d].all[|s.ctxs[step.d].all| - 1].ts <= step.e.ts
  }

  lemma CommitOrdered(c: Ctx, e: Event)
    requires c.nodes != [] && Ordered(c) && (c.all != [] ==> c.all[|c.all| - 1].ts <= e.ts)
    ensures Ordered(c.(all := c.all + [e], nodes := Append(c.nodes, e)))
    ensures Outstanding(c.(all := c.all + [e], nodes := Append(c.nodes, e))) == Outstanding(c) + [e]
  {
    hide Flat, Append;
    FlatAppend(c.nodes, e);
    assert c.buf + (Flat(c.nodes) + [e]) == Outstanding(c) + [e];
  }

  lemma GrowOrdered(c: Ctx)
    requires Ordered(c)
    ensures Ordered(c.(nodes := c.nodes + [[]]))
  {
    hide Flat;
    FlatGrow(c.nodes);
  }

  /** Reading an event leaves the outstanding events as they were, except that an MDC event goes. */
  lemma ReadOrdered(cfg: Config, c: Ctx, cutoff: nat, capacity: nat, got: nat, fails: bool)
    requires c.nodes != [] && Ordered(c)
    ensures Ordered(ReadOne(cfg, c, cutoff, capacity, got, fails).0)
  {
    hide Flat, ReadOne, TooNew;
    ReadOneMoves(cfg, c, cutoff, capacity, got, fails);
    var (r, n) := ReadOne(cfg, c, cutoff, capacity, got, fails);
    if n.Some? {
      var e := Flat(c.nodes)[0];
      if e.mdc {
        SortedWithout(c.buf, e, Flat(r.nodes));
        assert Outstanding(c) == c.buf + ([e] + Flat(r.nodes));
        if Outstanding(r) != [] && Flat(r.nodes) == [] { assert c.buf[|c.buf| - 1] == Outstanding(c)[|c.buf| - 1]; }
      } else {
        assert c.buf + ([e] + Flat(r.nodes)) == (c.buf + [e]) + Flat(r.nodes);
      }
    }
  }

  lemma SortedWithout(a: seq<Event>, e: Event, b: seq<Event>)
    requires SortedTs(a + ([e] + b))
    ensures SortedTs(a + b)
  {
    var s, t := a + ([e] + b), a + b;
    forall i, j | 0 <= i < j < |t| ensures t[i].ts <= t[j].ts {
      var x, y := if i < |a| then i else i + 1, if j < |a| then j else j + 1;
      assert t[i] == s[x] && t[j] == s[y];
    }
  }

  lemma ProcessOrdered(c: Ctx)
    requires c.buf != [] && Ordered(c)
    ensures Ordered(c.(buf := c.buf[1..]))
    ensures Outstanding(c.(buf := c.buf[1..])) == Outstanding(c)[1..]
  {
    hide Flat;
    assert c.buf[1..] + Flat(c.nodes) == (c.buf + Flat(c.nodes))[1..];
  }

  // ---- The pending check -----------------------------------------------------------------------

  /** With an empty buffer, nothing queued is older than the horizon. */
  predicate Checked(c: Ctx, h: nat) {
    c.buf == [] ==> h + |Flat(c.nodes)| <= |c.all|
  }

  /** The contexts the running check has been through. */
  function Passed(s: State): nat {
    if s.pc.Pending? then s.pc.i else if s.pc.Ready? then |s.reg.cache| else 0
  }

  ghost predicate OrderInv(s: State) {
    && |s.horizon| <= |s.ctxs|
    && (forall d :: 0 <= d < |s.ctxs| ==> Ordered(s.ctxs[d]))
    && (forall d :: 0 <= d < |s.horizon| ==> s.horizon[d] <= |s.ctxs[d].all|)
  }

  ghost predicate CheckInv(s: State)
    requires |s.horizon| <= |s.ctxs|
  {
    && Passed(s) <= |s.reg.cache|
    && (s.pc.Pending? || s.pc.Ready? ==> forall d :: d in s.reg.ids && d < |s.horizon| ==> d in s.reg.cache)
    && (forall k :: 0 <= k < Passed(s) && s.reg.cache[k] < |s.horizon| ==>
          Checked(s.ctxs[s.reg.cache[k]], s.horizon[s.reg.cache[k]]))
  }

  lemma ReplaceOrdered(s: State, d: nat, c: Ctx)
    requires OrderInv(s) && d < |s.ctxs| && Ordered(c) && |s.ctxs[d].all| <= |c.all|
    ensures OrderInv(SetCtx(s, d, c))
  {
    hide Ordered;
  }

  lemma ReplaceChecked(s: State, d: nat, c: Ctx)
    requires OrderInv(s) && CheckInv(s) && d < |s.ctxs|
    requires forall h: nat :: Checked(s.ctxs[d], h) && h <= |s.ctxs[d].all| ==> Checked(c, h)
    ensures |s.horizon| <= |s.ctxs| && CheckInv(SetCtx(s, d, c))
  {
    hide Ordered, Checked;
  }

  lemma CommitChecked(c: Ctx, e: Event, h: nat)
    requires c.nodes != [] && Checked(c, h)
    ensures Checked(c.(all := c.all + [e], nodes := Append(c.nodes, e)), h)
  {
    hide Flat, Append;
    FlatAppend(c.nodes, e);
  }

  /** The backend steps that leave every context alone. */
  predicate Quiet(step: Step) {
    step.Tick? || step.Begin? || step.CopyRegistry? || step.TakeCutoff? || step.Choose? || step.Check? || step.Retire? || step.StartCheck?
  }

  lemma QuietOrder(cfg: Config, s: State, step: Step)
    requires Inv(s) && Typed(s) && Enabled(cfg, s, step) && Quiet(step) && OrderInv(s) && CheckInv(s)
    ensures var t := Apply(cfg, s, step); OrderInv(t) && CheckInv(t)
  {
    hide Ordered, Checked, Inv, Without, Flat, QueueEmpty;
    InvTyped(s);
    match step
    case Check => CheckAdvances(s);
    case _ => 
  }

  lemma CheckAdvances(s: State)
    requires Inv(s) && Typed(s) && s.pc.Pending? && OrderInv(s) && CheckInv(s)
    ensures OrderInv(DoCheck(s)) && CheckInv(DoCheck(s))
  {
    hide Ordered, Inv, Flat;
    InvTyped(s);
    if s.pc.i < |s.reg.cache| {
      var c := s.ctxs[s.reg.cache[s.pc.i]];
      if QueueEmpty(c.nodes) { EmptyIsFlat(c.nodes); }
    }
  }

  lemma StepOrder(cfg: Config, s: State, step: Step)
    requires Inv(s) && Typed(s) && Enabled(cfg, s, step) && InOrder(s, step)
    requires OrderInv(s) && CheckInv(s)
    ensures var t := Apply(cfg, s, step); OrderInv(t) && CheckInv(t)
  {
    hide Inv, OrderInv, CheckInv, Apply, InOrder, Typed, Enabled;
    match step
    case Commit(d, e) => CommitOrder(cfg, s, d, e);
    case Grow(d) => GrowOrder(cfg, s, d);
    case Finish(d) => FinishOrder(cfg, s, d);
    case Register => RegisterOrder(cfg, s);
    case Read(fails, capacity) => ReadOrder(cfg, s, fails, capacity);
    case Process => ProcessOrder(cfg, s);
    case _ => QuietOrder(cfg, s, step);
  }

  lemma CommitOrder(cfg: Config, s: State, d: nat, e: Event)
    requires Inv(s) && Typed(s) && Enabled(cfg, s, Commit(d, e)) && InOrder(s, Commit(d, e)) && OrderInv(s) && CheckInv(s)
    ensures var t := Apply(cfg, s, Commit(d, e)); OrderInv(t) && CheckInv(t)
  {
    hide Ordered, Checked, Inv, CheckInv, Append;
    var c := s.ctxs[d].(all := s.ctxs[d].all + [e], nodes := Append(s.ctxs[d].nodes, e));
    CommitOrdered(s.ctxs[d], e);
    ReplaceOrdered(s, d, c);
    forall h: nat | Checked(s.ctxs[d], h) ensures Checked(c, h) { CommitChecked(s.ctxs[d], e, h); }
    ReplaceChecked(s, d, c);
  }

  lemma GrowOrder(cfg: Config, s: State, d: nat)
    requires Inv(s) && Typed(s) && Enabled(cfg, s, Grow(d)) && OrderInv(s) && CheckInv(s)
    ensures var t := Apply(cfg, s, Grow(d)); OrderInv(t) && CheckInv(t)
  {
    hide Ordered, Flat, Inv, CheckInv;
    var c := s.ctxs[d].(nodes := s.ctxs[d].nodes + [[]]);
    GrowOrdered(s.ctxs[d]);
    FlatGrow(s.ctxs[d].nodes);
    ReplaceOrdered(s, d, c);
    ReplaceChecked(s, d, c);
  }

  lemma FinishOrder(cfg: Config, s: State, d: nat)
    requires Inv(s) && Typed(s) && Enabled(cfg, s, Finish(d)) && OrderInv(s) && CheckInv(s)
    ensures var t := Apply(cfg, s, Finish(d)); OrderInv(t) && CheckInv(t)
  {
    hide Flat, Inv, CheckInv, SortedTs;
    var c := s.ctxs[d].(finished := true);
    ReplaceOrdered(s, d, c);
    ReplaceChecked(s, d, c);
  }

  lemma RegisterOrder(cfg: Config, s: State)
    requires Inv(s) && Typed(s) && OrderInv(s) && CheckInv(s)
    ensures var t := Apply(cfg, s, Register); OrderInv(t) && CheckInv(t)
  {
    hide Ordered, Checked, Inv;
    FreshOrdered();
    InvTyped(s);
  }

  lemma FreshOrdered()
    ensures Ordered(Ctx([], [[]], [], false))
  {
    FlatOne([]);
  }

  lemma ReadOrder(cfg: Config, s: State, fails: bool, capacity: nat)
    requires Inv(s) && Typed(s) && Enabled(cfg, s, Read(fails, capacity)) && OrderInv(s) && CheckInv(s)
    ensures var t := Apply(cfg, s, Read(fails, capacity)); OrderInv(t) && CheckInv(t)
  {
    hide Ordered, Checked, Inv, ReadOne;
    if s.pc.i < |s.reg.cache| {
      var d := s.reg.cache[s.pc.i];
      ReadOneMoves(cfg, s.ctxs[d], s.cutoff, s.pc.capacity, s.pc.got, fails);
      ReadOrdered(cfg, s.ctxs[d], s.cutoff, s.pc.capacity, s.pc.got, fails);
      ReplaceOrdered(s, d, ReadOne(cfg, s.ctxs[d], s.cutoff, s.pc.capacity, s.pc.got, fails).0);
    }
    var t := Apply(cfg, s, Read(fails, capacity));
    assert OrderInv(t);
    hide OrderInv;
    assert Passed(t) == 0;
  }

  lemma ProcessOrder(cfg: Config, s: State)
    requires Inv(s) && Typed(s) && Enabled(cfg, s, Process) && OrderInv(s) && CheckInv(s)
    ensures var t := Apply(cfg, s, Process); OrderInv(t) && CheckInv(t)
  {
    hide Ordered, Checked, Inv, Pick;
    if Pick(s.ctxs, s.reg.cache).Some? {
      var d := Pick(s.ctxs, s.reg.cache).value;
      ProcessOrdered(s.ctxs[d]);
      ReplaceOrdered(s, d, s.ctxs[d].(buf := s.ctxs[d].buf[1..]));
    }
  }

  /**
   Everything a context had committed when the check began, and that is still buffered or queued,
   is no earlier than e. `c.all[i]` for i from `|c.all| - |Flat(c.nodes)|` on are the queued events.
   */
  predicate NoEarlier(e: Event, c: Ctx, h: nat) {
    && (forall x :: x in c.buf ==> e.ts <= x.ts)
    && (forall i :: 0 <= i < |c.all| && |c.all| - |Flat(c.nodes)| <= i < h ==> e.ts <= c.all[i].ts)
  }

  lemma HeadIsEarliest(c: Ctx, e: Event, h: nat, done: seq<Event>)
    requires Ordered(c) && CtxInv(c, done) && h <= |c.all| && Checked(c, h)
    requires c.buf != [] ==> e.ts <= c.buf[0].ts
    ensures NoEarlier(e, c, h)
  {
    hide Flat, NonMdc;
    var q := Flat(c.nodes);
    var o := Outstanding(c);
    if c.buf != [] {
      assert o[0] == c.buf[0];
      forall x | x in c.buf ensures e.ts <= x.ts {
        var j :| 0 <= j < |c.buf| && c.buf[j] == x;
        assert o[j] == x;
      }
      forall i | 0 <= i < |c.all| && |c.all| - |q| <= i < h ensures e.ts <= c.all[i].ts {
        var j := i - (|c.all| - |q|);
        assert c.all[i] == q[j] == o[|c.buf| + j];
      }
    }
  }

  /**
   When the pending check has passed, the event about to be processed is no later than any event,
   cached or queued in any context, that was committed before the check began.
   */
  lemma BatchPicksEarliest(s: State, d: nat)
    requires Inv(s) && Typed(s) && OrderInv(s) && CheckInv(s) && s.pc.Ready?
    requires Pick(s.ctxs, s.reg.cache).Some? && d < |s.horizon|
    ensures var e := s.ctxs[Pick(s.ctxs, s.reg.cache).value].buf[0]; NoEarlier(e, s.ctxs[d], s.horizon[d])
  {
    hide Ordered, Checked, NoEarlier, Pick, CtxInv, Project, Attributed, Drained;
    var e := s.ctxs[Pick(s.ctxs, s.reg.cache).value].buf[0];
    var c := s.ctxs[d];
    if d in s.reg.ids {
      var k :| 0 <= k < |s.reg.cache| && s.reg.cache[k] == d;
      if c.buf != [] { PickIsLowest(s.ctxs, s.reg.cache, d); }
      HeadIsEarliest(c, e, s.horizon[d], Project(s.out, d));
    } else {
      DrainedChecked(c, s.horizon[d]);
      HeadIsEarliest(c, e, s.horizon[d], Project(s.out, d));
    }
  }

  lemma DrainedChecked(c: Ctx, h: nat)
    requires Drained(c) && h <= |c.all|
    ensures Checked(c, h) && c.buf == []
  {
    hide Flat;
  }

  ghost predicate IsOrderedRun(cfg: Config, run: seq<State>, steps: seq<Step>) {
    IsRun(cfg, run, steps) && forall i :: 0 <= i < |steps| ==> InOrder(run[i], steps[i])
  }

  lemma {:induction false} OrderedRunInv(cfg: Config, run: seq<State>, steps: seq<Step>, n: nat)
    requires IsOrderedRun(cfg, run, steps) && n < |run|
    ensures Inv(run[n]) && OrderInv(run[n]) && CheckInv(run[n])
    decreases n
  {
    hide Inv, Apply, Enabled, Typed, OrderInv, CheckInv, InOrder;
    RunInv(cfg, run, steps, n);
    if n == 0 {
      StartOrdered(run[0].now);
    } else {
      OrderedRunInv(cfg, run, steps, n - 1);
      StepOrder(cfg, run[n - 1], steps[n - 1]);
    }
  }

  lemma StartOrdered(now: nat)
    ensures OrderInv(Start(now)) && CheckInv(Start(now))
  {}

  /**
   Over every run in which each thread's timestamps do not decrease, with MDC events, user clocks
   and contexts registered or retired along the way, whatever the grace period: each event processed
   in a batch or in the drain is no later than every event that was committed before that turn's
   pending check began and is still outstanding anywhere.
   */
  lemma EveryBatchIsOrdered(cfg: Config, run: seq<State>, steps: seq<Step>, n: nat, d: nat)
    requires IsOrderedRun(cfg, run, steps) && n < |run|
    requires run[n].pc.Ready? && Typed(run[n]) && Pick(run[n].ctxs, run[n].reg.cache).Some? && d < |run[n].horizon|
    ensures d < |run[n].ctxs| &&
            NoEarlier(run[n].ctxs[Pick(run[n].ctxs, run[n].reg.cache).value].buf[0], run[n].ctxs[d], run[n].horizon[d])
  {
    hide Inv, CheckInv, IsRun, Typed, NoEarlier, Pick, Ordered, InOrder;
    OrderedRunInv(cfg, run, steps, n);
    BatchPicksEarliest(run[n], d);
  }
}
