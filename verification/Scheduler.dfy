/**
 The backend scheduler of quill/include/quill/backend/BackendWorker.h as a state machine: frontend
 threads commit events to their queues, the backend moves them to per-thread transit buffers and
 processes the lowest timestamp. One step per shared access; the invariant here is conservation.
 */
module Scheduler {
  import opened Containers

  const UINT64_MAX: nat := 0xffff_ffff_ffff_ffff

  /** A record as the backend sees it; `user` marks a user clock, `bytes` its size in the queue. */
  datatype Event = Event(ts: nat, user: bool, mdc: bool, bytes: nat)

  /**
   A thread context. `all` is everything its producer committed, in program order. `nodes` holds the
   unread events by queue node, the consumer's node first; a bounded queue is a single node.
   */
  datatype Ctx = Ctx(all: seq<Event>, nodes: seq<seq<Event>>, buf: seq<Event>, finished: bool)

  /** The registered contexts, the new-context flag, and the backend's cached list. */
  datatype Registry = Registry(ids: seq<nat>, flag: bool, cache: seq<nat>)

  datatype Output = Output(thread: nat, event: Event)

  datatype Config = Config(grace: nat, hardLimit: nat, softLimit: nat)

  datatype Pc =
    | Idle
    | Copy(checking: bool)
    | Cutoff
    | Reading(i: nat, capacity: nat, got: nat, total: nat)
    | Decide(total: nat)
    | One
    | LoopTop
    | Pending(i: nat)
    | Ready

  /** `horizon` is a snapshot, taken when a pending check begins, of how much each thread committed. */
  datatype State = State(ctxs: seq<Ctx>, reg: Registry, now: nat, cutoff: nat, out: seq<Output>,
                         horizon: seq<nat>, pc: Pc)

  // ---- Queues and filters ----------------------------------------------------------------------

  function Flat(nodes: seq<seq<Event>>): seq<Event> {
    if nodes == [] then [] else nodes[0] + Flat(nodes[1..])
  }

  /** `empty`: the consumer's node is drained and has no successor; EmptyCheck shows that one step may decide it. */
  predicate QueueEmpty(nodes: seq<seq<Event>>) {
    |nodes| == 1 && nodes[0] == []
  }

  /** `prepare_read` leaves a drained node at most once per call. */
  function Hop(nodes: seq<seq<Event>>): seq<seq<Event>>
    requires nodes != []
  {
    if nodes[0] == [] && |nodes| > 1 then nodes[1..] else nodes
  }

  function Pop(nodes: seq<seq<Event>>): seq<seq<Event>>
    requires nodes != [] && nodes[0] != []
  {
    [nodes[0][1..]] + nodes[1..]
  }

  function Append(nodes: seq<seq<Event>>, e: Event): seq<seq<Event>>
    requires nodes != []
  {
    nodes[..|nodes| - 1] + [nodes[|nodes| - 1] + [e]]
  }

  function NonMdc(s: seq<Event>): seq<Event> {
    if s == [] then [] else if s[0].mdc then NonMdc(s[1..]) else [s[0]] + NonMdc(s[1..])
  }

  /** The events of one thread among the processed ones. */
  function Project(out: seq<Output>, d: nat): seq<Event> {
    if out == [] then []
    else Project(out[..|out| - 1], d) + (if out[|out| - 1].thread == d then [out[|out| - 1].event] else [])
  }

  /** What a thread committed that is not yet processed, in program order. */
  function Outstanding(c: Ctx): seq<Event> {
    c.buf + Flat(c.nodes)
  }

  lemma FlatOne(a: seq<Event>)
    ensures Flat([a]) == a
  {
    assert [a][1..] == [];
    assert Flat([a]) == a + Flat([]);
  }

  lemma {:induction false} FlatConcat(a: seq<seq<Event>>, b: seq<seq<Event>>)
    ensures Flat(a + b) == Flat(a) + Flat(b)
  {
    if a == [] {
      assert a + b == b;
    } else {
      FlatConcat(a[1..], b);
      assert (a + b)[1..] == a[1..] + b && (a + b)[0] == a[0];
      var x, y := Flat(a[1..]), Flat(b);
      assert a[0] + (x + y) == (a[0] + x) + y;
    }
  }

  lemma FlatAppend(nodes: seq<seq<Event>>, e: Event)
    requires nodes != []
    ensures Flat(Append(nodes, e)) == Flat(nodes) + [e]
  {
    hide Flat;
    var n := |nodes| - 1;
    FlatConcat(nodes[..n], [nodes[n]]);
    FlatConcat(nodes[..n], [nodes[n] + [e]]);
    FlatOne(nodes[n]);
    FlatOne(nodes[n] + [e]);
    assert nodes == nodes[..n] + [nodes[n]];
  }

  lemma FlatGrow(nodes: seq<seq<Event>>)
    ensures Flat(nodes + [[]]) == Flat(nodes)
  {
    hide Flat;
    FlatConcat(nodes, [[]]);
    FlatOne([]);
  }

  lemma FlatHop(nodes: seq<seq<Event>>)
    requires nodes != []
    ensures Flat(Hop(nodes)) == Flat(nodes)
    ensures Hop(nodes) != [] && (Hop(nodes)[0] != [] || |Hop(nodes)| == 1 || |Hop(nodes)| < |nodes|)
  {}

  lemma FlatPop(nodes: seq<seq<Event>>)
    requires nodes != [] && nodes[0] != []
    ensures Flat(nodes) == [nodes[0][0]] + Flat(Pop(nodes))
  {
    assert Pop(nodes)[1..] == nodes[1..];
  }

  lemma EmptyIsFlat(nodes: seq<seq<Event>>)
    requires QueueEmpty(nodes)
    ensures Flat(nodes) == []
  {
    FlatOne([]);
    assert nodes == [[]];
  }

  lemma {:induction false} NonMdcConcat(a: seq<Event>, b: seq<Event>)
    ensures NonMdc(a + b) == NonMdc(a) + NonMdc(b)
  {
    if a == [] {
      assert a + b == b;
    } else {
      NonMdcConcat(a[1..], b);
      assert (a + b)[1..] == a[1..] + b && (a + b)[0] == a[0];
      var x, y := NonMdc(a[1..]), NonMdc(b);
      assert [a[0]] + (x + y) == ([a[0]] + x) + y;
    }
  }

  lemma NonMdcOne(e: Event)
    ensures NonMdc([e]) == if e.mdc then [] else [e]
  {
    assert [e][1..] == [];
    assert NonMdc([]) == [];
  }

  lemma ProjectNext(out: seq<Output>, o: Output, d: nat)
    ensures Project(out + [o], d) == Project(out, d) + (if o.thread == d then [o.event] else [])
  {
    assert (out + [o])[..|out|] == out;
  }

  // ---- Selection -------------------------------------------------------------------------------

  /** The selection loop: the first context, in cache order, with the lowest head below the initial maximum. */
  function Best(ctxs: seq<Ctx>, cache: seq<nat>): (r: Option<nat>)
    requires forall k :: 0 <= k < |cache| ==> cache[k] < |ctxs|
    ensures r.Some? ==> r.value < |ctxs| && ctxs[r.value].buf != []
  {
    if cache == [] then None else
      var best := Best(ctxs, cache[..|cache| - 1]);
      var d := cache[|cache| - 1];
      if ctxs[d].buf != [] && ctxs[d].buf[0].ts < (if best.Some? then ctxs[best.value].buf[0].ts else UINT64_MAX)
      then Some(d) else best
  }

  /** `_process_lowest_timestamp_transit_event` takes a lone context without comparing. */
  function Pick(ctxs: seq<Ctx>, cache: seq<nat>): (r: Option<nat>)
    requires forall k :: 0 <= k < |cache| ==> cache[k] < |ctxs|
    ensures r.Some? ==> r.value < |ctxs| && ctxs[r.value].buf != []
  {
    if |cache| == 1 then (if ctxs[cache[0]].buf == [] then None else Some(cache[0])) else Best(ctxs, cache)
  }

  lemma {:induction false} BestIsLowest(ctxs: seq<Ctx>, cache: seq<nat>, k: nat)
    requires forall k :: 0 <= k < |cache| ==> cache[k] < |ctxs|
    requires k < |cache| && ctxs[cache[k]].buf != []
    ensures var r := Best(ctxs, cache);
            if r.Some? then ctxs[r.value].buf[0].ts <= ctxs[cache[k]].buf[0].ts else ctxs[cache[k]].buf[0].ts >= UINT64_MAX
  {
    if k + 1 < |cache| { BestIsLowest(ctxs, cache[..|cache| - 1], k); }
  }

  lemma {:induction false} BestIsCached(ctxs: seq<Ctx>, cache: seq<nat>)
    requires forall k :: 0 <= k < |cache| ==> cache[k] < |ctxs|
    ensures var r := Best(ctxs, cache); r.Some? ==> r.value in cache && ctxs[r.value].buf[0].ts < UINT64_MAX
  {
    if cache == [] {
    } else {
      BestIsCached(ctxs, cache[..|cache| - 1]);
    }
  }

  /** The picked event is no later than the head of any cached buffer. */
  lemma PickIsLowest(ctxs: seq<Ctx>, cache: seq<nat>, d: nat)
    requires forall k :: 0 <= k < |cache| ==> cache[k] < |ctxs|
    requires d in cache && ctxs[d].buf != [] && Pick(ctxs, cache).Some?
    ensures ctxs[Pick(ctxs, cache).value].buf[0].ts <= ctxs[d].buf[0].ts
  {
    hide Best;
    var k :| 0 <= k < |cache| && cache[k] == d;
    if |cache| != 1 { BestIsLowest(ctxs, cache, k); }
  }

  /** Of equal heads the one first in the cache is picked. */
  lemma {:induction false} BestIsFirst(ctxs: seq<Ctx>, cache: seq<nat>)
    requires forall k :: 0 <= k < |cache| ==> cache[k] < |ctxs|
    ensures var r := Best(ctxs, cache);
            r.Some? ==>
              exists k :: 0 <= k < |cache| && cache[k] == r.value &&
                forall j :: 0 <= j < k && ctxs[cache[j]].buf != [] ==> ctxs[r.value].buf[0].ts < ctxs[cache[j]].buf[0].ts
  {
    if cache == [] {
    } else {
      var n := |cache| - 1;
      BestIsFirst(ctxs, cache[..n]);
      forall j | 0 <= j < n && ctxs[cache[j]].buf != []
        ensures var b := Best(ctxs, cache[..n]);
                if b.Some? then ctxs[b.value].buf[0].ts <= ctxs[cache[j]].buf[0].ts else ctxs[cache[j]].buf[0].ts >= UINT64_MAX
      {
        BestIsLowest(ctxs, cache[..n], j);
      }
    }
  }

  lemma PickIsCached(ctxs: seq<Ctx>, cache: seq<nat>)
    requires forall k :: 0 <= k < |cache| ==> cache[k] < |ctxs|
    ensures Pick(ctxs, cache).Some? ==> Pick(ctxs, cache).value in cache
    ensures Pick(ctxs, cache).Some? && |cache| != 1 ==> ctxs[Pick(ctxs, cache).value].buf[0].ts < UINT64_MAX
  {
    hide Best;
    BestIsCached(ctxs, cache);
  }

  /**
   Nothing is picked exactly when every cached buffer is empty or, with several contexts, every
   head is stamped with the largest timestamp.
   */
  lemma PickFailsIff(ctxs: seq<Ctx>, cache: seq<nat>)
    requires forall k :: 0 <= k < |cache| ==> cache[k] < |ctxs|
    ensures Pick(ctxs, cache).None? <==>
            forall d :: d in cache && ctxs[d].buf != [] ==> |cache| != 1 && ctxs[d].buf[0].ts >= 0xffff_ffff_ffff_ffff
  {
    hide Best;
    if |cache| != 1 {
      BestIsCached(ctxs, cache);
      if Best(ctxs, cache).None? {
        forall d | d in cache && ctxs[d].buf != [] ensures ctxs[d].buf[0].ts >= UINT64_MAX {
          var k :| 0 <= k < |cache| && cache[k] == d;
          BestIsLowest(ctxs, cache, k);
        }
      }
    }
  }

  // ---- Steps -----------------------------------------------------------------------------------

  datatype Step =
    | Tick(to: nat)
    | Register
    | Commit(d: nat, e: Event)
    | Grow(d: nat)
    | Finish(d: nat)
    | Begin
    | CopyRegistry
    | TakeCutoff(capacity: nat)
    | Read(fails: bool, capacity: nat)
    | Choose(exiting: bool)
    | StartCheck
    | Check
    | Process
    | Retire(d: nat)

  /** Events newer than the grace-period cutoff stay in the queue, unless a user clock stamped them. */
  predicate TooNew(e: Event, cutoff: nat) {
    !e.user && cutoff != UINT64_MAX && e.ts > cutoff
  }

  predicate Typed(s: State) {
    && (forall k :: 0 <= k < |s.reg.cache| ==> s.reg.cache[k] < |s.ctxs|)
    && (forall d :: 0 <= d < |s.ctxs| ==> s.ctxs[d].nodes != [])
    && (s.pc.Reading? ==> s.pc.i <= |s.reg.cache|)
    && (s.pc.Pending? ==> s.pc.i <= |s.reg.cache|)
  }

  predicate Enabled(cfg: Config, s: State, step: Step)
    requires Typed(s)
  {
    match step
    case Tick(to) => s.now <= to < UINT64_MAX
    case Register => true
    case Commit(d, e) => d < |s.ctxs| && !s.ctxs[d].finished && e.bytes > 0 && e.ts <= UINT64_MAX
    case Grow(d) => d < |s.ctxs| && !s.ctxs[d].finished
    case Finish(d) => d < |s.ctxs| && !s.ctxs[d].finished
    case Begin => s.pc.Idle?
    case CopyRegistry => s.pc.Copy?
    case TakeCutoff(capacity) => s.pc.Cutoff? && capacity > 0
    case Read(fails, capacity) =>
      // growing the transit buffer can only fail while the buffer holds events
      && s.pc.Reading? && capacity > 0
      && (fails ==> s.pc.i < |s.reg.cache| && s.ctxs[s.reg.cache[s.pc.i]].buf != [])
    case Choose(_) => s.pc.Decide?
    case StartCheck => s.pc.LoopTop?
    case Check => s.pc.Pending?
    case Process => s.pc.One? || s.pc.Ready?
    case Retire(d) =>
      && (s.pc.Idle? || s.pc.LoopTop?) && d in s.reg.cache
      && s.ctxs[d].finished && QueueEmpty(s.ctxs[d].nodes) && s.ctxs[d].buf == []
  }

  function SetCtx(s: State, d: nat, c: Ctx): State
    requires d < |s.ctxs|
  {
    s.(ctxs := s.ctxs[d := c])
  }

  function CutoffAt(cfg: Config, now: nat): nat {
    if cfg.grace == 0 then UINT64_MAX else if now > cfg.grace then now - cfg.grace else 0
  }

  /** The grace period still holds an event back at this reading of the clock. */
  predicate Held(cfg: Config, e: Event, now: nat) {
    cfg.grace > 0 && !e.user && e.ts > 0 && now < e.ts + cfg.grace
  }

  /** An event is past the cutoff exactly while the clock reads less than its timestamp plus the grace period. */
  lemma TooNewIff(cfg: Config, e: Event, now: nat)
    requires now < UINT64_MAX
    ensures TooNew(e, CutoffAt(cfg, now)) <==> Held(cfg, e, now)
  {}

  /** What one turn of the decoding loop does to a context; None when the loop stops there. */
  function ReadOne(cfg: Config, c: Ctx, cutoff: nat, capacity: nat, got: nat, fails: bool): (r: (Ctx, Option<nat>))
    requires c.nodes != []
    ensures r.0.nodes != []
  {
    if got >= capacity || |c.buf| >= cfg.hardLimit then (c, None) else
      var nodes := Hop(c.nodes);
      if nodes[0] == [] || fails || TooNew(nodes[0][0], cutoff) then (c.(nodes := nodes), None) else
        var e := nodes[0][0];
        (c.(nodes := Pop(nodes), buf := if e.mdc then c.buf else c.buf + [e]), Some(got + e.bytes))
  }

  function DoRead(cfg: Config, s: State, fails: bool, capacity: nat): State
    requires Typed(s) && s.pc.Reading?
  {
    if s.pc.i == |s.reg.cache| then s.(pc := Decide(s.pc.total)) else
      var d := s.reg.cache[s.pc.i];
      var (c, got) := ReadOne(cfg, s.ctxs[d], s.cutoff, s.pc.capacity, s.pc.got, fails);
      SetCtx(s, d, c).(pc :=
        match got
        case Some(n) => s.pc.(got := n)
        case None => Reading(s.pc.i + 1, capacity, 0, s.pc.total + |c.buf|))
  }

  /** The pending check leaves the batch at a context with nothing buffered and something queued. */
  function DoCheck(s: State): State
    requires Typed(s) && s.pc.Pending?
  {
    if s.pc.i == |s.reg.cache| then s.(pc := Ready) else
      var c := s.ctxs[s.reg.cache[s.pc.i]];
      if c.buf == [] && !QueueEmpty(c.nodes) then s.(pc := Idle) else s.(pc := Pending(s.pc.i + 1))
  }

  function DoProcess(s: State): State
    requires Typed(s)
  {
    match Pick(s.ctxs, s.reg.cache)
    case None => s.(pc := Idle)
    case Some(d) =>
      var c := s.ctxs[d];
      SetCtx(s, d, c.(buf := c.buf[1..])).(out := s.out + [Output(d, c.buf[0])], pc := if s.pc.One? then Idle else LoopTop)
  }

  function Committed(ctxs: seq<Ctx>): (h: seq<nat>)
    ensures |h| == |ctxs| && forall d :: 0 <= d < |h| ==> h[d] == |ctxs[d].all|
  {
    seq(|ctxs|, d requires 0 <= d < |ctxs| => |ctxs[d].all|)
  }

  function Apply(cfg: Config, s: State, step: Step): State
    requires Typed(s) && Enabled(cfg, s, step)
  {
    match step
    case Tick(to) => s.(now := to)
    case Register =>
      s.(ctxs := s.ctxs + [Ctx([], [[]], [], false)], reg := s.reg.(ids := s.reg.ids + [|s.ctxs|], flag := true))
    case Commit(d, e) =>
      SetCtx(s, d, s.ctxs[d].(all := s.ctxs[d].all + [e], nodes := Append(s.ctxs[d].nodes, e)))
    case Grow(d) => SetCtx(s, d, s.ctxs[d].(nodes := s.ctxs[d].nodes + [[]]))
    case Finish(d) => SetCtx(s, d, s.ctxs[d].(finished := true))
    case Begin =>
      if s.reg.flag then s.(reg := s.reg.(flag := false), pc := Copy(false)) else s.(pc := Cutoff)
    case CopyRegistry => s.(reg := s.reg.(cache := s.reg.ids), pc := if s.pc.checking then Pending(0) else Cutoff)
    case TakeCutoff(capacity) => s.(cutoff := CutoffAt(cfg, s.now), pc := Reading(0, capacity, 0, 0))
    case Read(fails, capacity) => DoRead(cfg, s, fails, capacity)
    case Choose(exiting) =>
      s.(pc := if s.pc.total == 0 then Idle else if !exiting && s.pc.total < cfg.softLimit then One else LoopTop)
    case StartCheck =>
      var s := s.(horizon := Committed(s.ctxs));
      if s.reg.flag then s.(reg := s.reg.(flag := false), pc := Copy(true)) else s.(pc := Pending(0))
    case Check => DoCheck(s)
    case Process => DoProcess(s)
    case Retire(d) => s.(reg := s.reg.(ids := Without(s.reg.ids, d), cache := Without(s.reg.cache, d)))
  }

  /** After a pass: nothing cached ends the turn; below the soft limit one event is processed, else or at exit a batch. */
  lemma ChooseExact(cfg: Config, s: State, exiting: bool)
    requires Typed(s) && s.pc.Decide?
    ensures var t := Apply(cfg, s, Choose(exiting));
            && t == s.(pc := t.pc) && (t.pc.Idle? || t.pc.One? || t.pc.LoopTop?)
            && (t.pc.Idle? <==> s.pc.total == 0)
            && (t.pc.LoopTop? <==> s.pc.total > 0 && (exiting || s.pc.total >= cfg.softLimit))
  {}

  /** A pass over the queues starts at the first context, with nothing counted, at the cutoff of the clock just read. */
  lemma PassStarts(cfg: Config, s: State, capacity: nat, e: Event)
    requires Typed(s) && s.pc.Cutoff? && capacity > 0 && s.now < UINT64_MAX
    ensures var t := Apply(cfg, s, TakeCutoff(capacity));
            && t == s.(cutoff := t.cutoff, pc := Reading(0, capacity, 0, 0))
            && (TooNew(e, t.cutoff) <==> Held(cfg, e, s.now))
  {}

  /** The pending check of a batch starts with every registered context cached, and notes what is committed by then. */
  lemma CheckStarts(cfg: Config, s: State)
    requires Typed(s) && RegistryInv(s) && s.pc.LoopTop?
    ensures var t := Apply(cfg, s, StartCheck);
            if s.reg.flag then
              && Typed(t) && Enabled(cfg, t, CopyRegistry)
              && Apply(cfg, t, CopyRegistry) ==
                   s.(reg := Registry(s.reg.ids, false, s.reg.ids), horizon := Committed(s.ctxs), pc := Pending(0))
            else t == s.(horizon := Committed(s.ctxs), pc := Pending(0)) && forall d :: d in s.reg.ids ==> d in s.reg.cache
  {}

  /** Processing takes the head of the context picked, and a batch goes on while a single event ends the turn. */
  lemma ProcessExact(cfg: Config, s: State)
    requires Typed(s) && (s.pc.One? || s.pc.Ready?)
    ensures var t, p := Apply(cfg, s, Process), Pick(s.ctxs, s.reg.cache);
            match p
            case None => t == s.(pc := Idle)
            case Some(d) =>
              && t.out == s.out + [Output(d, s.ctxs[d].buf[0])]
              && s.ctxs[d].buf == [s.ctxs[d].buf[0]] + t.ctxs[d].buf
              && t.ctxs == s.ctxs[d := s.ctxs[d].(buf := t.ctxs[d].buf)]
              && t == s.(ctxs := t.ctxs, out := t.out, pc := t.pc)
              && (t.pc.LoopTop? <==> s.pc.Ready?) && (t.pc.Idle? <==> s.pc.One?)
  {
    hide Pick;
  }

  /** Wherever it stands the backend can go on, whatever the outside does. */
  lemma BackendCanStep(cfg: Config, s: State)
    requires Typed(s)
    ensures match s.pc
            case Idle => Enabled(cfg, s, Begin)
            case Copy(_) => Enabled(cfg, s, CopyRegistry)
            case Cutoff => forall capacity: nat :: capacity > 0 ==> Enabled(cfg, s, TakeCutoff(capacity))
            case Reading(_, _, _, _) => forall capacity: nat :: capacity > 0 ==> Enabled(cfg, s, Read(false, capacity))
            case Decide(_) => forall exiting :: Enabled(cfg, s, Choose(exiting))
            case One => Enabled(cfg, s, Process)
            case LoopTop => Enabled(cfg, s, StartCheck)
            case Pending(_) => Enabled(cfg, s, Check)
            case Ready => Enabled(cfg, s, Process)
  {}

  /** A thread that has not finished can always commit an event, and finish; the clock can always go on. */
  lemma FrontendCanStep(cfg: Config, s: State, d: nat, e: Event)
    requires Typed(s) && d < |s.ctxs| && !s.ctxs[d].finished
    ensures Enabled(cfg, s, Commit(d, e)) <==> e.bytes > 0 && e.ts <= 0xffff_ffff_ffff_ffff
    ensures Enabled(cfg, s, Finish(d)) && Enabled(cfg, s, Grow(d)) && Enabled(cfg, s, Register)
    ensures forall to :: s.now <= to < 0xffff_ffff_ffff_ffff ==> Enabled(cfg, s, Tick(to))
  {}

  /** The pending check, run to its end without interference. */
  function CheckAll(s: State): State
    requires Typed(s) && s.pc.Pending?
    decreases |s.reg.cache| - s.pc.i
  {
    var t := DoCheck(s);
    if t.pc.Pending? then CheckAll(t) else t
  }

  /** It passes exactly when no context from here on has an empty buffer and a non-empty queue. */
  lemma {:induction false} CheckAllIff(s: State)
    requires Typed(s) && s.pc.Pending?
    ensures CheckAll(s) == s.(pc := CheckAll(s).pc) && (CheckAll(s).pc.Ready? || CheckAll(s).pc.Idle?)
    ensures CheckAll(s).pc.Ready? <==>
              forall k :: s.pc.i <= k < |s.reg.cache| ==> s.ctxs[s.reg.cache[k]].buf != [] || QueueEmpty(s.ctxs[s.reg.cache[k]].nodes)
    decreases |s.reg.cache| - s.pc.i
  {
    var t := DoCheck(s);
    if t.pc.Pending? { CheckAllIff(t); }
  }

  /** With the flag up, beginning a pass and copying the registry leaves the cache equal to the registry. */
  lemma BeginRefreshes(cfg: Config, s: State)
    requires Typed(s) && s.pc.Idle? && forall k :: 0 <= k < |s.reg.ids| ==> s.reg.ids[k] < |s.ctxs|
    ensures var t := Apply(cfg, s, Begin);
            if s.reg.flag then
              Typed(t) && Enabled(cfg, t, CopyRegistry) &&
              Apply(cfg, t, CopyRegistry) == s.(reg := Registry(s.reg.ids, false, s.reg.ids), pc := Cutoff)
            else t == s.(pc := Cutoff)
  {}

  function Start(now: nat): State {
    State([], Registry([], false, []), now, 0, [], [], Idle)
  }

  // ---- Conservation ----------------------------------------------------------------------------

  /** Every committed event that is not an MDC event is processed, buffered or queued: once, and in program order. */
  predicate Conserved(c: Ctx, done: seq<Event>) {
    NonMdc(c.all) == done + c.buf + NonMdc(Flat(c.nodes))
  }

  /** The queue holds the latest committed events. */
  predicate Suffix(all: seq<Event>, q: seq<Event>) {
    |q| <= |all| && all[|all| - |q|..] == q
  }

  predicate CtxInv(c: Ctx, done: seq<Event>) {
    c.nodes != [] && Conserved(c, done) && Suffix(c.all, Flat(c.nodes))
  }

  predicate Drained(c: Ctx) { c.finished && Outstanding(c) == [] }

  /** The cache may lag behind the registry only while the flag is up or the copy is under way. */
  predicate RegistryInv(s: State) {
    && (forall k :: 0 <= k < |s.reg.ids| ==> s.reg.ids[k] < |s.ctxs|)
    && (forall k :: 0 <= k < |s.reg.cache| ==> s.reg.cache[k] < |s.ctxs|)
    && (s.reg.flag || s.pc.Copy? || forall d :: d in s.reg.ids ==> d in s.reg.cache)
    && (s.pc.Reading? ==> s.pc.i <= |s.reg.cache|)
    && (s.pc.Pending? ==> s.pc.i <= |s.reg.cache|)
  }

  /** Outputs come from existing contexts only. */
  predicate Attributed(s: State) {
    forall i :: 0 <= i < |s.out| ==> s.out[i].thread < |s.ctxs|
  }

  ghost predicate Inv(s: State) {
    && RegistryInv(s)
    && Attributed(s)
    && (forall d :: 0 <= d < |s.ctxs| ==> CtxInv(s.ctxs[d], Project(s.out, d)))
    && (forall d :: 0 <= d < |s.ctxs| ==> d in s.reg.ids || Drained(s.ctxs[d]))
  }

  lemma InvTyped(s: State)
    requires Inv(s)
    ensures Typed(s) && RegistryInv(s) && (s.pc.Reading? || s.pc.Pending? ==> s.pc.i <= |s.reg.cache|)
  {
    hide Conserved, Project, Drained, Flat;
  }

  lemma CommitKeeps(c: Ctx, e: Event, done: seq<Event>)
    requires CtxInv(c, done)
    ensures CtxInv(c.(all := c.all + [e], nodes := Append(c.nodes, e)), done)
  {
    hide Flat, NonMdc, Append;
    SameNodes(c.nodes, e);
    FlatAppend(c.nodes, e);
    NonMdcConcat(c.all, [e]);
    NonMdcConcat(Flat(c.nodes), [e]);
  }

  /** Appending and popping keep the number of nodes. */
  lemma SameNodes(nodes: seq<seq<Event>>, e: Event)
    requires nodes != []
    ensures Append(nodes, e) != [] && |Append(nodes, e)| == |nodes|
    ensures nodes[0] != [] ==> Pop(nodes) != [] && |Pop(nodes)| == |nodes|
  {}

  lemma GrowKeeps(c: Ctx, done: seq<Event>)
    requires CtxInv(c, done)
    ensures CtxInv(c.(nodes := c.nodes + [[]]), done)
  {
    hide Flat, NonMdc;
    FlatGrow(c.nodes);
  }

  /** The oldest queued event moves to the buffer, unless it is an MDC event, which is applied at once. */
  predicate Taken(c: Ctx, r: Ctx, e: Event, cutoff: nat) {
    && Flat(c.nodes) == [e] + Flat(r.nodes)
    && r.buf == (if e.mdc then c.buf else c.buf + [e])
    && !TooNew(e, cutoff)
  }

  /** What one read does: it may leave a drained node; it may move the oldest queued event. */
  lemma ReadOneMoves(cfg: Config, c: Ctx, cutoff: nat, capacity: nat, got: nat, fails: bool)
    requires c.nodes != []
    ensures var (r, n) := ReadOne(cfg, c, cutoff, capacity, got, fails);
            && r.nodes != [] && r.all == c.all && r.finished == c.finished
            && (n.None? ==> r.buf == c.buf && Flat(r.nodes) == Flat(c.nodes))
            && (n.Some? ==> Flat(c.nodes) != [] && Taken(c, r, Flat(c.nodes)[0], cutoff) && |c.buf| < cfg.hardLimit &&
                            n.value == got + Flat(c.nodes)[0].bytes)
  {
    hide Flat, NonMdc, Pop, TooNew, Hop;
    FlatHop(c.nodes);
    var nodes := Hop(c.nodes);
    if nodes[0] != [] {
      FlatPop(nodes);
      NonMdcOne(nodes[0][0]);
      SameNodes(nodes, nodes[0][0]);
    }
  }

  /** When a turn of the decode loop takes nothing. */
  lemma ReadOneStops(cfg: Config, c: Ctx, cutoff: nat, capacity: nat, got: nat, fails: bool)
    requires c.nodes != []
    ensures ReadOne(cfg, c, cutoff, capacity, got, fails).1.None? <==>
              || got >= capacity || |c.buf| >= cfg.hardLimit || fails
              || (c.nodes[0] == [] && (|c.nodes| == 1 || c.nodes[1] == []))
              || TooNew(if c.nodes[0] == [] then c.nodes[1][0] else c.nodes[0][0], cutoff)
  {
    hide Flat, TooNew;
  }

  lemma ReadKeeps(cfg: Config, c: Ctx, cutoff: nat, capacity: nat, got: nat, fails: bool, done: seq<Event>)
    requires CtxInv(c, done)
    ensures CtxInv(ReadOne(cfg, c, cutoff, capacity, got, fails).0, done)
    ensures Drained(c) ==> Drained(ReadOne(cfg, c, cutoff, capacity, got, fails).0)
  {
    hide Flat, NonMdc, ReadOne, TooNew;
    ReadOneMoves(cfg, c, cutoff, capacity, got, fails);
    var (r, n) := ReadOne(cfg, c, cutoff, capacity, got, fails);
    if n.Some? {
      var e := Flat(c.nodes)[0];
      NonMdcConcat([e], Flat(r.nodes));
      NonMdcOne(e);
    }
  }

  lemma ProcessKeeps(c: Ctx, done: seq<Event>)
    requires CtxInv(c, done) && c.buf != []
    ensures CtxInv(c.(buf := c.buf[1..]), done + [c.buf[0]])
  {
    hide Flat, NonMdc;
    assert c.buf == [c.buf[0]] + c.buf[1..];
  }

  /** One context is replaced and nothing else of the invariant's state changes. */
  lemma ReplaceKeeps(s: State, d: nat, c: Ctx)
    requires Inv(s) && d < |s.ctxs|
    requires CtxInv(c, Project(s.out, d)) && (Drained(s.ctxs[d]) ==> Drained(c))
    ensures Inv(SetCtx(s, d, c))
  {
    hide CtxInv, Project, Drained;
  }

  lemma EmptyCtxInv(s: State)
    requires RegistryInv(s)
    ensures CtxInv(Ctx([], [[]], [], false), [])
  {
    FlatOne([]);
    assert NonMdc([]) == [];
  }

  lemma {:induction false} NoOutputYet(out: seq<Output>, d: nat)
    requires forall i :: 0 <= i < |out| ==> out[i].thread != d
    ensures Project(out, d) == []
  {
    if out == [] {
    } else {
      NoOutputYet(out[..|out| - 1], d);
    }
  }

  lemma RegisterKeeps(cfg: Config, s: State)
    requires Inv(s)
    ensures Typed(s) && Inv(Apply(cfg, s, Register))
  {
    hide CtxInv, Project, Drained;
    InvTyped(s);
    EmptyCtxInv(s);
    NoOutputYet(s.out, |s.ctxs|);
  }

  lemma DoReadKeeps(cfg: Config, s: State, fails: bool, capacity: nat)
    requires Inv(s) && s.pc.Reading?
    ensures Typed(s) && Inv(DoRead(cfg, s, fails, capacity))
  {
    hide CtxInv, Project, Drained, ReadOne, Attributed;
    InvTyped(s);
    if s.pc.i < |s.reg.cache| {
      var d := s.reg.cache[s.pc.i];
      var c := ReadOne(cfg, s.ctxs[d], s.cutoff, s.pc.capacity, s.pc.got, fails).0;
      ReadKeeps(cfg, s.ctxs[d], s.cutoff, s.pc.capacity, s.pc.got, fails, Project(s.out, d));
      ReplaceKeeps(s, d, c);
      InvPc(SetCtx(s, d, c), DoRead(cfg, s, fails, capacity));
    } else {
      InvPc(s, DoRead(cfg, s, fails, capacity));
    }
  }

  /** The invariant reads the program counter only through the two loop indexes and the copy. */
  lemma InvPc(s: State, t: State)
    requires Inv(s) && t == s.(pc := t.pc, horizon := t.horizon, now := t.now, cutoff := t.cutoff)
    requires (t.pc.Reading? || t.pc.Pending? ==> t.pc.i <= |s.reg.cache|) && (s.pc.Copy? ==> t.pc.Copy?)
    ensures Inv(t)
  {
    hide CtxInv, Project, Drained;
    assert t.ctxs == s.ctxs && t.reg == s.reg && t.out == s.out;
  }

  lemma DoProcessKeeps(s: State)
    requires Inv(s) && !s.pc.Copy?
    ensures Typed(s) && Inv(DoProcess(s))
  {
    hide CtxInv, Project, Drained, Pick;
    InvTyped(s);
    if Pick(s.ctxs, s.reg.cache).Some? {
      var d := Pick(s.ctxs, s.reg.cache).value;
      var c := s.ctxs[d];
      var t := DoProcess(s);
      ProcessKeeps(c, Project(s.out, d));
      NotDrained(c);
      forall x | 0 <= x < |s.ctxs| ensures CtxInv(t.ctxs[x], Project(t.out, x)) {
        ProjectNext(s.out, Output(d, c.buf[0]), x);
        assert Project(s.out, x) + [] == Project(s.out, x);
      }
    }
  }

  lemma NotDrained(c: Ctx)
    requires c.buf != [] || !c.finished
    ensures !Drained(c)
  {}

  lemma RetireKeeps(cfg: Config, s: State, d: nat)
    requires Inv(s) && Typed(s) && Enabled(cfg, s, Retire(d))
    ensures Inv(Apply(cfg, s, Retire(d)))
  {
    hide CtxInv, Project, Drained, Flat, Without, QueueEmpty;
    var t := Apply(cfg, s, Retire(d));
    EmptyIsDrained(s.ctxs[d]);
    forall k | 0 <= k < |t.reg.ids| ensures t.reg.ids[k] < |s.ctxs| { assert t.reg.ids[k] in t.reg.ids; }
    forall k | 0 <= k < |t.reg.cache| ensures t.reg.cache[k] < |s.ctxs| { assert t.reg.cache[k] in t.reg.cache; }
  }

  lemma EmptyIsDrained(c: Ctx)
    requires c.finished && QueueEmpty(c.nodes) && c.buf == []
    ensures Drained(c)
  {
    hide Flat;
    EmptyIsFlat(c.nodes);
  }

  lemma StepKeepsInv(cfg: Config, s: State, step: Step)
    requires Inv(s) && Typed(s) && Enabled(cfg, s, step)
    ensures Inv(Apply(cfg, s, step))
  {
    hide CtxInv, Project, Drained, Inv, RegistryInv, Attributed, DoRead, DoProcess, DoCheck, Append, Typed, Flat, SetCtx, Committed, Without;
    match step
    case Commit(d, e) => CommitStep(cfg, s, d, e);
    case Grow(d) => GrowStep(cfg, s, d);
    case Finish(d) => FinishStep(cfg, s, d);
    case Register => RegisterKeeps(cfg, s);
    case Read(fails, capacity) => DoReadKeeps(cfg, s, fails, capacity);
    case Process => DoProcessKeeps(s);
    case Retire(d) => RetireKeeps(cfg, s, d);
    case Tick(_) => InvTyped(s); InvPc(s, Apply(cfg, s, step));
    case Choose(_) => InvPc(s, Apply(cfg, s, step));
    case TakeCutoff(_) => InvPc(s, Apply(cfg, s, step));
    case Check => CheckStep(s);
    case Begin => RefreshKeeps(cfg, s, step);
    case StartCheck => RefreshKeeps(cfg, s, step);
    case CopyRegistry => RefreshKeeps(cfg, s, step);
  }

  lemma CommitStep(cfg: Config, s: State, d: nat, e: Event)
    requires Inv(s) && Typed(s) && Enabled(cfg, s, Commit(d, e))
    ensures Inv(Apply(cfg, s, Commit(d, e)))
  {
    hide CtxInv, Project, Drained, Append, Attributed, RegistryInv;
    CommitKeeps(s.ctxs[d], e, Project(s.out, d));
    NotDrained(s.ctxs[d]);
    ReplaceKeeps(s, d, s.ctxs[d].(all := s.ctxs[d].all + [e], nodes := Append(s.ctxs[d].nodes, e)));
  }

  lemma GrowStep(cfg: Config, s: State, d: nat)
    requires Inv(s) && Typed(s) && Enabled(cfg, s, Grow(d))
    ensures Inv(Apply(cfg, s, Grow(d)))
  {
    hide CtxInv, Project, Drained, Attributed, RegistryInv;
    GrowKeeps(s.ctxs[d], Project(s.out, d));
    NotDrained(s.ctxs[d]);
    ReplaceKeeps(s, d, s.ctxs[d].(nodes := s.ctxs[d].nodes + [[]]));
  }

  lemma FinishStep(cfg: Config, s: State, d: nat)
    requires Inv(s) && Typed(s) && Enabled(cfg, s, Finish(d))
    ensures Inv(Apply(cfg, s, Finish(d)))
  {
    hide Project, Flat, NonMdc, Attributed, RegistryInv;
    ReplaceKeeps(s, d, s.ctxs[d].(finished := true));
  }

  lemma CheckStep(s: State)
    requires Inv(s) && Typed(s) && s.pc.Pending?
    ensures Inv(DoCheck(s))
  {
    hide CtxInv, Project, Drained, Attributed;
    InvPc(s, DoCheck(s));
  }

  lemma RefreshKeeps(cfg: Config, s: State, step: Step)
    requires Inv(s) && Typed(s) && Enabled(cfg, s, step) && (step.Begin? || step.StartCheck? || step.CopyRegistry?)
    ensures Inv(Apply(cfg, s, step))
  {
    hide CtxInv, Project, Drained;
    var t := Apply(cfg, s, step);
    assert t.ctxs == s.ctxs && t.out == s.out;
  }

  // ---- Runs ------------------------------------------------------------------------------------

  ghost predicate IsRun(cfg: Config, run: seq<State>, steps: seq<Step>) {
    && |run| == |steps| + 1
    && run[0] == Start(run[0].now)
    && forall i :: 0 <= i < |steps| ==>
         Typed(run[i]) && Enabled(cfg, run[i], steps[i]) && run[i + 1] == Apply(cfg, run[i], steps[i])
  }

  lemma {:induction false} RunInv(cfg: Config, run: seq<State>, steps: seq<Step>, n: nat)
    requires IsRun(cfg, run, steps) && n < |run|
    ensures Inv(run[n])
    decreases n
  {
    hide Inv, Apply, Enabled, Typed;
    if n == 0 {
      StartInv(run[0].now);
    } else {
      RunInv(cfg, run, steps, n - 1);
      StepKeepsInv(cfg, run[n - 1], steps[n - 1]);
    }
  }

  lemma StartInv(now: nat)
    ensures Inv(Start(now))
  {}

  /**
   In every reachable state, whatever the interleaving: each thread's committed events that are not
   MDC events are its processed ones, then its buffered ones, then its queued ones; nothing is lost,
   duplicated or reordered, and a context that was retired had finished and has nothing outstanding.
   */
  lemma EveryRunConserves(cfg: Config, run: seq<State>, steps: seq<Step>, n: nat, d: nat)
    requires IsRun(cfg, run, steps) && n < |run| && d < |run[n].ctxs|
    ensures var s := run[n]; var c := s.ctxs[d];
            && NonMdc(c.all) == Project(s.out, d) + c.buf + NonMdc(Flat(c.nodes))
            && (d !in s.reg.ids ==> c.finished && c.buf == [] && Flat(c.nodes) == [])
  {
    hide NonMdc, Flat, Project, Attributed, RegistryInv, IsRun;
    RunInv(cfg, run, steps, n);
  }
}
