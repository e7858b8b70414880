/**
 The registry of thread contexts in quill/include/quill/core/ThreadContextManager.h: registration
 and its flag, invalidation and its counter, and removal by the backend. One step per atomic access.
 */
module ThreadContexts {
  import opened Containers

  const UINT32: int := 0x1_0000_0000

  /** How far the owner thread got: registering holds the lock, marking and counting are separate. */
  datatype Phase = New | Registering | Announced | Active | Marked | Counted

  /** Records committed by the owner, and where they are: processed, buffered or queued. */
  datatype Ctx = Ctx(phase: Phase, removed: bool, all: seq<nat>, done: seq<nat>, buf: seq<nat>, queue: seq<nat>)

  datatype Pc = Idle | Clearing | Scan | Finding(i: nat) | QueueLook(i: nat) | BufLook(i: nat) | Removing(i: nat)

  datatype State = State(ctxs: seq<Ctx>, list: seq<nat>, locked: bool, flag: bool, cache: seq<nat>, count: int, pc: Pc)

  datatype Step =
    | Push(c: nat)
    | StoreFlag(c: nat)
    | Unlock(c: nat)
    | Commit(c: nat, record: nat)
    | MarkInvalid(c: nat)
    | AddInvalid(c: nat)
    | LoadFlag
    | ClearFlag
    | ForceScan
    | CopyList
    | Decode(c: nat)
    | ProcessOne(c: nat)
    | LoadCount
    | LoadValid
    | LoadQueue
    | LoadBuf
    | Remove

  predicate Invalid(c: Ctx) { c.phase.Marked? || c.phase.Counted? }

  /** fetch_add and fetch_sub on a uint32_t. */
  function Increment(count: int): int { if count + 1 == UINT32 then 0 else count + 1 }
  function Decrement(count: int): int { if count == 0 then UINT32 - 1 else count - 1 }

  predicate Typed(s: State) {
    && (forall k :: 0 <= k < |s.cache| ==> s.cache[k] < |s.ctxs|)
    && (match s.pc
        case Finding(i) => i <= |s.cache|
        case QueueLook(i) => i < |s.cache|
        case BufLook(i) => i < |s.cache|
        case Removing(i) => i < |s.cache|
        case _ => true)
  }

  predicate Enabled(s: State, step: Step)
    requires Typed(s)
  {
    match step
    case Push(c) => c < |s.ctxs| && s.ctxs[c].phase.New? && !s.locked
    case StoreFlag(c) => c < |s.ctxs| && s.ctxs[c].phase.Registering?
    case Unlock(c) => c < |s.ctxs| && s.ctxs[c].phase.Announced?
    case Commit(c, _) => c < |s.ctxs| && s.ctxs[c].phase.Active?
    case MarkInvalid(c) => c < |s.ctxs| && s.ctxs[c].phase.Active?
    case AddInvalid(c) => c < |s.ctxs| && s.ctxs[c].phase.Marked?
    case LoadFlag => s.pc.Idle?
    case ClearFlag => s.pc.Clearing?
    case ForceScan => s.pc.Idle?
    case CopyList => s.pc.Scan? && !s.locked
    case Decode(c) => s.pc.Idle? && c in s.cache && s.ctxs[c].queue != []
    case ProcessOne(c) => s.pc.Idle? && c in s.cache && s.ctxs[c].buf != []
    case LoadCount => s.pc.Idle?
    case LoadValid => s.pc.Finding?
    case LoadQueue => s.pc.QueueLook?
    case LoadBuf => s.pc.BufLook?
    case Remove => s.pc.Removing? && !s.locked
  }

  function SetCtx(s: State, c: nat, x: Ctx): State
    requires c < |s.ctxs|
  {
    s.(ctxs := s.ctxs[c := x])
  }

  /** The search stops at the end of the cache; otherwise it looks at the next context. */
  function Next(s: State, i: nat, ok: bool, pc: Pc): State {
    s.(pc := if ok then pc else Finding(i + 1))
  }

  function Apply(s: State, step: Step): State
    requires Typed(s) && Enabled(s, step)
  {
    match step
    case Push(c) => SetCtx(s, c, s.ctxs[c].(phase := Registering)).(locked := true, list := s.list + [c])
    case StoreFlag(c) => SetCtx(s, c, s.ctxs[c].(phase := Announced)).(flag := true)
    case Unlock(c) => SetCtx(s, c, s.ctxs[c].(phase := Active)).(locked := false)
    case Commit(c, record) =>
      SetCtx(s, c, s.ctxs[c].(all := s.ctxs[c].all + [record], queue := s.ctxs[c].queue + [record]))
    case MarkInvalid(c) => SetCtx(s, c, s.ctxs[c].(phase := Marked))
    case AddInvalid(c) => SetCtx(s, c, s.ctxs[c].(phase := Counted)).(count := Increment(s.count))
    case LoadFlag => if s.flag then s.(pc := Clearing) else s
    case ClearFlag => s.(flag := false, pc := Scan)
    case ForceScan => s.(pc := Scan)
    case CopyList => s.(cache := s.list, pc := Idle)
    case Decode(c) =>
      SetCtx(s, c, s.ctxs[c].(buf := s.ctxs[c].buf + [s.ctxs[c].queue[0]], queue := s.ctxs[c].queue[1..]))
    case ProcessOne(c) =>
      SetCtx(s, c, s.ctxs[c].(done := s.ctxs[c].done + [s.ctxs[c].buf[0]], buf := s.ctxs[c].buf[1..]))
    case LoadCount => if s.count != 0 then s.(pc := Finding(0)) else s
    case LoadValid =>
      if s.pc.i == |s.cache| then s.(pc := Idle)
      else Next(s, s.pc.i, Invalid(s.ctxs[s.cache[s.pc.i]]), QueueLook(s.pc.i))
    case LoadQueue => Next(s, s.pc.i, s.ctxs[s.cache[s.pc.i]].queue == [], BufLook(s.pc.i))
    case LoadBuf => Next(s, s.pc.i, s.ctxs[s.cache[s.pc.i]].buf == [], Removing(s.pc.i))
    case Remove =>
      var c := s.cache[s.pc.i];
      SetCtx(s, c, s.ctxs[c].(removed := true)).(
        list := Without(s.list, c), cache := Without(s.cache, c), count := Decrement(s.count), pc := Finding(0))
  }

  /** A record goes from the end of the queue to the buffer and from there to what is processed. */
  lemma RecordsMove(s: State, c: nat, record: nat)
    requires Typed(s) && c < |s.ctxs|
    ensures Enabled(s, Commit(c, record)) ==>
              Apply(s, Commit(c, record)).ctxs[c] ==
              s.ctxs[c].(all := s.ctxs[c].all + [record], queue := s.ctxs[c].queue + [record])
    ensures Enabled(s, Decode(c)) ==>
              var t := Apply(s, Decode(c)).ctxs[c];
              s.ctxs[c].queue == [s.ctxs[c].queue[0]] + t.queue && t.buf == s.ctxs[c].buf + [s.ctxs[c].queue[0]] && t.done == s.ctxs[c].done
    ensures Enabled(s, ProcessOne(c)) ==>
              var t := Apply(s, ProcessOne(c)).ctxs[c];
              s.ctxs[c].buf == [s.ctxs[c].buf[0]] + t.buf && t.done == s.ctxs[c].done + [s.ctxs[c].buf[0]] && t.queue == s.ctxs[c].queue
  {}

  /** The backend waits for nothing but the lock, and a thread only to take it. */
  lemma CanStep(s: State, c: nat)
    requires Typed(s)
    ensures match s.pc
            case Idle => Enabled(s, LoadFlag) && Enabled(s, ForceScan) && Enabled(s, LoadCount)
            case Clearing => Enabled(s, ClearFlag)
            case Scan => Enabled(s, CopyList) <==> !s.locked
            case Finding(_) => Enabled(s, LoadValid)
            case QueueLook(_) => Enabled(s, LoadQueue)
            case BufLook(_) => Enabled(s, LoadBuf)
            case Removing(_) => Enabled(s, Remove) <==> !s.locked
    ensures c < |s.ctxs| ==>
              match s.ctxs[c].phase
              case New => Enabled(s, Push(c)) <==> !s.locked
              case Registering => Enabled(s, StoreFlag(c))
              case Announced => Enabled(s, Unlock(c))
              case Active => Enabled(s, MarkInvalid(c)) && forall record :: Enabled(s, Commit(c, record))
              case Marked => Enabled(s, AddInvalid(c))
              case Counted => true
  {}

  function Start(n: nat): State {
    State(seq(n, _ => Ctx(New, false, [], [], [], [])), [], false, false, [], 0, Idle)
  }

  // ---- Counting --------------------------------------------------------------------------------

  /** What a context has contributed to the counter so far. */
  function Weight(c: Ctx): int { (if c.phase.Counted? then 1 else 0) - (if c.removed then 1 else 0) }

  function Total(ctxs: seq<Ctx>): int {
    if ctxs == [] then 0 else Total(ctxs[..|ctxs| - 1]) + Weight(ctxs[|ctxs| - 1])
  }

  /** Invalid contexts still registered. */
  function InvalidRegistered(ctxs: seq<Ctx>): nat {
    if ctxs == [] then 0
    else InvalidRegistered(ctxs[..|ctxs| - 1]) + (if Invalid(ctxs[|ctxs| - 1]) && !ctxs[|ctxs| - 1].removed then 1 else 0)
  }

  /** Threads between marking their context and counting it. */
  function Between(ctxs: seq<Ctx>): nat {
    if ctxs == [] then 0
    else Between(ctxs[..|ctxs| - 1]) + (if ctxs[|ctxs| - 1].phase.Marked? then 1 else 0)
  }

  lemma {:induction false} TotalUpdate(ctxs: seq<Ctx>, c: nat, x: Ctx)
    requires c < |ctxs|
    ensures Total(ctxs[c := x]) == Total(ctxs) - Weight(ctxs[c]) + Weight(x)
  {
    hide Weight;
    var n := |ctxs| - 1;
    if c < n {
      TotalUpdate(ctxs[..n], c, x);
      assert ctxs[c := x][..n] == ctxs[..n][c := x];
    } else {
      assert ctxs[c := x][..n] == ctxs[..n];
    }
  }

  lemma {:induction false} TotalIsDifference(ctxs: seq<Ctx>)
    requires forall c :: 0 <= c < |ctxs| && ctxs[c].removed ==> Invalid(ctxs[c])
    ensures Total(ctxs) == InvalidRegistered(ctxs) - Between(ctxs)
  {
    if ctxs == [] {
    } else {
      TotalIsDifference(ctxs[..|ctxs| - 1]);
    }
  }

  // ---- The invariant ---------------------------------------------------------------------------

  predicate CtxInv(c: Ctx) {
    && c.all == c.done + c.buf + c.queue
    && (c.removed ==> Invalid(c) && c.buf == [] && c.queue == [])
  }

  /** A completed registration is cached, or announced by the flag, or about to be seen by the scan. */
  ghost predicate RegistrationInv(s: State) {
    && (forall c :: c in s.list <==> 0 <= c < |s.ctxs| && !s.ctxs[c].phase.New? && !s.ctxs[c].removed)
    && (forall c :: c in s.cache ==> c in s.list)
    && (s.flag || s.pc.Scan? || forall c :: c in s.list && !s.ctxs[c].phase.Registering? ==> c in s.cache)
    && (s.pc.Clearing? ==> s.flag)
    && (s.locked <==> exists c :: 0 <= c < |s.ctxs| && InLock(s.ctxs[c]))
    && (forall c, d :: 0 <= c < |s.ctxs| && 0 <= d < |s.ctxs| && InLock(s.ctxs[c]) && InLock(s.ctxs[d]) ==> c == d)
  }

  predicate InLock(c: Ctx) { c.phase.Registering? || c.phase.Announced? }

  /** What the search has established about the context it looks at. */
  predicate SearchInv(s: State)
    requires Typed(s)
  {
    match s.pc
    case QueueLook(i) => Invalid(s.ctxs[s.cache[i]])
    case BufLook(i) => Invalid(s.ctxs[s.cache[i]]) && s.ctxs[s.cache[i]].queue == []
    case Removing(i) => Invalid(s.ctxs[s.cache[i]]) && s.ctxs[s.cache[i]].queue == [] && s.ctxs[s.cache[i]].buf == []
    case _ => true
  }

  predicate CountInv(s: State) {
    0 <= s.count < UINT32 && s.count == Total(s.ctxs) % UINT32
  }

  ghost predicate Inv(s: State) {
    && Typed(s)
    && (forall c :: 0 <= c < |s.ctxs| ==> CtxInv(s.ctxs[c]))
    && RegistrationInv(s)
    && SearchInv(s)
    && CountInv(s)
  }

  /** Replacing a context by one of the same standing. */
  predicate SameStanding(c: Ctx, x: Ctx) {
    && CtxInv(x) && c.removed == x.removed && Weight(x) == Weight(c)
    && c.phase.New? == x.phase.New? && c.phase.Registering? == x.phase.Registering? && InLock(c) == InLock(x)
    && (Invalid(c) ==> Invalid(x) && (c.queue == [] ==> x.queue == []) && (c.buf == [] ==> x.buf == []))
  }

  /** Registration does not depend on what a context holds, nor on how invalid it is. */
  lemma RegistrationSame(s: State, c: nat, x: Ctx)
    requires RegistrationInv(s) && c < |s.ctxs| && InLock(s.ctxs[c]) == InLock(x) && s.ctxs[c].removed == x.removed
    requires s.ctxs[c].phase.New? == x.phase.New? && s.ctxs[c].phase.Registering? == x.phase.Registering?
    ensures RegistrationInv(SetCtx(s, c, x))
  {
    hide InLock;
    if s.locked {
      var d :| 0 <= d < |s.ctxs| && InLock(s.ctxs[d]);
      assert InLock(s.ctxs[c := x][d]);
    }
  }

  lemma RegistrationCount(s: State, count: int)
    requires RegistrationInv(s)
    ensures RegistrationInv(s.(count := count))
  {}

  lemma TypedSame(s: State, c: nat, x: Ctx)
    requires Typed(s) && c < |s.ctxs|
    ensures Typed(SetCtx(s, c, x))
  {}

  lemma ReplaceKeeps(s: State, c: nat, x: Ctx)
    requires Inv(s) && c < |s.ctxs| && SameStanding(s.ctxs[c], x)
    ensures Inv(SetCtx(s, c, x))
  {
    hide CtxInv, Weight, Total, RegistrationInv, InLock, Typed, SearchInv;
    TotalUpdate(s.ctxs, c, x);
    RegistrationSame(s, c, x);
    SearchSame(s, c, x, SetCtx(s, c, x));
  }

  lemma CommitStep(s: State, c: nat, record: nat)
    requires Inv(s) && Enabled(s, Commit(c, record))
    ensures Inv(Apply(s, Commit(c, record)))
  {
    hide RegistrationInv, SearchInv, CountInv;
    var x := s.ctxs[c];
    assert (x.done + x.buf + x.queue) + [record] == x.done + x.buf + (x.queue + [record]);
    ReplaceKeeps(s, c, x.(all := x.all + [record], queue := x.queue + [record]));
  }

  lemma MarkStep(s: State, c: nat)
    requires Inv(s) && Enabled(s, MarkInvalid(c))
    ensures Inv(Apply(s, MarkInvalid(c)))
  {
    hide RegistrationInv, SearchInv, CountInv;
    ReplaceKeeps(s, c, s.ctxs[c].(phase := Marked));
  }

  lemma DecodeStep(s: State, c: nat)
    requires Inv(s) && Enabled(s, Decode(c))
    ensures Inv(Apply(s, Decode(c)))
  {
    hide RegistrationInv, SearchInv, CountInv, Weight;
    var x := s.ctxs[c];
    assert x.queue == [x.queue[0]] + x.queue[1..];
    assert x.done + x.buf + ([x.queue[0]] + x.queue[1..]) == x.done + (x.buf + [x.queue[0]]) + x.queue[1..];
    DecodedStanding(s, c, x.(buf := x.buf + [x.queue[0]], queue := x.queue[1..]));
  }

  lemma ProcessStep(s: State, c: nat)
    requires Inv(s) && Enabled(s, ProcessOne(c))
    ensures Inv(Apply(s, ProcessOne(c)))
  {
    hide RegistrationInv, SearchInv, CountInv, Weight;
    var x := s.ctxs[c];
    assert x.buf == [x.buf[0]] + x.buf[1..];
    assert x.done + ([x.buf[0]] + x.buf[1..]) + x.queue == (x.done + [x.buf[0]]) + x.buf[1..] + x.queue;
    DecodedStanding(s, c, x.(done := x.done + [x.buf[0]], buf := x.buf[1..]));
  }

  /** While the backend decodes it is not searching, so buffers may fill up. */
  lemma DecodedStanding(s: State, c: nat, x: Ctx)
    requires Inv(s) && s.pc.Idle? && c < |s.ctxs| && CtxInv(x)
    requires s.ctxs[c].phase == x.phase && s.ctxs[c].removed == x.removed
    ensures Inv(SetCtx(s, c, x))
  {
    hide CtxInv, Total, RegistrationInv, Typed;
    TotalUpdate(s.ctxs, c, x);
    RegistrationSame(s, c, x);
    TypedSame(s, c, x);
  }

  lemma PushStep(s: State, c: nat)
    requires Inv(s) && Enabled(s, Push(c))
    ensures Inv(Apply(s, Push(c)))
  {
    hide Total, Typed, SearchInv;
    var x := s.ctxs[c].(phase := Registering);
    TotalUpdate(s.ctxs, c, x);
    assert InLock(s.ctxs[c := x][c]);
    SearchSame(s, c, x, Apply(s, Push(c)));
  }

  lemma SearchSame(s: State, c: nat, x: Ctx, t: State)
    requires Typed(s) && SearchInv(s) && c < |s.ctxs| && t.ctxs == s.ctxs[c := x] && t.pc == s.pc && t.cache == s.cache
    requires Invalid(s.ctxs[c]) ==>
               Invalid(x) && (s.ctxs[c].queue == [] ==> x.queue == []) && (s.ctxs[c].buf == [] ==> x.buf == [])
    ensures Typed(t) && SearchInv(t)
  {}

  lemma StoreFlagStep(s: State, c: nat)
    requires Inv(s) && Enabled(s, StoreFlag(c))
    ensures Inv(Apply(s, StoreFlag(c)))
  {
    hide Total, Typed, SearchInv;
    var x := s.ctxs[c].(phase := Announced);
    TotalUpdate(s.ctxs, c, x);
    assert InLock(s.ctxs[c := x][c]) && InLock(s.ctxs[c]);
    SearchSame(s, c, x, Apply(s, StoreFlag(c)));
  }

  lemma UnlockStep(s: State, c: nat)
    requires Inv(s) && Enabled(s, Unlock(c))
    ensures Inv(Apply(s, Unlock(c)))
  {
    hide Total, Typed, SearchInv;
    var x := s.ctxs[c].(phase := Active);
    TotalUpdate(s.ctxs, c, x);
    assert InLock(s.ctxs[c]);
    SearchSame(s, c, x, Apply(s, Unlock(c)));
  }

  lemma AddInvalidStep(s: State, c: nat)
    requires Inv(s) && Enabled(s, AddInvalid(c))
    ensures Inv(Apply(s, AddInvalid(c)))
  {
    hide Total, Typed, SearchInv, RegistrationInv;
    var x := s.ctxs[c].(phase := Counted);
    TotalUpdate(s.ctxs, c, x);
    RegistrationSame(s, c, x);
    RegistrationCount(SetCtx(s, c, x), Increment(s.count));
    SearchSame(s, c, x, Apply(s, AddInvalid(c)));
  }

  /** Removal decrements once for a context that is invalid and has nothing left. */
  lemma RemoveStep(s: State)
    requires Inv(s) && Enabled(s, Remove)
    ensures Inv(Apply(s, Remove))
  {
    hide Total, Without;
    var c := s.cache[s.pc.i];
    var x := s.ctxs[c].(removed := true);
    var t := Apply(s, Remove);
    TotalUpdate(s.ctxs, c, x);
    assert !s.ctxs[c].removed;
    forall k | 0 <= k < |t.cache| ensures t.cache[k] < |t.ctxs| { assert t.cache[k] in t.cache; }
  }

  lemma CopyStep(s: State)
    requires Inv(s) && Enabled(s, CopyList)
    ensures Inv(Apply(s, CopyList))
  {
    hide Total, CtxInv;
    forall k | 0 <= k < |s.list| ensures s.list[k] < |s.ctxs| { assert s.list[k] in s.list; }
  }

  /** Looking at the flag and the counter touches nothing but the backend's place. */
  lemma FlagStep(s: State, step: Step)
    requires Inv(s) && Enabled(s, step)
    requires step.LoadFlag? || step.ClearFlag? || step.ForceScan? || step.LoadCount?
    ensures Inv(Apply(s, step))
  {
    hide Total, CtxInv, InLock;
    assert Apply(s, step).ctxs == s.ctxs;
  }

  /** Nor does looking at a context. */
  lemma SearchStep(s: State, step: Step)
    requires Inv(s) && Enabled(s, step) && (step.LoadValid? || step.LoadQueue? || step.LoadBuf?)
    ensures Inv(Apply(s, step))
  {
    hide Total, CtxInv, InLock;
    var t := Apply(s, step);
    assert t == s.(pc := t.pc) && !t.pc.Scan? && !t.pc.Clearing?;
    assert RegistrationInv(t);
    hide RegistrationInv;
  }

  lemma StepKeepsInv(s: State, step: Step)
    requires Inv(s) && Enabled(s, step)
    ensures Inv(Apply(s, step))
  {
    hide Inv, Apply;
    match step
    case Push(c) => PushStep(s, c);
    case StoreFlag(c) => StoreFlagStep(s, c);
    case Unlock(c) => UnlockStep(s, c);
    case Commit(c, record) => CommitStep(s, c, record);
    case MarkInvalid(c) => MarkStep(s, c);
    case AddInvalid(c) => AddInvalidStep(s, c);
    case CopyList => CopyStep(s);
    case Decode(c) => DecodeStep(s, c);
    case ProcessOne(c) => ProcessStep(s, c);
    case Remove => RemoveStep(s);
    case LoadValid => SearchStep(s, step);
    case LoadQueue => SearchStep(s, step);
    case LoadBuf => SearchStep(s, step);
    case _ => FlagStep(s, step);
  }

  // ---- Runs ------------------------------------------------------------------------------------

  ghost predicate IsRun(n: nat, run: seq<State>, steps: seq<Step>) {
    && |run| == |steps| + 1
    && run[0] == Start(n)
    && forall i :: 0 <= i < |steps| ==> Typed(run[i]) && Enabled(run[i], steps[i]) && run[i + 1] == Apply(run[i], steps[i])
  }

  lemma {:induction false} RunInv(n: nat, run: seq<State>, steps: seq<Step>, k: nat)
    requires IsRun(n, run, steps) && k < |run|
    ensures Inv(run[k])
    decreases k
  {
    hide Inv, Apply, Enabled, Typed, Start;
    if k == 0 {
      StartInv(n);
    } else {
      RunInv(n, run, steps, k - 1);
      StepKeepsInv(run[k - 1], steps[k - 1]);
    }
  }

  lemma StartInv(n: nat)
    ensures Inv(Start(n))
  {
    StartTotal(n);
  }

  lemma {:induction false} StartTotal(n: nat)
    ensures Total(seq(n, _ => Ctx(New, false, [], [], [], []))) == 0
  {
    var s := seq(n, _ => Ctx(New, false, [], [], [], []));
    if n == 0 {
    } else {
      StartTotal(n - 1);
      assert s[..n - 1] == seq(n - 1, _ => Ctx(New, false, [], [], [], []));
    }
  }

  /**
   No registration is lost: whenever the backend has just seen the flag down, every context whose
   registration has completed is in its cached list.
   */
  lemma NoRegistrationLost(n: nat, run: seq<State>, steps: seq<Step>, k: nat, c: nat)
    requires IsRun(n, run, steps) && k < |run|
    requires !run[k].flag && !run[k].pc.Scan? && c < |run[k].ctxs|
    requires !run[k].ctxs[c].phase.New? && !run[k].ctxs[c].phase.Registering? && !run[k].ctxs[c].removed
    ensures c in run[k].cache
  {
    hide IsRun, CtxInv, Total, Typed;
    RunInv(n, run, steps, k);
  }

  /** A context is removed only after its producer finished, with every record processed, in order. */
  lemma RemovedOnlyWhenDone(n: nat, run: seq<State>, steps: seq<Step>, k: nat, c: nat)
    requires IsRun(n, run, steps) && k < |run| && c < |run[k].ctxs|
    ensures var x := run[k].ctxs[c];
            && x.all == x.done + x.buf + x.queue
            && (x.removed ==> (x.phase.Marked? || x.phase.Counted?) && x.done == x.all)
            && (x.removed <==> !x.phase.New? && c !in run[k].list)
  {
    hide IsRun, Total, Typed;
    RunInv(n, run, steps, k);
  }

  /**
   Modulo 2^32 the counter is the number of invalid contexts still registered less the number of
   threads between marking and counting. So it is exact when there are none of those, and it has
   wrapped around exactly when there are more of them than invalid contexts registered.
   */
  lemma CounterExact(n: nat, run: seq<State>, steps: seq<Step>, k: nat)
    requires IsRun(n, run, steps) && k < |run|
    ensures var s := run[k]; var invalid, between := InvalidRegistered(s.ctxs), Between(s.ctxs);
            && s.count == (invalid - between) % 0x1_0000_0000
            && (between == 0 ==> s.count == invalid % 0x1_0000_0000)
            && (invalid < 0x1_0000_0000 && between < 0x1_0000_0000 ==> (s.count == invalid - between + 0x1_0000_0000 <==> between > invalid))
  {
    hide IsRun, Total, Typed, InvalidRegistered, Between, RegistrationInv;
    RunInv(n, run, steps, k);
    TotalIsDifference(run[k].ctxs);
  }

  // ---- A run in which the counter wraps --------------------------------------------------------

  /** One more step of a run. */
  lemma Take(n: nat, run: seq<State>, steps: seq<Step>, a: Step) returns (run': seq<State>, steps': seq<Step>)
    requires IsRun(n, run, steps) && |run| == |steps| + 1 && Typed(run[|steps|]) && Enabled(run[|steps|], a)
    ensures run' == run + [Apply(run[|steps|], a)] && steps' == steps + [a] && |run'| == |steps'| + 1
    ensures IsRun(n, run', steps')
  {
    hide Typed, Enabled, Apply, Start;
    run', steps' := run + [Apply(run[|steps|], a)], steps + [a];
  }

  /** A context that never logged, in the given phase. */
  function Silent(phase: Phase, removed: bool): Ctx { Ctx(phase, removed, [], [], [], []) }

  lemma TakeRegistration(run: seq<State>, steps: seq<Step>, c: nat) returns (run': seq<State>, steps': seq<Step>)
    requires IsRun(2, run, steps) && |run| == |steps| + 1
    requires var s := run[|steps|]; Typed(s) && c < |s.ctxs| && s.ctxs[c].phase.New? && !s.locked
    ensures IsRun(2, run', steps') && |run'| == |steps'| + 1 && |steps'| == |steps| + 3
    ensures var s := run[|steps|];
            run'[|steps'|] == SetCtx(s, c, s.ctxs[c].(phase := Active)).(list := s.list + [c], flag := true)
  {
    hide IsRun;
    run', steps' := Take(2, run, steps, Push(c));
    run', steps' := Take(2, run', steps', StoreFlag(c));
    run', steps' := Take(2, run', steps', Unlock(c));
  }

  /** Two threads register and are cached. */
  lemma BothCached() returns (run: seq<State>, steps: seq<Step>)
    ensures IsRun(2, run, steps) && |run| == |steps| + 1 && |steps| == 9
    ensures run[9] == State([Silent(Active, false), Silent(Active, false)], [0, 1], false, false, [0, 1], 0, Idle)
  {
    hide IsRun;
    run, steps := [Start(2)], [];
    assert IsRun(2, run, steps) by { StartRun(); }
    run, steps := TakeRegistration(run, steps, 0);
    run, steps := TakeRegistration(run, steps, 1);
    run, steps := Take(2, run, steps, LoadFlag);
    run, steps := Take(2, run, steps, ClearFlag);
    run, steps := Take(2, run, steps, CopyList);
  }

  /** One of them marks its context invalid and counts it, the other only marks it. */
  lemma CountedAndMarked() returns (run: seq<State>, steps: seq<Step>)
    ensures IsRun(2, run, steps) && |run| == |steps| + 1 && |steps| == 12
    ensures run[12] == State([Silent(Counted, false), Silent(Marked, false)], [0, 1], false, false, [0, 1], 1, Idle)
  {
    hide IsRun;
    run, steps := BothCached();
    run, steps := Take(2, run, steps, MarkInvalid(0));
    run, steps := Take(2, run, steps, AddInvalid(0));
    run, steps := Take(2, run, steps, MarkInvalid(1));
  }

  lemma StartRun()
    ensures IsRun(2, [Start(2)], [])
  {}

  /** The search finds the first cached context, invalid and without records, and removes it. */
  lemma TakeRemoval(run: seq<State>, steps: seq<Step>) returns (run': seq<State>, steps': seq<Step>)
    requires IsRun(2, run, steps) && |run| == |steps| + 1
    requires var s := run[|steps|];
             && Typed(s) && s.pc == Finding(0) && s.cache != [] && !s.locked
             && Invalid(s.ctxs[s.cache[0]]) && s.ctxs[s.cache[0]].queue == [] && s.ctxs[s.cache[0]].buf == []
    ensures IsRun(2, run', steps') && |run'| == |steps'| + 1 && |steps'| == |steps| + 4
    ensures var s := run[|steps|];
            var c := s.cache[0];
            run'[|steps'|] ==
              SetCtx(s, c, s.ctxs[c].(removed := true)).(
                list := Without(s.list, c), cache := Without(s.cache, c), count := Decrement(s.count), pc := Finding(0))
  {
    hide IsRun, Without, Decrement;
    run', steps' := Take(2, run, steps, LoadValid);
    run', steps' := Take(2, run', steps', LoadQueue);
    run', steps' := Take(2, run', steps', LoadBuf);
    run', steps' := Take(2, run', steps', Remove);
  }

  lemma CountNext(ctxs: seq<Ctx>, c: Ctx)
    ensures Between(ctxs + [c]) == Between(ctxs) + (if c.phase.Marked? then 1 else 0)
    ensures InvalidRegistered(ctxs + [c]) == InvalidRegistered(ctxs) + (if Invalid(c) && !c.removed then 1 else 0)
  {
    assert (ctxs + [c])[..|ctxs|] == ctxs;
  }

  /** Both are removed in one pass of the cleanup, before the second is counted. */
  lemma BothRemoved() returns (run: seq<State>, steps: seq<Step>)
    ensures IsRun(2, run, steps) && |run| == |steps| + 1 && |steps| == 21
    ensures run[21].ctxs == [Silent(Counted, true), Silent(Marked, true)] && run[21].count == 0xffff_ffff
  {
    hide IsRun;
    run, steps := CountedAndMarked();
    run, steps := Take(2, run, steps, LoadCount);
    run, steps := TakeRemoval(run, steps);
    assert Without([0, 1], 0) == [1] by { WithoutFirst(); }
    hide Without;
    run, steps := TakeRemoval(run, steps);
  }

  lemma WithoutFirst()
    ensures Without([0, 1], 0) == [1]
  {
    assert [0, 1][1..] == [1] && [1][1..] == [];
  }

  /** So the counter wraps. */
  lemma CounterWraps() returns (run: seq<State>, steps: seq<Step>)
    ensures IsRun(2, run, steps) && |run| == |steps| + 1 && |steps| == 21
    ensures var s := run[21]; s.count == 0xffff_ffff && Between(s.ctxs) == 1 && InvalidRegistered(s.ctxs) == 0
  {
    hide IsRun;
    run, steps := BothRemoved();
    var a, b := Silent(Counted, true), Silent(Marked, true);
    CountNext([], a);
    CountNext([a], b);
    assert run[21].ctxs == [a] + [b] && [a] == [] + [a];
  }
}
