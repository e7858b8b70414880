/**
 Removing loggers: quill/include/quill/core/LoggerManager.h, the blocking caller in
 quill/include/quill/Frontend.h and the backend's cleanup in quill/include/quill/backend/BackendWorker.h,
 as one state machine whose emptiness scan is not atomic.
 */
module Loggers {
  import opened Names

  /** A queued or buffered record names its logger; a removal request also carries its caller's flag. */
  datatype Rec = Log(l: nat) | Request(l: nat)

  datatype Phase = Valid | Marked | Flagged

  /** Where a blocking caller's flag is: in the request, in the backend's map, or set. */
  datatype Stage = NoRequest | Queued(d: nat) | Registered | Notified

  datatype Logger = Logger(name: string, phase: Phase, erased: bool, stage: Stage)

  /** Thread contexts in registration order; the backend has cached the first ones. */
  datatype Contexts = Contexts(queues: seq<seq<Rec>>, bufs: seq<seq<Rec>>, flag: bool, cached: nat)

  datatype Pc =
    | Idle
    | CopyIdle
    | Pass(k: nat)
    | Check(k: nat)
    | Copy(k: nat)
    | Look(k: nat, i: nat, empty: bool)
    | Notify(j: nat)

  datatype State = State(loggers: seq<Logger>, registry: seq<nat>, ctx: Contexts, hasInvalid: bool,
                         flags: map<string, nat>, removed: seq<nat>, pc: Pc)

  datatype Step =
    | Create(name: string)
    | RegisterContext
    | LogRecord(d: nat, l: nat)
    | CommitRequest(d: nat, l: nat)
    | MarkInvalid(l: nat)
    | StoreInvalid(l: nat)
    | Refresh
    | CopyContexts
    | Decode(d: nat)
    | Process(d: nat)
    | ExchangeInvalid
    | Visit
    | StartScan
    | Scan
    | NotifyNext

  function NamesOf(loggers: seq<Logger>, registry: seq<nat>): (r: seq<string>)
    requires InRange(loggers, registry)
    ensures |r| == |registry| && forall k :: 0 <= k < |registry| ==> r[k] == loggers[registry[k]].name
  {
    seq(|registry|, k requires 0 <= k < |registry| => loggers[registry[k]].name)
  }

  predicate InRange(loggers: seq<Logger>, ids: seq<nat>) {
    forall k :: 0 <= k < |ids| ==> ids[k] < |loggers|
  }

  /** The lock is held while the backend passes over the registry. */
  predicate Passing(pc: Pc) { pc.Pass? || pc.Check? || pc.Copy? || pc.Look? }

  predicate Typed(s: State) {
    && InRange(s.loggers, s.registry) && InRange(s.loggers, s.removed)
    && |s.ctx.bufs| == |s.ctx.queues| && s.ctx.cached <= |s.ctx.queues|
    && (forall n :: n in s.flags ==> s.flags[n] < |s.loggers|)
    && (match s.pc
        case Pass(k) => k <= |s.registry|
        case Check(k) => k < |s.registry|
        case Copy(k) => k < |s.registry|
        case Look(k, i, _) => k < |s.registry| && i <= s.ctx.cached
        case Notify(j) => j <= |s.removed|
        case _ => true)
  }

  /**
   Only a valid logger may be used, and one thread removes it; so requests and log records are only
   committed while the logger is valid, and a name can be created once it is not registered.
   */
  predicate Enabled(s: State, step: Step)
    requires Typed(s)
  {
    match step
    case Create(name) => !Passing(s.pc) && !Found(NamesOf(s.loggers, s.registry), name)
    case RegisterContext => true
    case LogRecord(d, l) => d < |s.ctx.queues| && l < |s.loggers| && s.loggers[l].phase.Valid?
    case CommitRequest(d, l) =>
      d < |s.ctx.queues| && l < |s.loggers| && s.loggers[l].phase.Valid? && s.loggers[l].stage.NoRequest?
    case MarkInvalid(l) => l < |s.loggers| && s.loggers[l].phase.Valid?
    case StoreInvalid(l) => l < |s.loggers| && s.loggers[l].phase.Marked?
    case Refresh => s.pc.Idle?
    case CopyContexts => s.pc.CopyIdle? || s.pc.Copy?
    case Decode(d) => s.pc.Idle? && d < s.ctx.cached && s.ctx.queues[d] != []
    case Process(d) => s.pc.Idle? && d < s.ctx.cached && s.ctx.bufs[d] != []
    case ExchangeInvalid => s.pc.Idle?
    case Visit => s.pc.Pass?
    case StartScan => s.pc.Check?
    case Scan => s.pc.Look?
    case NotifyNext => s.pc.Notify?
  }

  function Send(ctx: Contexts, d: nat, r: Rec): Contexts
    requires d < |ctx.queues|
  {
    ctx.(queues := ctx.queues[d := ctx.queues[d] + [r]])
  }

  /** `create_logger` keeps the registry sorted by name. */
  function DoCreate(s: State, name: string): State
    requires Typed(s)
  {
    var i := LowerBound(NamesOf(s.loggers, s.registry), name);
    s.(loggers := s.loggers + [Logger(name, Valid, false, NoRequest)],
       registry := s.registry[..i] + [|s.loggers|] + s.registry[i..])
  }

  /** Decoding a removal request puts its flag in the map, unless the name has one already. */
  function DoDecode(s: State, d: nat): State
    requires Typed(s) && Enabled(s, Decode(d))
  {
    var r := s.ctx.queues[d][0];
    var s := s.(ctx := s.ctx.(queues := s.ctx.queues[d := s.ctx.queues[d][1..]], bufs := s.ctx.bufs[d := s.ctx.bufs[d] + [r]]));
    if r.Request? && r.l < |s.loggers| && s.loggers[r.l].name !in s.flags then
      s.(flags := s.flags[s.loggers[r.l].name := r.l], loggers := s.loggers[r.l := s.loggers[r.l].(stage := Registered)])
    else s
  }

  /** The end of a scan: erase when everything was empty, otherwise raise the flag again and go on. */
  function DoScan(s: State): State
    requires Typed(s) && s.pc.Look?
  {
    var Look(k, i, empty) := s.pc;
    if i < s.ctx.cached then s.(pc := Look(k, i + 1, empty && s.ctx.queues[i] == [] && s.ctx.bufs[i] == []))
    else if !empty then s.(hasInvalid := true, pc := Pass(k + 1))
    else
      var l := s.registry[k];
      s.(registry := s.registry[..k] + s.registry[k + 1..], removed := s.removed + [l],
         loggers := s.loggers[l := s.loggers[l].(erased := true)], pc := Pass(k))
  }

  /** After the pass: for each removed name that has a flag, set it and forget it. */
  function DoNotify(s: State): State
    requires Typed(s) && s.pc.Notify?
  {
    if s.pc.j == |s.removed| then s.(removed := [], pc := Idle) else
      var name := s.loggers[s.removed[s.pc.j]].name;
      var s := s.(pc := Notify(s.pc.j + 1));
      if name in s.flags then
        var l := s.flags[name];
        s.(flags := s.flags - {name}, loggers := s.loggers[l := s.loggers[l].(stage := Notified)])
      else s
  }

  function Apply(s: State, step: Step): State
    requires Typed(s) && Enabled(s, step)
  {
    match step
    case Create(name) => DoCreate(s, name)
    case RegisterContext =>
      s.(ctx := s.ctx.(queues := s.ctx.queues + [[]], bufs := s.ctx.bufs + [[]], flag := true))
    case LogRecord(d, l) => s.(ctx := Send(s.ctx, d, Log(l)))
    case CommitRequest(d, l) =>
      s.(ctx := Send(s.ctx, d, Request(l)), loggers := s.loggers[l := s.loggers[l].(stage := Queued(d))])
    case MarkInvalid(l) => s.(loggers := s.loggers[l := s.loggers[l].(phase := Marked)])
    case StoreInvalid(l) => s.(loggers := s.loggers[l := s.loggers[l].(phase := Flagged)], hasInvalid := true)
    case Refresh => if s.ctx.flag then s.(ctx := s.ctx.(flag := false), pc := CopyIdle) else s
    case CopyContexts =>
      s.(ctx := s.ctx.(cached := |s.ctx.queues|), pc := if s.pc.Copy? then Look(s.pc.k, 0, true) else Idle)
    case Decode(d) => DoDecode(s, d)
    case Process(d) => s.(ctx := s.ctx.(bufs := s.ctx.bufs[d := s.ctx.bufs[d][1..]]))
    case ExchangeInvalid => if s.hasInvalid then s.(hasInvalid := false, pc := Pass(0)) else s
    case Visit =>
      if s.pc.k == |s.registry| then s.(pc := Notify(0))
      else if s.loggers[s.registry[s.pc.k]].phase.Valid? then s.(pc := Pass(s.pc.k + 1))
      else s.(pc := Check(s.pc.k))
    case StartScan =>
      if s.ctx.flag then s.(ctx := s.ctx.(flag := false), pc := Copy(s.pc.k)) else s.(pc := Look(s.pc.k, 0, true))
    case Scan => DoScan(s)
    case NotifyNext => DoNotify(s)
  }

  function Start(): State {
    State([], [], Contexts([], [], false, 0), false, map[], [], Idle)
  }

  // ---- Invariants ------------------------------------------------------------------------------

  /** The registry holds exactly the loggers not erased, strictly sorted by name. */
  ghost predicate RegInv(loggers: seq<Logger>, registry: seq<nat>)
    requires InRange(loggers, registry)
  {
    && Sorted(NamesOf(loggers, registry))
    && (forall k :: 0 <= k < |registry| ==> !loggers[registry[k]].erased)
    && (forall l :: 0 <= l < |loggers| && !loggers[l].erased ==> l in registry)
    && (forall l :: 0 <= l < |loggers| && loggers[l].erased ==> !loggers[l].phase.Valid?)
  }

  predicate NamesLive(loggers: seq<Logger>, recs: seq<Rec>) {
    forall r :: r in recs ==> r.l < |loggers| && !loggers[r.l].erased
  }

  /** No queued or buffered record names an erased logger. */
  ghost predicate RecInv(loggers: seq<Logger>, ctx: Contexts) {
    && (forall d :: 0 <= d < |ctx.queues| ==> NamesLive(loggers, ctx.queues[d]))
    && (forall d :: 0 <= d < |ctx.bufs| ==> NamesLive(loggers, ctx.bufs[d]))
  }

  /** A request is in the queue its logger's stage says, once, and in no other. */
  ghost predicate ReqInv(loggers: seq<Logger>, queues: seq<seq<Rec>>) {
    && (forall d, l :: 0 <= d < |queues| && 0 <= l < |loggers| ==>
          multiset(queues[d])[Request(l)] == if loggers[l].stage == Queued(d) then 1 else 0)
    && (forall l :: 0 <= l < |loggers| && loggers[l].stage.Queued? ==> loggers[l].stage.d < |queues|)
  }

  /** The removed loggers still to be notified. */
  function Unnotified(removed: seq<nat>, pc: Pc): seq<nat> {
    if pc.Notify? && pc.j <= |removed| then removed[pc.j..] else if Passing(pc) then removed else []
  }

  /** The map holds exactly the registered flags, by name, of loggers not erased or still to be notified. */
  ghost predicate FlagInv(loggers: seq<Logger>, flags: map<string, nat>, pending: seq<nat>) {
    && (forall n :: n in flags ==>
          flags[n] < |loggers| && loggers[flags[n]].name == n && loggers[flags[n]].stage.Registered? &&
          (loggers[flags[n]].erased ==> flags[n] in pending))
    && (forall l :: 0 <= l < |loggers| && loggers[l].stage.Registered? ==>
          loggers[l].name in flags && flags[loggers[l].name] == l)
    && (forall l :: 0 <= l < |loggers| && loggers[l].stage.Notified? ==> loggers[l].erased)
    && (forall l :: l in pending ==>
          l < |loggers| && loggers[l].erased && (loggers[l].name in flags ==> flags[loggers[l].name] == l))
  }

  /** During a pass no removed name is the name of a registered logger. */
  ghost predicate PassInv(s: State)
    requires InRange(s.loggers, s.registry) && InRange(s.loggers, s.removed)
  {
    && (Passing(s.pc) ==> forall a, b :: a in s.removed && b in s.registry ==> s.loggers[a].name != s.loggers[b].name)
    && (!Passing(s.pc) && !s.pc.Notify? ==> s.removed == [])
  }

  predicate At(registry: seq<nat>, k: nat, l: nat) {
    exists m :: k <= m < |registry| && registry[m] == l
  }

  /** A logger whose remover raised the flag is not forgotten: the flag is up or the pass has yet to visit it. */
  ghost predicate ForgetInv(s: State) {
    forall l :: 0 <= l < |s.loggers| && s.loggers[l].phase.Flagged? && !s.loggers[l].erased ==>
      s.hasInvalid || (Passing(s.pc) && At(s.registry, s.pc.k, l))
  }

  predicate Unnamed(ctx: Contexts, d: nat, l: nat)
    requires d < |ctx.queues| == |ctx.bufs|
  {
    (forall r :: r in ctx.queues[d] ==> r.l != l) && (forall r :: r in ctx.bufs[d] ==> r.l != l)
  }

  /** What the scan knows: the logger is invalid, and no context seen empty, nor any too new to be cached, names it. */
  ghost predicate ScanInv(s: State)
    requires Typed(s)
  {
    && (s.pc.CopyIdle? || s.pc.Copy? || s.ctx.flag || s.ctx.cached == |s.ctx.queues|)
    && (s.pc.Check? || s.pc.Copy? || s.pc.Look? ==> !s.loggers[s.registry[s.pc.k]].phase.Valid?)
    && (s.pc.Look? ==> forall d :: s.ctx.cached <= d < |s.ctx.queues| ==> Unnamed(s.ctx, d, s.registry[s.pc.k]))
    && (s.pc.Look? && s.pc.empty ==> forall d :: 0 <= d < s.pc.i ==> Unnamed(s.ctx, d, s.registry[s.pc.k]))
  }

  ghost predicate Inv(s: State) {
    && Typed(s)
    && RegInv(s.loggers, s.registry)
    && RecInv(s.loggers, s.ctx)
    && ReqInv(s.loggers, s.ctx.queues)
    && FlagInv(s.loggers, s.flags, Unnotified(s.removed, s.pc))
    && PassInv(s)
    && ForgetInv(s)
    && ScanInv(s)
  }

  // ---- Frontend steps --------------------------------------------------------------------------

  /** Two registered loggers of one name are the same. */
  lemma RegisteredUnique(loggers: seq<Logger>, registry: seq<nat>, a: nat, b: nat)
    requires InRange(loggers, registry) && RegInv(loggers, registry)
    requires a < |loggers| && b < |loggers| && !loggers[a].erased && !loggers[b].erased && loggers[a].name == loggers[b].name
    ensures a == b
  {
    hide Less;
    var i :| 0 <= i < |registry| && registry[i] == a;
    var j :| 0 <= j < |registry| && registry[j] == b;
    var names := NamesOf(loggers, registry);
    LessIrreflexive(names[i]);
  }

  /** A logger's phase matters only to the pass and to the scan. */
  lemma PhaseKeeps(s: State, l: nat, phase: Phase)
    requires Inv(s) && l < |s.loggers| && !phase.Valid?
    ensures var loggers := s.loggers[l := s.loggers[l].(phase := phase)];
            && InRange(loggers, s.registry) && RegInv(loggers, s.registry) && RecInv(loggers, s.ctx) && ReqInv(loggers, s.ctx.queues)
            && FlagInv(loggers, s.flags, Unnotified(s.removed, s.pc))
  {
    hide Unnotified, ForgetInv, ScanInv, PassInv, Sorted;
    var loggers := s.loggers[l := s.loggers[l].(phase := phase)];
    assert NamesOf(loggers, s.registry) == NamesOf(s.loggers, s.registry);
  }

  lemma MarkStep(s: State, l: nat)
    requires Inv(s) && Enabled(s, MarkInvalid(l))
    ensures Inv(Apply(s, MarkInvalid(l)))
  {
    hide RegInv, RecInv, ReqInv, FlagInv, Unnotified, Unnamed, At;
    PhaseKeeps(s, l, Marked);
  }

  lemma StoreStep(s: State, l: nat)
    requires Inv(s) && Enabled(s, StoreInvalid(l))
    ensures Inv(Apply(s, StoreInvalid(l)))
  {
    hide RegInv, RecInv, ReqInv, FlagInv, Unnotified, Unnamed, At;
    PhaseKeeps(s, l, Flagged);
  }

  lemma SentRecs(loggers: seq<Logger>, ctx: Contexts, d: nat, r: Rec)
    requires RecInv(loggers, ctx) && d < |ctx.queues| && r.l < |loggers| && !loggers[r.l].erased
    ensures RecInv(loggers, Send(ctx, d, r))
  {}

  lemma SentScan(s: State, d: nat, r: Rec, loggers: seq<Logger>)
    requires Typed(s) && ScanInv(s) && d < |s.ctx.queues| && r.l < |s.loggers| && s.loggers[r.l].phase.Valid?
    requires |loggers| == |s.loggers| && forall l :: 0 <= l < |loggers| ==> loggers[l].phase == s.loggers[l].phase
    ensures var t := s.(ctx := Send(s.ctx, d, r), loggers := loggers); Typed(t) && ScanInv(t)
  {
    hide Unnamed;
    if s.pc.Look? {
      forall x | 0 <= x < |s.ctx.queues| && Unnamed(s.ctx, x, s.registry[s.pc.k])
        ensures Unnamed(Send(s.ctx, d, r), x, s.registry[s.pc.k])
      {
        SentUnnamed(s.ctx, d, r, x, s.registry[s.pc.k]);
      }
    }
  }

  lemma SentUnnamed(ctx: Contexts, d: nat, r: Rec, x: nat, l: nat)
    requires d < |ctx.queues| == |ctx.bufs| && x < |ctx.queues| && Unnamed(ctx, x, l) && r.l != l
    ensures Unnamed(Send(ctx, d, r), x, l)
  {}

  lemma LogStep(s: State, d: nat, l: nat)
    requires Inv(s) && Enabled(s, LogRecord(d, l))
    ensures Inv(Apply(s, LogRecord(d, l)))
  {
    hide RecInv, FlagInv, ScanInv, Unnotified, At, Typed, Sorted, ReqInv;
    LogValid(s, l);
    SentRecs(s.loggers, s.ctx, d, Log(l));
    SentScan(s, d, Log(l), s.loggers);
    SentReqs(s.loggers, s.ctx.queues, d, Log(l));
  }

  lemma LogValid(s: State, l: nat)
    requires Inv(s) && l < |s.loggers| && s.loggers[l].phase.Valid?
    ensures !s.loggers[l].erased && Typed(s)
  {
    hide RecInv, FlagInv, ScanInv, Unnotified, At, Sorted, ReqInv;
  }

  lemma SentReqs(loggers: seq<Logger>, queues: seq<seq<Rec>>, d: nat, r: Rec)
    requires ReqInv(loggers, queues) && d < |queues| && (r.Request? ==> r.l < |loggers| && loggers[r.l].stage.NoRequest?)
    ensures ReqInv(if r.Request? then loggers[r.l := loggers[r.l].(stage := Queued(d))] else loggers, queues[d := queues[d] + [r]])
  {}

  /** Before a request is committed its logger has no flag anywhere. */
  lemma StageQueued(s: State, d: nat, l: nat)
    requires Inv(s) && l < |s.loggers| && s.loggers[l].stage.NoRequest?
    ensures var loggers := s.loggers[l := s.loggers[l].(stage := Queued(d))];
            && InRange(loggers, s.registry) && RegInv(loggers, s.registry)
            && RecInv(loggers, s.ctx) && FlagInv(loggers, s.flags, Unnotified(s.removed, s.pc))
  {
    hide Unnotified, ForgetInv, ScanInv, PassInv, ReqInv, Sorted;
    var loggers := s.loggers[l := s.loggers[l].(stage := Queued(d))];
    assert NamesOf(loggers, s.registry) == NamesOf(s.loggers, s.registry);
  }

  lemma RequestStep(s: State, d: nat, l: nat)
    requires Inv(s) && Enabled(s, CommitRequest(d, l))
    ensures Inv(Apply(s, CommitRequest(d, l)))
  {
    hide RecInv, FlagInv, ScanInv, Unnotified, At, ReqInv, RegInv;
    LogValid(s, l);
    var loggers := s.loggers[l := s.loggers[l].(stage := Queued(d))];
    StageQueued(s, d, l);
    SentRecs(loggers, s.ctx, d, Request(l));
    SentScan(s, d, Request(l), loggers);
    SentReqs(s.loggers, s.ctx.queues, d, Request(l));
  }

  lemma CreateStep(s: State, name: string)
    requires Inv(s) && Enabled(s, Create(name))
    ensures Inv(Apply(s, Create(name)))
  {
    hide RecInv, FlagInv, ScanInv, Unnotified, ReqInv, RegInv, LowerBound, Found;
    CreatedRegistry(s, name);
    CreatedRest(s, name);
    CreatedFlags(s.loggers, s.flags, Unnotified(s.removed, s.pc), name);
    CreatedScan(s, name);
  }

  lemma CreatedRegistry(s: State, name: string)
    requires Typed(s) && RegInv(s.loggers, s.registry) && !Found(NamesOf(s.loggers, s.registry), name)
    ensures var t := DoCreate(s, name); Typed(t.(pc := Idle)) && RegInv(t.loggers, t.registry)
    ensures forall l :: l in DoCreate(s, name).registry <==> l in s.registry || l == |s.loggers|
  {
    hide LowerBound, Less, Sorted, Found, Inserted;
    var names := NamesOf(s.loggers, s.registry);
    var i := LowerBound(names, name);
    assert s.registry == s.registry[..i] + s.registry[i..];
    CreatedNames(s, name);
  }

  /** A created logger is valid and registered under its name; no other logger changes. */
  lemma CreateMeans(s: State, name: string)
    requires Inv(s) && Enabled(s, Create(name))
    ensures var t, l := Apply(s, Create(name)), |s.loggers|;
            && t.loggers[..l] == s.loggers && |t.loggers| == l + 1 && t.loggers[l] == Logger(name, Valid, false, NoRequest)
            && (forall x :: x in t.registry <==> x in s.registry || x == l)
            && t == s.(loggers := t.loggers, registry := t.registry)
  {
    hide RecInv, ReqInv, FlagInv, PassInv, ForgetInv, ScanInv, LowerBound;
    CreatedRegistry(s, name);
  }

  lemma CreatedNames(s: State, name: string)
    requires Typed(s) && RegInv(s.loggers, s.registry) && !Found(NamesOf(s.loggers, s.registry), name)
    ensures var t := DoCreate(s, name); InRange(t.loggers, t.registry) && Sorted(NamesOf(t.loggers, t.registry))
  {
    hide LowerBound, Less, Sorted, Found;
    var names := NamesOf(s.loggers, s.registry);
    var t := DoCreate(s, name);
    FoundIff(names, name);
    InsertSorted(names, name);
    assert NamesOf(t.loggers, t.registry) == Inserted(names, name);
  }

  lemma NotNamed(loggers: seq<Logger>, recs: seq<Rec>, l: nat)
    requires NamesLive(loggers, recs) && (l >= |loggers| || loggers[l].erased)
    ensures multiset(recs)[Request(l)] == 0
  {}

  lemma CreatedRest(s: State, name: string)
    requires Typed(s) && RecInv(s.loggers, s.ctx) && ReqInv(s.loggers, s.ctx.queues)
    ensures var t := DoCreate(s, name); RecInv(t.loggers, t.ctx) && ReqInv(t.loggers, t.ctx.queues)
  {
    hide LowerBound;
    var t := DoCreate(s, name);
    forall d, l | 0 <= d < |s.ctx.queues| && 0 <= l < |t.loggers|
      ensures multiset(s.ctx.queues[d])[Request(l)] == if t.loggers[l].stage == Queued(d) then 1 else 0
    {
      if l == |s.loggers| { NotNamed(s.loggers, s.ctx.queues[d], l); }
    }
  }

  lemma CreatedFlags(loggers: seq<Logger>, flags: map<string, nat>, pending: seq<nat>, name: string)
    requires FlagInv(loggers, flags, pending)
    ensures FlagInv(loggers + [Logger(name, Valid, false, NoRequest)], flags, pending)
  {}

  lemma CreatedScan(s: State, name: string)
    requires Typed(s) && ScanInv(s) && !Passing(s.pc) && Typed(DoCreate(s, name).(pc := Idle))
    ensures var t := DoCreate(s, name); Typed(t) && ScanInv(t)
  {
    hide LowerBound, Unnamed;
  }

  lemma ContextStep(s: State)
    requires Inv(s)
    ensures Inv(Apply(s, RegisterContext))
  {
    hide RegInv, FlagInv, Unnotified, At;
    var t := Apply(s, RegisterContext);
    assert forall d, l :: 0 <= d < |s.ctx.queues| && Unnamed(s.ctx, d, l) ==> Unnamed(t.ctx, d, l);
  }

  // ---- Backend steps ---------------------------------------------------------------------------

  /** Refreshing the cached contexts touches nothing but the scan. */
  lemma RefreshStep(s: State, step: Step)
    requires Inv(s) && Enabled(s, step) && (step.Refresh? || step.CopyContexts? || step.StartScan?)
    ensures Inv(Apply(s, step))
  {
    hide RegInv, FlagInv, ReqInv, At, Unnamed;
    var t := Apply(s, step);
    assert RecInv(t.loggers, t.ctx);
    hide RecInv;
    assert ForgetInv(t);
    assert PassInv(t);
    hide ForgetInv, PassInv;
  }

  lemma ProcessStep(s: State, d: nat)
    requires Inv(s) && Enabled(s, Process(d))
    ensures Inv(Apply(s, Process(d)))
  {
    hide RegInv, FlagInv, ReqInv, At, Unnamed;
  }

  lemma MovedRecs(loggers: seq<Logger>, ctx: Contexts, d: nat)
    requires RecInv(loggers, ctx) && d < |ctx.queues| == |ctx.bufs| && ctx.queues[d] != []
    ensures var r := ctx.queues[d][0];
            && RecInv(loggers, ctx.(queues := ctx.queues[d := ctx.queues[d][1..]], bufs := ctx.bufs[d := ctx.bufs[d] + [r]]))
            && r.l < |loggers| && !loggers[r.l].erased
  {
    assert ctx.queues[d][0] in ctx.queues[d];
  }

  /** While the backend decodes, a queued request's name has no flag yet: the map entry is made. */
  lemma DecodedFlag(s: State, d: nat)
    requires Inv(s) && Enabled(s, Decode(d)) && s.ctx.queues[d][0].Request?
    ensures var l := s.ctx.queues[d][0].l; l < |s.loggers| && s.loggers[l].stage == Queued(d) && s.loggers[l].name !in s.flags
  {
    hide ForgetInv, ScanInv, Sorted;
    var l := s.ctx.queues[d][0].l;
    assert Request(l) in s.ctx.queues[d];
    MovedRecs(s.loggers, s.ctx, d);
    if s.loggers[l].name in s.flags {
      RegisteredUnique(s.loggers, s.registry, l, s.flags[s.loggers[l].name]);
    }
  }

  lemma DecodeStep(s: State, d: nat)
    requires Inv(s) && Enabled(s, Decode(d))
    ensures Inv(Apply(s, Decode(d)))
  {
    hide RegInv, FlagInv, ReqInv, At, Unnamed, RecInv;
    var r := s.ctx.queues[d][0];
    MovedRecs(s.loggers, s.ctx, d);
    if r.Request? {
      DecodedFlag(s, d);
      DecodedReqs(s.loggers, s.ctx.queues, d);
      FlagRegistered(s.loggers, s.flags, r.l);
      StageSame(s, r.l, Registered, DoDecode(s, d).ctx);
    } else {
      DecodedReqs(s.loggers, s.ctx.queues, d);
    }
  }

  lemma DecodedReqs(loggers: seq<Logger>, queues: seq<seq<Rec>>, d: nat)
    requires ReqInv(loggers, queues) && d < |queues| && queues[d] != []
    requires var r := queues[d][0]; r.Request? ==> r.l < |loggers| && loggers[r.l].stage == Queued(d)
    ensures var r := queues[d][0];
            ReqInv(if r.Request? then loggers[r.l := loggers[r.l].(stage := Registered)] else loggers, queues[d := queues[d][1..]])
  {
    assert queues[d] == [queues[d][0]] + queues[d][1..];
  }

  lemma FlagRegistered(loggers: seq<Logger>, flags: map<string, nat>, l: nat)
    requires FlagInv(loggers, flags, []) && l < |loggers| && loggers[l].stage.Queued? && loggers[l].name !in flags && !loggers[l].erased
    ensures FlagInv(loggers[l := loggers[l].(stage := Registered)], flags[loggers[l].name := l], [])
  {}

  /** Where a flag is matters neither to the registry nor to the records. */
  lemma StageSame(s: State, l: nat, stage: Stage, ctx: Contexts)
    requires Typed(s) && RegInv(s.loggers, s.registry) && RecInv(s.loggers, ctx) && l < |s.loggers|
    ensures var loggers := s.loggers[l := s.loggers[l].(stage := stage)];
            InRange(loggers, s.registry) && RegInv(loggers, s.registry) && RecInv(loggers, ctx)
  {
    hide Sorted;
    var loggers := s.loggers[l := s.loggers[l].(stage := stage)];
    assert NamesOf(loggers, s.registry) == NamesOf(s.loggers, s.registry);
  }

  /** A pass starts at the front, so every registered logger is still to be visited. */
  lemma ExchangeStep(s: State)
    requires Inv(s) && Enabled(s, ExchangeInvalid)
    ensures Inv(Apply(s, ExchangeInvalid))
  {
    hide FlagInv, ReqInv, RecInv, Unnamed, Sorted;
    var t := Apply(s, ExchangeInvalid);
    if s.hasInvalid {
      forall l | 0 <= l < |s.loggers| && !s.loggers[l].erased ensures At(s.registry, 0, l) {
        var m :| 0 <= m < |s.registry| && s.registry[m] == l;
      }
    }
  }

  lemma VisitStep(s: State)
    requires Inv(s) && Enabled(s, Visit)
    ensures Inv(Apply(s, Visit))
  {
    hide FlagInv, ReqInv, RecInv, Unnamed, RegInv;
    var t := Apply(s, Visit);
    assert Unnotified(t.removed, t.pc) == Unnotified(s.removed, s.pc);
  }

  lemma LookOnStep(s: State)
    requires Inv(s) && s.pc.Look? && (s.pc.i < s.ctx.cached || !s.pc.empty)
    ensures Inv(DoScan(s))
  {
    hide FlagInv, ReqInv, RecInv, RegInv, At;
    var t := DoScan(s);
    assert Unnotified(t.removed, t.pc) == Unnotified(s.removed, s.pc);
  }

  /**
   A scan that found every context empty: no queue and no buffer names the logger, though the
   contexts were looked at one after the other while others were logging.
   */
  lemma ScanProvesUnnamed(s: State)
    requires Inv(s) && s.pc.Look? && s.pc.i == s.ctx.cached && s.pc.empty
    ensures forall d :: 0 <= d < |s.ctx.queues| ==> Unnamed(s.ctx, d, s.registry[s.pc.k])
  {
    hide FlagInv, ReqInv, RecInv, RegInv, At, Unnamed, ForgetInv, PassInv;
  }

  lemma ErasedRegistry(s: State, k: nat)
    requires InRange(s.loggers, s.registry) && RegInv(s.loggers, s.registry) && k < |s.registry| && !s.loggers[s.registry[k]].phase.Valid?
    ensures var l := s.registry[k]; var loggers := s.loggers[l := s.loggers[l].(erased := true)];
            var registry := s.registry[..k] + s.registry[k + 1..];
            && InRange(loggers, registry) && RegInv(loggers, registry)
            && (forall b :: b in registry ==> b in s.registry && s.loggers[b].name != s.loggers[l].name)
  {
    hide Sorted, NamesOf;
    ErasedNames(s, k);
    StillRegistered(s, k);
  }

  /** The names that stay registered are sorted still, and the erased one is not among them. */
  lemma ErasedNames(s: State, k: nat)
    requires InRange(s.loggers, s.registry) && Sorted(NamesOf(s.loggers, s.registry)) && k < |s.registry|
    ensures var l := s.registry[k]; var loggers := s.loggers[l := s.loggers[l].(erased := true)];
            var registry := s.registry[..k] + s.registry[k + 1..];
            && InRange(loggers, registry) && Sorted(NamesOf(loggers, registry))
            && (forall b :: b in registry ==> b in s.registry && s.loggers[b].name != s.loggers[l].name)
  {
    hide Less;
    var l := s.registry[k];
    var loggers := s.loggers[l := s.loggers[l].(erased := true)];
    var registry := s.registry[..k] + s.registry[k + 1..];
    var names := NamesOf(s.loggers, s.registry);
    LessIrreflexive(names[k]);
    assert NamesOf(loggers, registry) == names[..k] + names[k + 1..];
    forall b | b in registry ensures b in s.registry && s.loggers[b].name != s.loggers[l].name {
      var m :| 0 <= m < |registry| && registry[m] == b;
      assert s.registry[if m < k then m else m + 1] == b;
      assert names[if m < k then m else m + 1] != names[k];
    }
  }

  lemma StillRegistered(s: State, k: nat)
    requires k < |s.registry|
    ensures forall x :: x in s.registry && x != s.registry[k] ==> x in s.registry[..k] + s.registry[k + 1..]
  {
    assert s.registry == s.registry[..k] + [s.registry[k]] + s.registry[k + 1..];
  }

  lemma ErasedRecs(loggers: seq<Logger>, ctx: Contexts, l: nat)
    requires RecInv(loggers, ctx) && l < |loggers| && |ctx.queues| == |ctx.bufs|
    requires forall d :: 0 <= d < |ctx.queues| ==> Unnamed(ctx, d, l)
    ensures RecInv(loggers[l := loggers[l].(erased := true)], ctx)
  {
    var after := loggers[l := loggers[l].(erased := true)];
    forall d | 0 <= d < |ctx.queues| ensures NamesLive(after, ctx.queues[d]) && NamesLive(after, ctx.bufs[d]) {
      assert Unnamed(ctx, d, l) && NamesLive(loggers, ctx.queues[d]) && NamesLive(loggers, ctx.bufs[d]);
    }
  }

  lemma ErasedFlags(s: State, l: nat)
    requires InRange(s.loggers, s.registry) && InRange(s.loggers, s.removed) && RegInv(s.loggers, s.registry)
    requires l in s.registry && Passing(s.pc) && PassInv(s)
    requires FlagInv(s.loggers, s.flags, s.removed)
    ensures FlagInv(s.loggers[l := s.loggers[l].(erased := true)], s.flags, s.removed + [l])
  {
    hide Sorted;
    var name := s.loggers[l].name;
    if name in s.flags {
      var f := s.flags[name];
      if !s.loggers[f].erased { RegisteredUnique(s.loggers, s.registry, f, l); }
    }
  }

  lemma ErasedForget(s: State, k: nat, x: nat)
    requires k < |s.registry| && At(s.registry, k, x) && x != s.registry[k]
    ensures At(s.registry[..k] + s.registry[k + 1..], k, x)
  {
    var m :| k <= m < |s.registry| && s.registry[m] == x;
    assert (s.registry[..k] + s.registry[k + 1..])[m - 1] == x;
  }

  lemma EraseStep(s: State)
    requires Inv(s) && s.pc.Look? && s.pc.i == s.ctx.cached && s.pc.empty
    ensures Inv(DoScan(s))
  {
    hide FlagInv, ReqInv, RecInv, RegInv, At, Unnamed;
    var k := s.pc.k;
    var l := s.registry[k];
    var t := DoScan(s);
    ScanProvesUnnamed(s);
    ErasedRegistry(s, k);
    ErasedRecs(s.loggers, s.ctx, l);
    ReqsSame(s.loggers, s.ctx.queues, l, s.loggers[l].(erased := true));
    ErasedFlags(s, l);
    forall x | 0 <= x < |t.loggers| && t.loggers[x].phase.Flagged? && !t.loggers[x].erased && !s.hasInvalid
      ensures At(t.registry, k, x)
    {
      ErasedForget(s, k, x);
    }
  }

  /** A scan that found every context empty erases the logger it was for, and no other; one that did not keeps it. */
  lemma ScanEnds(s: State)
    requires Inv(s) && s.pc.Look? && s.pc.i == s.ctx.cached
    ensures var l, t := s.registry[s.pc.k], DoScan(s);
            if s.pc.empty then
              && t.loggers == s.loggers[l := s.loggers[l].(erased := true)] && t.removed == s.removed + [l]
              && (forall x :: x in t.registry <==> x in s.registry && x != l) && t.pc == Pass(s.pc.k)
            else t == s.(hasInvalid := true, pc := Pass(s.pc.k + 1))
  {
    hide FlagInv, ReqInv, RecInv, At, Unnamed, ForgetInv, PassInv;
    ErasedRegistry(s, s.pc.k);
    StillRegistered(s, s.pc.k);
  }

  /** A record or a request goes to the end of its thread's queue; decoding and processing take from the front. */
  lemma RecordsMove(s: State, d: nat, l: nat)
    requires Typed(s) && d < |s.ctx.queues|
    ensures Enabled(s, LogRecord(d, l)) ==>
              Apply(s, LogRecord(d, l)) == s.(ctx := s.ctx.(queues := s.ctx.queues[d := s.ctx.queues[d] + [Log(l)]]))
    ensures Enabled(s, CommitRequest(d, l)) ==>
              var t := Apply(s, CommitRequest(d, l));
              t.ctx == s.ctx.(queues := s.ctx.queues[d := s.ctx.queues[d] + [Request(l)]]) && t.loggers[l].stage == Queued(d)
    ensures Enabled(s, Decode(d)) ==>
              var c := Apply(s, Decode(d)).ctx;
              s.ctx.queues[d] == [s.ctx.queues[d][0]] + c.queues[d] && c.bufs[d] == s.ctx.bufs[d] + [s.ctx.queues[d][0]]
    ensures Enabled(s, Process(d)) ==> s.ctx.bufs[d] == [s.ctx.bufs[d][0]] + Apply(s, Process(d)).ctx.bufs[d]
  {}

  /** Removing a logger first marks it and then raises the flag. */
  lemma RemovalSteps(s: State, l: nat)
    requires Typed(s) && l < |s.loggers| && s.loggers[l].phase.Valid?
    ensures Enabled(s, MarkInvalid(l))
    ensures var t := Apply(s, MarkInvalid(l));
            && t.hasInvalid == s.hasInvalid && t.loggers == s.loggers[l := s.loggers[l].(phase := Marked)]
            && Typed(t) && Enabled(t, StoreInvalid(l))
            && var u := Apply(t, StoreInvalid(l));
            u.hasInvalid && u.loggers == s.loggers[l := s.loggers[l].(phase := Flagged)]
  {}

  /** Taking the flag starts a pass at the front of the registry exactly when it was up. */
  lemma ExchangeExact(s: State)
    requires Typed(s) && s.pc.Idle?
    ensures Enabled(s, ExchangeInvalid)
    ensures Apply(s, ExchangeInvalid) == if s.hasInvalid then s.(hasInvalid := false, pc := Pass(0)) else s
  {}

  /** A scan starts with no context looked at, and with every context that is registered by then. */
  lemma ScanStarts(s: State)
    requires Inv(s) && s.pc.Check?
    ensures Enabled(s, StartScan)
    ensures var t := Apply(s, StartScan);
            if t.pc.Copy? then
              && Typed(t) && Enabled(t, CopyContexts) && t.pc.k == s.pc.k
              && Apply(t, CopyContexts) ==
                   s.(ctx := s.ctx.(flag := false, cached := |s.ctx.queues|), pc := Look(s.pc.k, 0, true))
            else t == s.(pc := Look(s.pc.k, 0, true)) && s.ctx.cached == |s.ctx.queues|
  {
    hide RegInv, RecInv, ReqInv, FlagInv, PassInv, ForgetInv, Unnamed;
  }

  /** Between passes the cached contexts are refreshed exactly when there are new ones. */
  lemma RefreshExact(s: State)
    requires Inv(s) && s.pc.Idle?
    ensures Enabled(s, Refresh)
    ensures var t := Apply(s, Refresh);
            if s.ctx.flag then
              && Typed(t) && Enabled(t, CopyContexts)
              && Apply(t, CopyContexts) == s.(ctx := s.ctx.(flag := false, cached := |s.ctx.queues|))
            else t == s && s.ctx.cached == |s.ctx.queues|
  {
    hide RegInv, RecInv, ReqInv, FlagInv, PassInv, ForgetInv, Unnamed;
  }

  /** A pass checks every invalid logger it comes to, and ends with the notifications. */
  lemma VisitExact(s: State)
    requires Typed(s) && s.pc.Pass?
    ensures Enabled(s, Visit)
    ensures Apply(s, Visit) ==
            if s.pc.k == |s.registry| then s.(pc := Notify(0))
            else if s.loggers[s.registry[s.pc.k]].phase.Valid? then s.(pc := Pass(s.pc.k + 1))
            else s.(pc := Check(s.pc.k))
  {}

  /** Wherever it stands the backend can go on. */
  lemma BackendCanStep(s: State)
    requires Typed(s)
    ensures match s.pc
            case Idle => Enabled(s, Refresh) && Enabled(s, ExchangeInvalid)
            case CopyIdle => Enabled(s, CopyContexts)
            case Pass(_) => Enabled(s, Visit)
            case Check(_) => Enabled(s, StartScan)
            case Copy(_) => Enabled(s, CopyContexts)
            case Look(_, _, _) => Enabled(s, Scan)
            case Notify(_) => Enabled(s, NotifyNext)
  {}

  /** What one look of a scan adds to what it knows. */
  lemma ScanLooks(s: State)
    requires Typed(s) && s.pc.Look? && s.pc.i < s.ctx.cached
    ensures var t := DoScan(s);
            && t == s.(pc := t.pc) && t.pc.Look? && t.pc.k == s.pc.k && t.pc.i == s.pc.i + 1
            && (t.pc.empty <==> s.pc.empty && s.ctx.queues[s.pc.i] == [] && s.ctx.bufs[s.pc.i] == [])
  {}

  /** A change of a logger that is not about a queued request leaves the requests accounted for. */
  lemma ReqsSame(loggers: seq<Logger>, queues: seq<seq<Rec>>, l: nat, x: Logger)
    requires ReqInv(loggers, queues) && l < |loggers|
    requires x.stage == loggers[l].stage || (!x.stage.Queued? && !loggers[l].stage.Queued?)
    ensures ReqInv(loggers[l := x], queues)
  {}

  lemma NotifyStep(s: State)
    requires Inv(s) && Enabled(s, NotifyNext)
    ensures Inv(Apply(s, NotifyNext))
  {
    hide FlagInv, ReqInv, RecInv, RegInv, PassInv, ForgetInv, ScanInv;
    if s.pc.j == |s.removed| {
      assert s.removed[s.pc.j..] == [];
      NotifyEnds(s);
    } else {
      var l := s.removed[s.pc.j];
      assert s.removed[s.pc.j..] == [l] + s.removed[s.pc.j + 1..];
      NotifiedFlag(s.loggers, s.flags, l, s.removed[s.pc.j + 1..]);
      if s.loggers[l].name in s.flags {
        StageSame(s, l, Notified, s.ctx);
        ReqsSame(s.loggers, s.ctx.queues, l, s.loggers[l].(stage := Notified));
      }
      NotifyGoesOn(s, l);
    }
  }

  lemma NotifyEnds(s: State)
    requires Typed(s) && s.pc == Notify(|s.removed|) && ForgetInv(s) && ScanInv(s)
    ensures var t := DoNotify(s); Typed(t) && PassInv(t) && ForgetInv(t) && ScanInv(t)
  {
    hide At, Unnamed;
  }

  /** Setting a flag changes no phase and no erasure, and no pass is under way. */
  lemma NotifyGoesOn(s: State, l: nat)
    requires Typed(s) && s.pc.Notify? && s.pc.j < |s.removed| && ForgetInv(s) && ScanInv(s)
    requires l == s.removed[s.pc.j] && (s.loggers[l].name in s.flags ==> s.flags[s.loggers[l].name] == l)
    ensures var t := DoNotify(s); Typed(t) && PassInv(t) && ForgetInv(t) && ScanInv(t)
  {
    hide At, Unnamed;
  }

  /** The flag that is set belongs to the logger of that name that was erased in this pass. */
  lemma NotifiedFlag(loggers: seq<Logger>, flags: map<string, nat>, l: nat, rest: seq<nat>)
    requires FlagInv(loggers, flags, [l] + rest)
    ensures l < |loggers| && loggers[l].erased
    ensures loggers[l].name in flags ==>
              flags[loggers[l].name] == l && loggers[l].stage.Registered? &&
              FlagInv(loggers[l := loggers[l].(stage := Notified)], flags - {loggers[l].name}, rest)
    ensures loggers[l].name !in flags ==> FlagInv(loggers, flags, rest)
  {
    assert ([l] + rest)[0] == l && l in [l] + rest;
    assert forall x :: x in [l] + rest <==> x == l || x in rest;
  }

  lemma StepKeepsInv(s: State, step: Step)
    requires Inv(s) && Enabled(s, step)
    ensures Inv(Apply(s, step))
  {
    hide Inv, Apply;
    match step
    case Create(name) => CreateStep(s, name);
    case RegisterContext => ContextStep(s);
    case LogRecord(d, l) => LogStep(s, d, l);
    case CommitRequest(d, l) => RequestStep(s, d, l);
    case MarkInvalid(l) => MarkStep(s, l);
    case StoreInvalid(l) => StoreStep(s, l);
    case Decode(d) => DecodeStep(s, d);
    case Process(d) => ProcessStep(s, d);
    case ExchangeInvalid => ExchangeStep(s);
    case Visit => VisitStep(s);
    case Scan => ScanStep(s);
    case NotifyNext => NotifyStep(s);
    case _ => RefreshStep(s, step);
  }

  lemma ScanStep(s: State)
    requires Inv(s) && Enabled(s, Scan)
    ensures Inv(Apply(s, Scan))
  {
    hide Inv, DoScan;
    InvTyped(s);
    if s.pc.i < s.ctx.cached || !s.pc.empty { LookOnStep(s); } else { EraseStep(s); }
  }

  lemma InvTyped(s: State)
    requires Inv(s)
    ensures Typed(s)
  {
    hide Typed, FlagInv, ReqInv, RecInv, RegInv, PassInv, ForgetInv, ScanInv;
  }

  // ---- Runs ------------------------------------------------------------------------------------

  ghost predicate IsRun(run: seq<State>, steps: seq<Step>) {
    && |run| == |steps| + 1
    && run[0] == Start()
    && forall i :: 0 <= i < |steps| ==> Typed(run[i]) && Enabled(run[i], steps[i]) && run[i + 1] == Apply(run[i], steps[i])
  }

  lemma {:induction false} RunInv(run: seq<State>, steps: seq<Step>, n: nat)
    requires IsRun(run, steps) && n < |run|
    ensures Inv(run[n])
    decreases n
  {
    hide Inv, Apply, Enabled, Typed, Start;
    if n == 0 {
      StartInv();
    } else {
      RunInv(run, steps, n - 1);
      StepKeepsInv(run[n - 1], steps[n - 1]);
    }
  }

  lemma StartInv()
    ensures Inv(Start())
  {}

  /** A logger is destroyed only when no queue and no transit buffer holds a record naming it, and none ever will. */
  lemma DestroyedIsUnnamed(run: seq<State>, steps: seq<Step>, n: nat, l: nat, d: nat)
    requires IsRun(run, steps) && n < |run| && l < |run[n].loggers| && run[n].loggers[l].erased && d < |run[n].ctx.queues|
    ensures |run[n].ctx.bufs| == |run[n].ctx.queues| && Unnamed(run[n].ctx, d, l)
  {
    hide IsRun, RegInv, ReqInv, FlagInv, PassInv, ForgetInv, ScanInv;
    RunInv(run, steps, n);
    var s := run[n];
    assert NamesLive(s.loggers, s.ctx.queues[d]) && NamesLive(s.loggers, s.ctx.bufs[d]);
  }

  /** No invalidated logger is forgotten: between passes its flag stays up until it is erased. */
  lemma NoneForgotten(run: seq<State>, steps: seq<Step>, n: nat, l: nat)
    requires IsRun(run, steps) && n < |run| && l < |run[n].loggers|
    requires run[n].loggers[l].phase.Flagged? && !Passing(run[n].pc)
    ensures run[n].loggers[l].erased || run[n].hasInvalid
  {
    hide IsRun, RegInv, ReqInv, RecInv, FlagInv, PassInv, ScanInv, Typed;
    RunInv(run, steps, n);
  }

  /**
   The blocking caller's flag: when the logger is erased, a caller that committed a request has its
   flag in the map; it is set only once the logger is erased; and when the cleanup is over, every
   such caller of an erased logger has been released.
   */
  lemma BlockingCallerReleased(run: seq<State>, steps: seq<Step>, n: nat, l: nat)
    requires IsRun(run, steps) && n < |run| && l < |run[n].loggers|
    ensures var s := run[n]; var x := s.loggers[l];
            && (x.erased && !x.stage.NoRequest? ==> x.stage.Notified? || (x.name in s.flags && s.flags[x.name] == l))
            && (x.stage.Notified? ==> x.erased)
            && (x.erased && !Passing(s.pc) && !s.pc.Notify? ==> x.stage.NoRequest? || x.stage.Notified?)
  {
    hide IsRun, RegInv, PassInv, ForgetInv, ScanInv, RecInv, ReqInv;
    RunInv(run, steps, n);
    var s := run[n];
    if s.loggers[l].erased { NotQueued(s.loggers, s.ctx, l); }
  }

  /** An erased logger's request is in no queue any more. */
  lemma NotQueued(loggers: seq<Logger>, ctx: Contexts, l: nat)
    requires RecInv(loggers, ctx) && ReqInv(loggers, ctx.queues) && l < |loggers| && loggers[l].erased
    ensures !loggers[l].stage.Queued?
  {
    hide NamesLive;
    forall d | 0 <= d < |ctx.queues| ensures multiset(ctx.queues[d])[Request(l)] == 0 {
      NotNamed(loggers, ctx.queues[d], l);
    }
  }
}
