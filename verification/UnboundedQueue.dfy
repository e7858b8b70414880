/**
 The chained queue of quill/include/quill/core/UnboundedSPSCQueue.h: nodes holding a byte ring
 each, grown or shrunk by the producer and deleted by the consumer. Every load and store of the
 two threads is a separate step; node i's successor is node i + 1.
 */
module UnboundedQueue {
  import opened Bits
  import opened BoundedQueue

  datatype Node = Node(ring: Ring, linked: bool, freed: bool)

  datatype ProducerState =
    | PNormal                     // inside the ring of the producer's node
    | PGrowing(next: Config)      // full: about to commit earlier writes before switching
    | PLinking(next: Config)      // successor allocated, about to store the next pointer
    | PSwitching                  // next stored, `_producer` still names the old node

  datatype ConsumerState =
    | CNormal                     // inside the ring of the consumer's node
    | CRetry                      // saw a successor, trying the old node once more
    | CLeaving                    // retry found nothing, about to commit the reads
    | CDeleting                   // about to delete the old node
    | CMoving                     // deleted, `_consumer` still names the old node

  datatype Queue = Queue(
    nodes: seq<Node>,
    producer: nat,
    consumer: nat,
    ps: ProducerState,
    cs: ConsumerState,
    maxCapacity: nat)

  // ---- Growth ----------------------------------------------------------------------------------

  datatype Growth = Grow(capacity: nat) | AtLimit | TooLarge

  /** The doubling loop of _handle_full_queue, with its overflow exit. */
  function GrowLoop(capacity: nat, n: nat, max: nat): nat
    requires 0 < capacity <= SIZE_MAX && n <= SIZE_MAX
    decreases SIZE_MAX - capacity
  {
    if capacity >= n then capacity
    else if capacity > SIZE_MAX / 2 then max
    else GrowLoop(2 * capacity, n, max)
  }

  function HandleFull(capacity: nat, n: nat, max: nat): Growth
    requires 0 < capacity <= SIZE_MAX && n <= SIZE_MAX && 0 < max <= SIZE_MAX
  {
    var c := GrowLoop(if capacity > SIZE_MAX / 2 then max else 2 * capacity, n, max);
    if c > max then (if n > max then TooLarge else AtLimit) else Grow(c)
  }

  /** The capacity decision as the source runs it. */
  method HandleFullQueue(current: nat, n: nat, max: nat) returns (r: Growth)
    requires 0 < current <= SIZE_MAX && n <= SIZE_MAX && 0 < max <= SIZE_MAX
    ensures r == HandleFull(current, n, max)
  {
    var capacity := if current > SIZE_MAX / 2 then max else 2 * current;
    ghost var goal := GrowLoop(capacity, n, max);
    while capacity < n
      invariant 0 < capacity <= SIZE_MAX && GrowLoop(capacity, n, max) == goal
      decreases SIZE_MAX - capacity
    {
      if capacity > SIZE_MAX / 2 {
        capacity := max;
        break;
      }
      capacity := 2 * capacity;
    }
    if capacity > max {
      return if n > max then TooLarge else AtLimit;
    }
    return Grow(capacity);
  }

  /** Doubling a power of two reaches a power of two that is at most any power of two fitting n. */
  lemma {:induction false} GrowLoopExact(k: nat, n: nat, m: nat) returns (j: nat)
    requires k <= 63 && m <= 63 && n <= MAX_POWER_OF_2
    ensures Pow2(k) <= MAX_POWER_OF_2
    ensures k <= j <= 63 && GrowLoop(Pow2(k), n, Pow2(m)) == Pow2(j) && n <= Pow2(j)
    ensures k <= m && n <= Pow2(m) ==> j <= m
    ensures j > k ==> Pow2(j - 1) < n
    decreases 63 - k
  {
    WordConstants();
    if k < 63 { Pow2Strict(k, 63); }
    if Pow2(k) >= n {
      j := k;
    } else {
      assert k < 63;
      j := GrowLoopExact(k + 1, n, m);
      if k == m && n <= Pow2(m) { assert false; }
    }
  }

  /**
   For a record of at most 2^63 bytes and a node below the allocation limit, growth is refused
   exactly when the node already has the maximum capacity or the record exceeds it; a granted
   node is the least larger power of two that fits the record, and it fits the maximum.
   */
  lemma GrowthExact(k: nat, n: nat, m: nat)
    requires k <= 62 && m <= 63 && n <= MAX_POWER_OF_2
    ensures 0 < Pow2(k) <= SIZE_MAX / 2 && Pow2(m) <= SIZE_MAX
    ensures var g := HandleFull(Pow2(k), n, Pow2(m));
            && (g.Grow? <==> k < m && n <= Pow2(m))
            && (g.TooLarge? <==> n > Pow2(m))
            && (g.Grow? ==> n <= g.capacity <= Pow2(m) && 2 * Pow2(k) <= g.capacity && IsPowerOfTwo(g.capacity))
            && (g.Grow? ==> g.capacity == 2 * Pow2(k) || g.capacity / 2 < n)
  {
    hide GrowLoop, IsPowerOfTwo, Pow2;
    SizeFacts(k, m);
    var j := GrowLoopExact(k + 1, n, m);
    Pow2IsPowerOfTwo(j);
    Pow2Order(k + 1, j);
    Pow2Order(j, m);
    SizeFacts(j - 1, m);
  }

  /**
   A granted node is beyond what ValidateCapacity lets the new node allocate exactly when the
   maximum is 2^63 itself and no smaller doubling would do.
   */
  lemma GrantUnallocatableIff(k: nat, n: nat, m: nat)
    requires k <= 62 && m <= 63 && n <= MAX_POWER_OF_2
    ensures 0 < Pow2(k) <= SIZE_MAX / 2 && Pow2(m) <= SIZE_MAX
    ensures var g := HandleFull(Pow2(k), n, Pow2(m));
            g.Grow? && g.capacity > SIZE_MAX / 2 <==> m == 63 && (k == 62 || n > Pow2(62))
  {
    hide GrowLoop, IsPowerOfTwo, Pow2;
    SizeFacts(k, m);
    var j := GrowLoopExact(k + 1, n, m);
    SizeFacts(62, 63);
    WordConstants();
    if j < 63 { Pow2Order(j, 62); }
    Pow2Order(j, m);
    if m < 63 { SizeFacts(62, m); }
    Pow2Order(m, j);
  }

  lemma SizeFacts(k: nat, m: nat)
    requires k <= 62 && m <= 63
    ensures 0 < Pow2(k) <= SIZE_MAX / 2 && Pow2(k + 1) == 2 * Pow2(k) && 0 < Pow2(m) <= SIZE_MAX
  {
    WordConstants();
    Pow2Strict(k, 63);
    if m < 63 { Pow2Strict(m, 63); }
  }

  lemma {:induction false} GrowLoopOverflow(k: nat, n: nat, max: nat)
    requires k <= 63 && MAX_POWER_OF_2 < n <= SIZE_MAX
    ensures Pow2(k) <= MAX_POWER_OF_2 && GrowLoop(Pow2(k), n, max) == max
    decreases 63 - k
  {
    WordConstants();
    if k < 63 {
      Pow2Strict(k, 63);
      GrowLoopOverflow(k + 1, n, max);
    }
  }

  /** Growth grants a node that cannot hold the record exactly for records above 2^63 bytes. */
  lemma GrowthTooSmallIff(k: nat, n: nat, m: nat)
    requires k <= 62 && m <= 63 && n <= SIZE_MAX
    ensures 0 < Pow2(k) <= SIZE_MAX / 2 && Pow2(m) <= SIZE_MAX
    ensures var g := HandleFull(Pow2(k), n, Pow2(m));
            g.Grow? && g.capacity < n <==> n > MAX_POWER_OF_2
  {
    WordConstants();
    if n <= MAX_POWER_OF_2 {
      GrowthExact(k, n, m);
    } else {
      Pow2Strict(k, 63);
      if m < 63 { Pow2Strict(m, 63); }
      GrowLoopOverflow(k + 1, n, Pow2(m));
    }
  }

  /** Such a grant: a node of two bytes for a record of 2^63 + 1. */
  lemma TooSmallGrant()
    ensures HandleFull(1, MAX_POWER_OF_2 + 1, 2) == Grow(2)
  {
    hide GrowLoop;
    assert Pow2(1) == 2;
    GrowLoopOverflow(1, MAX_POWER_OF_2 + 1, 2);
  }

  /** The write that made the queue grow succeeds in the new node. */
  lemma GrownNodeAccepts(c: Config, n: nat)
    requires c.Valid() && n <= c.capacity
    ensures BoundedQueue.Enabled(Fresh(c), PrepareWrite(n)) && PrepareWriteCall(Fresh(c), n).ppc == PReserved(n)
  {
    hide BitAnd, Mod;
    FreshInv(c);
    ConfigSized(c);
    InvTyped(Fresh(c));
    FreeBytesExact(Fresh(c));
  }

  // ---- Steps -----------------------------------------------------------------------------------

  predicate IsProducerStep(step: Step) {
    step.PrepareWrite? || step.LoadReader? || step.ReserveCached? || step.WriteByte? || step.FinishWrite? || step.CommitWrite?
  }

  datatype QStep =
    | ProducerRing(step: Step)
    | DecideGrow(n: nat, c: Config)
    | GrowCommit
    | DecideShrink(c: Config)
    | LinkNext
    | SwitchProducer
    | ConsumerRing(step: Step)
    | LoadNext                    // prepare_read looks for a successor
    | EmptyNext                   // the second half of empty()
    | RetryDone
    | LeaveCommit
    | DeleteNode
    | SwitchConsumer

  predicate Quiet(r: Ring) { r.ppc.PIdle? || r.ppc.PRefused? }

  predicate InBounds(q: Queue) { q.producer < |q.nodes| && q.consumer < |q.nodes| }

  predicate Enabled(q: Queue, a: QStep) {
    InBounds(q) &&
    var p, c := q.nodes[q.producer].ring, q.nodes[q.consumer].ring;
    match a
    case ProducerRing(step) => q.ps.PNormal? && IsProducerStep(step) && BoundedQueue.Enabled(p, step)
    case DecideGrow(n, cfg) =>
      // the ring refused n bytes and the capacity decision was to grow
      && q.ps.PNormal? && p.ppc.PRefused? && cfg.Valid()
      && 0 < p.cfg.capacity <= SIZE_MAX && n <= SIZE_MAX && 0 < q.maxCapacity <= SIZE_MAX
      && HandleFull(p.cfg.capacity, n, q.maxCapacity) == Grow(cfg.capacity)
    case GrowCommit => q.ps.PGrowing?
    case DecideShrink(cfg) =>
      // called between statements; records may be finished and not committed
      && q.ps.PNormal? && Quiet(p) && cfg.Valid() && 2 * cfg.capacity <= p.cfg.capacity
    case LinkNext => q.ps.PLinking?
    case SwitchProducer => q.ps.PSwitching? && q.producer + 1 < |q.nodes|
    case ConsumerRing(step) =>
      && !IsProducerStep(step) && BoundedQueue.Enabled(c, step)
      && (q.cs.CNormal? || (q.cs.CRetry? && (step.CheckEmpty? || step.LoadWriter?) && !c.cpc.CReading? && !c.cpc.CEmpty?))
    case LoadNext => q.cs.CNormal? && c.cpc.CEmpty?
    case EmptyNext => q.cs.CNormal? && c.cpc.CEmpty?
    case RetryDone => q.cs.CRetry? && (c.cpc.CReading? || c.cpc.CEmpty?)
    case LeaveCommit => q.cs.CLeaving? && BoundedQueue.Enabled(c, CommitRead)
    case DeleteNode => q.cs.CDeleting?
    case SwitchConsumer => q.cs.CMoving? && q.consumer + 1 < |q.nodes|
  }

  function SetRing(q: Queue, i: nat, r: Ring): Queue
    requires i < |q.nodes|
  {
    q.(nodes := q.nodes[i := q.nodes[i].(ring := r)])
  }

  function Apply(q: Queue, a: QStep): Queue
    requires Enabled(q, a)
  {
    var p, c := q.nodes[q.producer], q.nodes[q.consumer];
    match a
    case ProducerRing(step) => SetRing(q, q.producer, BoundedQueue.Apply(p.ring, step))
    case DecideGrow(n, cfg) => q.(ps := PGrowing(cfg))
    case GrowCommit => SetRing(q, q.producer, DoCommitWrite(p.ring)).(ps := PLinking(q.ps.next))
    case DecideShrink(cfg) => q.(ps := PLinking(cfg))
    case LinkNext => q.(nodes := q.nodes[q.producer := p.(linked := true)] + [Node(Fresh(q.ps.next), false, false)],
                        ps := PSwitching)
    case SwitchProducer => q.(producer := q.producer + 1, ps := PNormal)
    case ConsumerRing(step) => SetRing(q, q.consumer, BoundedQueue.Apply(c.ring, step))
    case LoadNext => SetRing(q, q.consumer, c.ring.(cpc := CIdle)).(cs := if c.linked then CRetry else CNormal)
    case EmptyNext => SetRing(q, q.consumer, c.ring.(cpc := CIdle))
    case RetryDone => q.(cs := if c.ring.cpc.CReading? then CNormal else CLeaving)
    case LeaveCommit => SetRing(q, q.consumer, DoCommitRead(c.ring)).(cs := CDeleting)
    case DeleteNode => q.(nodes := q.nodes[q.consumer := c.(freed := true)], cs := CMoving)
    case SwitchConsumer => q.(consumer := q.consumer + 1, cs := CNormal)
  }

  /** The nodes whose memory a step reads or writes. */
  function Touched(q: Queue, a: QStep): set<nat> {
    match a
    case ProducerRing(_) => {q.producer}
    case DecideGrow(_, _) => {q.producer}
    case GrowCommit => {q.producer}
    case DecideShrink(_) => {q.producer}
    case LinkNext => {q.producer}
    case SwitchProducer => {}
    case ConsumerRing(_) => {q.consumer}
    case LoadNext => {q.consumer}
    case EmptyNext => {q.consumer}
    case RetryDone => {}
    case LeaveCommit => {q.consumer}
    case DeleteNode => {q.consumer}
    case SwitchConsumer => {}
  }

  // ---- Invariant -------------------------------------------------------------------------------

  /** A node the consumer has left: everything ever committed in it was read. */
  ghost predicate Drained(n: Node) {
    n.linked && n.freed && n.ring.k.read == n.ring.k.committed
  }

  /** A node the consumer has not reached. */
  ghost predicate Untouched(n: Node) {
    !n.freed && n.ring.k.read == 0 && n.ring.inbox == Inbox([], []) && n.ring.cpc.CIdle?
  }

  ghost predicate ConsumerOk(n: Node, cs: ConsumerState) {
    && n.freed == cs.CMoving?
    && (!cs.CNormal? ==> n.linked)
    && (cs.CRetry? && n.ring.cpc.CEmpty? ==> n.ring.k.read == n.ring.k.committed)
    && (cs.CLeaving? || cs.CDeleting? || cs.CMoving? ==> n.ring.k.read == n.ring.k.committed && !n.ring.cpc.CReload?)
  }

  ghost predicate ProducerOk(q: Queue)
    requires InBounds(q)
  {
    var p := q.nodes[q.producer];
    && (if q.ps.PSwitching? then q.producer + 2 == |q.nodes| else q.producer + 1 == |q.nodes|)
    && p.linked == q.ps.PSwitching?
    && (q.ps.PGrowing? || q.ps.PLinking? ==> q.ps.next.Valid() && Quiet(p.ring))
  }

  ghost predicate RingsOk(nodes: seq<Node>) {
    forall i :: 0 <= i < |nodes| ==> Inv(nodes[i].ring)
  }

  ghost predicate ChainOk(nodes: seq<Node>, consumer: nat) {
    && (forall i :: 0 <= i < |nodes| ==> nodes[i].linked == (i + 1 < |nodes|))
    && (forall i :: 0 <= i < |nodes| && i < consumer ==> Drained(nodes[i]))
    && (forall i :: consumer < i < |nodes| ==> Untouched(nodes[i]))
  }

  ghost predicate QInv(q: Queue) {
    && InBounds(q)
    && RingsOk(q.nodes)
    && ChainOk(q.nodes, q.consumer)
    && ProducerOk(q)
    && ConsumerOk(q.nodes[q.consumer], q.cs)
  }

  function FreshQueue(c: Config, max: nat): Queue {
    Queue([Node(Fresh(c), false, false)], 0, 0, PNormal, CNormal, max)
  }

  lemma FreshQueueInv(c: Config, max: nat)
    requires c.Valid()
    ensures QInv(FreshQueue(c, max))
  {
    hide Inv, BitAnd, Mod;
    FreshInv(c);
  }

  // ---- Frames of the ring steps ----------------------------------------------------------------

  ghost predicate SameConsumerSide(r: Ring, r': Ring) {
    r'.k.read == r.k.read && r'.inbox == r.inbox && r'.cpc == r.cpc
  }

  ghost predicate SameProducerSide(r: Ring, r': Ring) {
    r'.tape == r.tape && r'.k.committed == r.k.committed && r'.ppc == r.ppc && r'.cfg == r.cfg
  }

  lemma ProducerFrame(r: Ring, step: Step)
    requires BoundedQueue.Enabled(r, step) && IsProducerStep(step)
    ensures SameConsumerSide(r, BoundedQueue.Apply(r, step))
    ensures r.tape.recs <= BoundedQueue.Apply(r, step).tape.recs
    ensures Inv(r) ==> r.k.committed <= BoundedQueue.Apply(r, step).k.committed
  {
    hide BitAnd, Mod;
  }

  lemma ConsumerFrame(r: Ring, step: Step)
    requires BoundedQueue.Enabled(r, step) && !IsProducerStep(step)
    ensures SameProducerSide(r, BoundedQueue.Apply(r, step))
    ensures step.CheckEmpty? || step.LoadWriter? ==> BoundedQueue.Apply(r, step).k.read == r.k.read
    ensures r.inbox.log <= BoundedQueue.Apply(r, step).inbox.log
  {
    hide BitAnd, Mod;
  }

  lemma IdleInv(r: Ring)
    requires Inv(r)
    ensures Inv(r.(cpc := CIdle))
  {
    hide Mod, BitAnd, Chained, AllStored, Received;
  }

  // ---- Preservation ----------------------------------------------------------------------------

  lemma KeepsProducerRing(q: Queue, step: Step)
    requires QInv(q) && Enabled(q, ProducerRing(step))
    ensures QInv(Apply(q, ProducerRing(step)))
  {
    hide Inv, BoundedQueue.Apply, BoundedQueue.Enabled, IsProducerStep;
    var p := q.nodes[q.producer].ring;
    StepKeepsInv(p, step);
    ProducerFrame(p, step);
  }

  lemma KeepsGrowCommit(q: Queue)
    requires QInv(q) && Enabled(q, GrowCommit)
    ensures QInv(Apply(q, GrowCommit))
  {
    hide Inv;
    KeepsCommitWrite(q.nodes[q.producer].ring);
  }

  lemma KeepsDecide(q: Queue, a: QStep)
    requires QInv(q) && Enabled(q, a) && (a.DecideGrow? || a.DecideShrink?)
    ensures QInv(Apply(q, a))
  {
    hide Inv, HandleFull, RingsOk, ChainOk;
  }

  lemma KeepsLinkNext(q: Queue)
    requires QInv(q) && Enabled(q, LinkNext)
    ensures QInv(Apply(q, LinkNext))
  {
    hide Inv;
    FreshInv(q.ps.next);
  }

  lemma KeepsSwitchProducer(q: Queue)
    requires QInv(q) && Enabled(q, SwitchProducer)
    ensures QInv(Apply(q, SwitchProducer))
  {
    hide Inv;
  }

  /** A load of the writer position that finds nothing shows that all committed records are read. */
  lemma EmptyIsDrained(r: Ring, step: Step)
    requires Inv(r) && BoundedQueue.Enabled(r, step)
    requires step.CheckEmpty? || step.LoadWriter?
    ensures BoundedQueue.Apply(r, step).cpc.CEmpty? ==> r.k.read == r.k.committed
  {
    hide Inv, BitAnd, Mod;
    if step.LoadWriter? { NullReadIffDrained(r); }
  }

  lemma KeepsConsumerRing(q: Queue, step: Step)
    requires QInv(q) && Enabled(q, ConsumerRing(step))
    ensures QInv(Apply(q, ConsumerRing(step)))
  {
    hide Inv, BoundedQueue.Apply, BoundedQueue.Enabled, IsProducerStep;
    var c := q.nodes[q.consumer].ring;
    StepKeepsInv(c, step);
    ConsumerFrame(c, step);
    if q.cs.CRetry? { EmptyIsDrained(c, step); }
  }

  lemma KeepsLoadNext(q: Queue, a: QStep)
    requires QInv(q) && Enabled(q, a) && (a.LoadNext? || a.EmptyNext?)
    ensures QInv(Apply(q, a))
  {
    hide Inv;
    IdleInv(q.nodes[q.consumer].ring);
  }

  lemma KeepsRetryDone(q: Queue)
    requires QInv(q) && Enabled(q, RetryDone)
    ensures QInv(Apply(q, RetryDone))
  {
    hide Inv, RingsOk, ChainOk;
  }

  lemma KeepsLeaveCommit(q: Queue)
    requires QInv(q) && Enabled(q, LeaveCommit)
    ensures QInv(Apply(q, LeaveCommit))
  {
    hide Inv, BoundedQueue.Enabled;
    var c := q.nodes[q.consumer].ring;
    LeaveFacts(c);
  }

  lemma LeaveFacts(r: Ring)
    requires Inv(r) && BoundedQueue.Enabled(r, CommitRead)
    ensures Typed(r) && Inv(DoCommitRead(r))
    ensures SameProducerSide(r, DoCommitRead(r)) && SameConsumerSide(r, DoCommitRead(r))
  {
    hide Inv, BitAnd, Mod;
    KeepsCommitRead(r);
  }

  lemma KeepsDeleteNode(q: Queue)
    requires QInv(q) && Enabled(q, DeleteNode)
    ensures QInv(Apply(q, DeleteNode))
  {
    hide Inv;
  }

  lemma KeepsSwitchConsumer(q: Queue)
    requires QInv(q) && Enabled(q, SwitchConsumer)
    ensures QInv(Apply(q, SwitchConsumer))
  {
    hide Inv, RingsOk;
  }

  /** Every step of either thread keeps the invariant. */
  lemma StepKeepsQInv(q: Queue, a: QStep)
    requires QInv(q) && Enabled(q, a)
    ensures QInv(Apply(q, a))
  {
    hide QInv, Apply;
    match a
    case ProducerRing(step) => KeepsProducerRing(q, step);
    case DecideGrow(_, _) => KeepsDecide(q, a);
    case GrowCommit => KeepsGrowCommit(q);
    case DecideShrink(_) => KeepsDecide(q, a);
    case LinkNext => KeepsLinkNext(q);
    case SwitchProducer => KeepsSwitchProducer(q);
    case ConsumerRing(step) => KeepsConsumerRing(q, step);
    case LoadNext => KeepsLoadNext(q, a);
    case EmptyNext => KeepsLoadNext(q, a);
    case RetryDone => KeepsRetryDone(q);
    case LeaveCommit => KeepsLeaveCommit(q);
    case DeleteNode => KeepsDeleteNode(q);
    case SwitchConsumer => KeepsSwitchConsumer(q);
  }

  /** Neither thread ever waits for the other: whatever it is doing, its next step is open. */
  lemma CanStep(q: Queue, p: Ring, c: Ring)
    requires InBounds(q) && p == q.nodes[q.producer].ring && c == q.nodes[q.consumer].ring
    requires QInv(q)
    ensures match q.ps
            case PNormal => p.ppc.PReload? || Enabled(q, ProducerRing(CommitWrite))
            case PGrowing(_) => Enabled(q, GrowCommit)
            case PLinking(_) => Enabled(q, LinkNext)
            case PSwitching => Enabled(q, SwitchProducer)
    ensures q.cs.CNormal? ==> if c.cpc.CReload? then Enabled(q, ConsumerRing(LoadWriter)) else Enabled(q, ConsumerRing(CheckEmpty))
    ensures q.cs.CRetry? ==>
              if c.cpc.CIdle? then Enabled(q, ConsumerRing(CheckEmpty))
              else if c.cpc.CReload? then Enabled(q, ConsumerRing(LoadWriter)) else Enabled(q, RetryDone)
    ensures q.cs.CLeaving? ==> Enabled(q, LeaveCommit)
    ensures q.cs.CDeleting? ==> Enabled(q, DeleteNode)
    ensures q.cs.CMoving? ==> Enabled(q, SwitchConsumer)
  {
    hide Inv, RingsOk;
    RingsTyped(q);
  }

  lemma RingsTyped(q: Queue)
    requires QInv(q)
    ensures InBounds(q) && Typed(q.nodes[q.producer].ring) && Typed(q.nodes[q.consumer].ring)
  {
    hide Inv;
    InvTyped(q.nodes[q.producer].ring);
    InvTyped(q.nodes[q.consumer].ring);
  }

  // ---- Whole runs ------------------------------------------------------------------------------

  ghost predicate IsRun(c: Config, max: nat, run: seq<Queue>, steps: seq<QStep>) {
    && c.Valid()
    && |run| == |steps| + 1
    && run[0] == FreshQueue(c, max)
    && forall i :: 0 <= i < |steps| ==> Enabled(run[i], steps[i]) && run[i + 1] == Apply(run[i], steps[i])
  }

  lemma {:induction false} RunInv(c: Config, max: nat, run: seq<Queue>, steps: seq<QStep>, k: nat)
    requires IsRun(c, max, run, steps) && k < |run|
    ensures QInv(run[k])
  {
    hide QInv, Apply, Enabled;
    if k == 0 {
      FreshQueueInv(c, max);
    } else {
      RunInv(c, max, run, steps, k - 1);
      StepKeepsQInv(run[k - 1], steps[k - 1]);
    }
  }

  /** Memory safety: no step ever touches a node the consumer has deleted. */
  lemma NoUseAfterDelete(c: Config, max: nat, run: seq<Queue>, steps: seq<QStep>, k: nat)
    requires IsRun(c, max, run, steps) && k < |steps|
    ensures forall i :: i in Touched(run[k], steps[k]) ==> i < |run[k].nodes| && !run[k].nodes[i].freed
  {
    RunInv(c, max, run, steps, k);
    TouchedAlive(run[k], steps[k]);
  }

  lemma TouchedAlive(q: Queue, a: QStep)
    requires QInv(q) && Enabled(q, a)
    ensures forall i :: i in Touched(q, a) ==> i < |q.nodes| && !q.nodes[i].freed
  {
    hide Inv, HandleFull, BoundedQueue.Enabled, IsProducerStep;
  }

  // ---- One FIFO --------------------------------------------------------------------------------

  /** The committed records of all nodes, in chain order. */
  ghost function Committed(nodes: seq<Node>): seq<seq<Byte>> {
    if nodes == [] then []
    else Committed(nodes[..|nodes| - 1]) + CommittedIn(nodes[|nodes| - 1].ring)
  }

  ghost function CommittedIn(r: Ring): seq<seq<Byte>> {
    if r.k.committed <= |r.tape.recs| then Payloads(r.tape.recs[..r.k.committed]) else []
  }

  /** The records the consumer received from all nodes, in chain order. */
  ghost function Received(nodes: seq<Node>): seq<seq<Byte>> {
    if nodes == [] then []
    else Received(nodes[..|nodes| - 1]) + nodes[|nodes| - 1].ring.inbox.log
  }

  lemma RingFifo(r: Ring)
    requires Inv(r)
    ensures r.inbox.log <= CommittedIn(r) && (r.k.read == r.k.committed ==> r.inbox.log == CommittedIn(r))
  {
    InvSafe(r);
    LogLength(r);
    hide Inv, BitAnd, Mod, AllStored;
  }

  lemma LogLength(r: Ring)
    requires Inv(r)
    ensures |r.inbox.log| == r.k.read <= r.k.committed <= |r.tape.recs|
    ensures r.cpc.CReading? ==> r.k.read < r.k.committed
  {
    hide Mod, BitAnd, Chained, AllStored;
  }

  lemma {:induction false} ChainFifo(nodes: seq<Node>, consumer: nat)
    requires RingsOk(nodes)
    requires forall i :: 0 <= i < |nodes| && i < consumer ==> Drained(nodes[i])
    requires forall i :: consumer < i < |nodes| ==> Untouched(nodes[i])
    ensures Received(nodes) <= Committed(nodes)
    ensures |nodes| <= consumer ==> Received(nodes) == Committed(nodes)
  {
    hide Inv, CommittedIn;
    if nodes == [] {
    } else {
      var init, last := nodes[..|nodes| - 1], nodes[|nodes| - 1];
      ChainFifo(init, consumer);
      RingFifo(last.ring);
    }
  }

  /** In every interleaving the consumer has received a prefix of all committed records, in order. */
  lemma EveryRunIsOneFifo(c: Config, max: nat, run: seq<Queue>, steps: seq<QStep>, k: nat)
    requires IsRun(c, max, run, steps) && k < |run|
    ensures Received(run[k].nodes) <= Committed(run[k].nodes)
    ensures forall i :: 0 <= i < run[k].consumer && i < |run[k].nodes| ==> Drained(run[k].nodes[i])
  {
    RunInv(c, max, run, steps, k);
    ChainFifo(run[k].nodes, run[k].consumer);
  }

  lemma {:induction false} CommittedPrefix(nodes: seq<Node>, i: nat, r: Ring)
    requires i < |nodes| && (i + 1 == |nodes| || CommittedIn(r) == CommittedIn(nodes[i].ring))
    requires CommittedIn(nodes[i].ring) <= CommittedIn(r)
    ensures Committed(nodes) <= Committed(nodes[i := nodes[i].(ring := r)])
    ensures CommittedIn(r) == CommittedIn(nodes[i].ring) ==> Committed(nodes) == Committed(nodes[i := nodes[i].(ring := r)])
  {
    hide CommittedIn;
    var init := nodes[..|nodes| - 1];
    var nodes' := nodes[i := nodes[i].(ring := r)];
    if i + 1 == |nodes| {
      assert nodes'[..|nodes| - 1] == init;
    } else {
      assert nodes'[..|nodes| - 1] == init[i := init[i].(ring := r)];
      CommittedPrefix(init, i, r);
    }
  }

  lemma {:induction false} CommittedSameRings(nodes: seq<Node>, nodes': seq<Node>)
    requires |nodes| == |nodes'| && forall i :: 0 <= i < |nodes| ==> nodes'[i].ring == nodes[i].ring
    ensures Committed(nodes) == Committed(nodes')
  {
    hide CommittedIn;
    if nodes == [] {
    } else {
      CommittedSameRings(nodes[..|nodes| - 1], nodes'[..|nodes| - 1]);
    }
  }

  lemma CommittedInGrows(r: Ring, r': Ring)
    requires r.tape.recs <= r'.tape.recs && r.k.committed <= r'.k.committed <= |r'.tape.recs|
    ensures CommittedIn(r) <= CommittedIn(r')
  {}

  lemma ProducerRingGrows(q: Queue, step: Step)
    requires QInv(q) && Enabled(q, ProducerRing(step))
    ensures Committed(q.nodes) <= Committed(Apply(q, ProducerRing(step)).nodes)
  {
    hide Inv, BoundedQueue.Apply, BoundedQueue.Enabled, IsProducerStep, Committed, CommittedIn;
    var p := q.nodes[q.producer].ring;
    StepKeepsInv(p, step);
    ProducerFrame(p, step);
    LogLength(BoundedQueue.Apply(p, step));
    CommittedInGrows(p, BoundedQueue.Apply(p, step));
    CommittedPrefix(q.nodes, q.producer, BoundedQueue.Apply(p, step));
  }

  lemma GrowCommitGrows(q: Queue)
    requires QInv(q) && Enabled(q, GrowCommit)
    ensures Committed(q.nodes) <= Committed(Apply(q, GrowCommit).nodes)
  {
    hide Inv, Committed, CommittedIn;
    var p := q.nodes[q.producer].ring;
    LogLength(p);
    CommittedInGrows(p, DoCommitWrite(p));
    CommittedPrefix(q.nodes, q.producer, DoCommitWrite(p));
  }

  lemma LinkGrows(q: Queue)
    requires QInv(q) && Enabled(q, LinkNext)
    ensures Committed(q.nodes) <= Committed(Apply(q, LinkNext).nodes)
  {
    hide Inv, CommittedIn;
    var linked := q.nodes[q.producer := q.nodes[q.producer].(linked := true)];
    CommittedSameRings(q.nodes, linked);
    assert Apply(q, LinkNext).nodes[..|q.nodes|] == linked;
  }

  lemma ConsumerSideGrows(q: Queue, a: QStep)
    requires QInv(q) && Enabled(q, a) && (a.ConsumerRing? || a.LoadNext? || a.EmptyNext? || a.LeaveCommit?)
    ensures Committed(q.nodes) == Committed(Apply(q, a).nodes)
  {
    hide Inv, BoundedQueue.Apply, BoundedQueue.Enabled, IsProducerStep, Committed;
    var c := q.nodes[q.consumer].ring;
    InvTyped(c);
    var r :=
      if a.ConsumerRing? then BoundedQueue.Apply(c, a.step) else if a.LeaveCommit? then DoCommitRead(c) else c.(cpc := CIdle);
    if a.ConsumerRing? { ConsumerFrame(c, a.step); }
    if a.LeaveCommit? { LeaveFacts(c); }
    CommittedPrefix(q.nodes, q.consumer, r);
  }

  /** Records are only ever appended to the committed sequence: one FIFO in commit order. */
  lemma CommittedOnlyGrows(q: Queue, a: QStep)
    requires QInv(q) && Enabled(q, a)
    ensures Committed(q.nodes) <= Committed(Apply(q, a).nodes)
  {
    hide QInv, Committed;
    match a
    case ProducerRing(step) => ProducerRingGrows(q, step);
    case DecideGrow(_, _) =>
    case GrowCommit => GrowCommitGrows(q);
    case DecideShrink(_) =>
    case LinkNext => LinkGrows(q);
    case SwitchProducer =>
    case ConsumerRing(_) => ConsumerSideGrows(q, a);
    case LoadNext => ConsumerSideGrows(q, a);
    case EmptyNext => ConsumerSideGrows(q, a);
    case RetryDone =>
    case LeaveCommit => ConsumerSideGrows(q, a);
    case DeleteNode => CommittedSameRings(q.nodes, Apply(q, a).nodes);
    case SwitchConsumer =>
  }

  // ---- Progress of the consumer ----------------------------------------------------------------

  predicate Waiting(n: Node) { n.ring.k.read < n.ring.k.committed }

  /** Committed records are waiting in some node the consumer has not left. */
  ghost predicate Outstanding(q: Queue) {
    exists i :: q.consumer <= i < |q.nodes| && Waiting(q.nodes[i])
  }

  lemma ReadRingExact(r: Ring)
    requires Inv(r) && !r.cpc.CReload?
    ensures Inv(PrepareReadCall(r))
    ensures PrepareReadCall(r).cpc == (if r.k.read < r.k.committed then CReading else CEmpty)
    ensures SameProducerSide(r, PrepareReadCall(r)) && PrepareReadCall(r).k.read == r.k.read
  {
    hide Inv, BitAnd, Mod;
    KeepsCheckEmpty(r);
    KeepsLoadWriter(DoCheckEmpty(r));
    NullReadIffDrained(DoCheckEmpty(r));
    LogLength(r);
    if DoCheckEmpty(r).cpc.CReading? { LogLength(DoCheckEmpty(r)); }
  }

  /** The consumer may start a prepare_read of its node. */
  ghost predicate CanRead(q: Queue) {
    QInv(q) && var c := q.nodes[q.consumer].ring.cpc;
    !c.CReload? && (q.cs.CNormal? || (q.cs.CRetry? && c.CIdle?))
  }

  /** The two steps of a ring read, as steps of the queue. */
  ghost function ReadOnce(q: Queue): (t: Queue)
    requires CanRead(q)
    ensures QInv(t) && t == SetRing(q, q.consumer, PrepareReadCall(q.nodes[q.consumer].ring))
  {
    hide Inv, QInv;
    ReadOnceEnabled(q);
    var a := ConsumerRing(CheckEmpty);
    var t := Apply(q, a);
    if t.nodes[q.consumer].ring.cpc.CReload? then Apply(t, ConsumerRing(LoadWriter)) else t
  }

  lemma ReadOnceEnabled(q: Queue)
    requires CanRead(q)
    ensures InBounds(q) && Enabled(q, ConsumerRing(CheckEmpty))
    ensures var t := Apply(q, ConsumerRing(CheckEmpty));
            && QInv(t) && InBounds(t) && t == SetRing(q, q.consumer, DoCheckEmpty(q.nodes[q.consumer].ring))
            && (t.nodes[q.consumer].ring.cpc.CReload? ==>
                  && Enabled(t, ConsumerRing(LoadWriter)) && QInv(Apply(t, ConsumerRing(LoadWriter)))
                  && Apply(t, ConsumerRing(LoadWriter)) == SetRing(q, q.consumer, PrepareReadCall(q.nodes[q.consumer].ring)))
  {
    hide Inv, RingsOk, ChainOk, ProducerOk, ConsumerOk;
    ConsumerTyped(q);
    StepKeepsQInv(q, ConsumerRing(CheckEmpty));
    var t := Apply(q, ConsumerRing(CheckEmpty));
    if t.nodes[q.consumer].ring.cpc.CReload? {
      ConsumerTyped(t);
      StepKeepsQInv(t, ConsumerRing(LoadWriter));
    }
  }

  lemma ConsumerTyped(q: Queue)
    requires QInv(q)
    ensures InBounds(q) && Inv(q.nodes[q.consumer].ring) && Typed(q.nodes[q.consumer].ring)
  {
    hide ChainOk, ProducerOk, ConsumerOk, Inv;
    InvTyped(q.nodes[q.consumer].ring);
  }

  /** The steps of leaving a drained node whose retry found nothing. */
  ghost function Leave(q: Queue): (t: Queue)
    requires QInv(q) && q.cs.CLeaving?
    ensures QInv(t) && CanRead(t) && t.consumer == q.consumer + 1 && |t.nodes| == |q.nodes|
    ensures forall i :: q.consumer < i < |q.nodes| ==> t.nodes[i] == q.nodes[i]
  {
    LeaveSteps(q);
    Apply(Apply(Apply(q, LeaveCommit), DeleteNode), SwitchConsumer)
  }

  lemma LeaveSteps(q: Queue)
    requires QInv(q) && q.cs.CLeaving?
    ensures Enabled(q, LeaveCommit) && Enabled(Apply(q, LeaveCommit), DeleteNode)
    ensures Enabled(Apply(Apply(q, LeaveCommit), DeleteNode), SwitchConsumer)
    ensures var t := Apply(Apply(Apply(q, LeaveCommit), DeleteNode), SwitchConsumer);
            && QInv(t) && CanRead(t) && t.consumer == q.consumer + 1 && |t.nodes| == |q.nodes|
            && forall i :: q.consumer < i < |q.nodes| ==> t.nodes[i] == q.nodes[i]
  {
    hide Inv, QInv;
    ConsumerTyped(q);
    LeavingFacts(q);
    StepKeepsQInv(q, LeaveCommit);
    var t := Apply(q, LeaveCommit);
    StepKeepsQInv(t, DeleteNode);
    var u := Apply(t, DeleteNode);
    StepKeepsQInv(u, SwitchConsumer);
    SuccessorFacts(q);
  }

  lemma LeavingFacts(q: Queue)
    requires QInv(q) && q.cs.CLeaving?
    ensures InBounds(q) && q.consumer + 1 < |q.nodes| && !q.nodes[q.consumer].ring.cpc.CReload?
  {
    hide Inv;
  }

  lemma SuccessorFacts(q: Queue)
    requires QInv(q) && q.consumer + 1 < |q.nodes|
    ensures q.nodes[q.consumer + 1].ring.cpc.CIdle? && q.nodes[q.consumer].linked
  {
    hide Inv;
  }

  /** Result of a whole prepare_read: the queue afterwards and whether a record was handed out. */
  datatype ReadResult = ReadResult(q: Queue, found: bool)

  /** prepare_read of the queue, run without interference from the producer, step by step. */
  ghost function PrepareRead(q: Queue): ReadResult
    requires CanRead(q) && q.cs.CNormal?
  {
    var t := ReadOnce(q);
    if t.nodes[q.consumer].ring.cpc.CReading? then ReadResult(t, true)
    else
      ReadNextFacts(q);
      var u := Apply(t, LoadNext);
      if u.cs.CNormal? then ReadResult(u, false)
      else
        RetryFacts(u);
        var w := Apply(ReadOnce(u), RetryDone);
        if w.cs.CNormal? then ReadResult(w, true)
        else
          var x := Leave(w);
          var y := ReadOnce(x);
          ReadResult(y, y.nodes[y.consumer].ring.cpc.CReading?)
  }

  lemma ReadNextFacts(q: Queue)
    requires CanRead(q) && q.cs.CNormal? && !ReadOnce(q).nodes[q.consumer].ring.cpc.CReading?
    ensures var t := ReadOnce(q);
            && Enabled(t, LoadNext) && QInv(Apply(t, LoadNext))
            && (Apply(t, LoadNext).cs.CRetry? ==> CanRead(Apply(t, LoadNext)))
            && !Waiting(q.nodes[q.consumer])
  {
    hide Inv, RingsOk, ChainOk, ProducerOk, ConsumerOk;
    ConsumerTyped(q);
    ReadRingExact(q.nodes[q.consumer].ring);
    StepKeepsQInv(ReadOnce(q), LoadNext);
  }

  lemma RetryFacts(u: Queue)
    requires CanRead(u) && u.cs.CRetry?
    ensures var v := ReadOnce(u);
            && Enabled(v, RetryDone) && QInv(Apply(v, RetryDone))
            && (Apply(v, RetryDone).cs.CNormal? <==> Waiting(u.nodes[u.consumer]))
            && (Apply(v, RetryDone).cs.CNormal? || Apply(v, RetryDone).cs.CLeaving?)
  {
    hide Inv, RingsOk, ChainOk, ProducerOk, ConsumerOk;
    ConsumerTyped(u);
    ReadRingExact(u.nodes[u.consumer].ring);
    StepKeepsQInv(ReadOnce(u), RetryDone);
  }

  /** Nothing but the consumer's node changed, and its waiting records are the same. */
  ghost predicate SameAhead(q: Queue, t: Queue) {
    && |t.nodes| == |q.nodes| && t.consumer >= q.consumer
    && forall i :: t.consumer <= i < |q.nodes| ==> Waiting(t.nodes[i]) == Waiting(q.nodes[i])
  }

  lemma ReadOnceExact(q: Queue)
    requires CanRead(q)
    ensures InBounds(q)
    ensures var t := ReadOnce(q);
            && SameAhead(q, t) && t.consumer == q.consumer && t.cs == q.cs
            && (forall i :: q.consumer < i < |q.nodes| ==> t.nodes[i] == q.nodes[i])
            && t.nodes[q.consumer].linked == q.nodes[q.consumer].linked
            && t.nodes[q.consumer].ring.cpc == (if Waiting(q.nodes[q.consumer]) then CReading else CEmpty)
  {
    hide Inv, ChainOk, ProducerOk, ConsumerOk, PrepareReadCall;
    ConsumerTyped(q);
    ReadRingExact(q.nodes[q.consumer].ring);
  }

  lemma ReadHere(q: Queue)
    requires CanRead(q) && q.cs.CNormal? && InBounds(q) && Waiting(q.nodes[q.consumer])
    ensures PrepareRead(q) == ReadResult(ReadOnce(q), true)
  {
    hide QInv, CanRead, ReadOnce;
    ReadOnceExact(q);
  }

  lemma ReadNowhere(q: Queue)
    requires CanRead(q) && q.cs.CNormal? && InBounds(q)
    requires !Waiting(q.nodes[q.consumer]) && !q.nodes[q.consumer].linked
    ensures var r := PrepareRead(q);
            && !r.found && QInv(r.q) && SameAhead(q, r.q) && r.q.consumer == q.consumer
            && r.q.cs.CNormal? && InBounds(r.q) && !r.q.nodes[r.q.consumer].ring.cpc.CReload?
  {
    hide QInv, CanRead, ReadOnce;
    ReadOnceExact(q);
    ReadNextFacts(q);
  }

  lemma LoadNextLinked(q: Queue)
    requires CanRead(q) && q.cs.CNormal? && InBounds(q)
    requires !Waiting(q.nodes[q.consumer]) && q.nodes[q.consumer].linked
    ensures Enabled(ReadOnce(q), LoadNext)
    ensures var u := Apply(ReadOnce(q), LoadNext);
            && CanRead(u) && u.cs.CRetry? && InBounds(u) && u.consumer == q.consumer && |u.nodes| == |q.nodes|
            && !Waiting(u.nodes[u.consumer])
            && forall i :: q.consumer < i < |q.nodes| ==> u.nodes[i] == q.nodes[i]
  {
    hide QInv, CanRead, ReadOnce;
    ReadOnceExact(q);
    ReadNextFacts(q);
  }

  lemma RetryFails(u: Queue)
    requires CanRead(u) && u.cs.CRetry? && InBounds(u) && !Waiting(u.nodes[u.consumer])
    ensures Enabled(ReadOnce(u), RetryDone)
    ensures var w := Apply(ReadOnce(u), RetryDone);
            && QInv(w) && w.cs.CLeaving? && w.consumer == u.consumer && |w.nodes| == |u.nodes|
            && forall i :: u.consumer < i < |u.nodes| ==> w.nodes[i] == u.nodes[i]
  {
    hide QInv, CanRead, ReadOnce;
    ReadOnceExact(u);
    RetryFacts(u);
  }

  lemma ReadNext(q: Queue)
    requires CanRead(q) && q.cs.CNormal? && InBounds(q)
    requires !Waiting(q.nodes[q.consumer]) && q.nodes[q.consumer].linked
    ensures var r := PrepareRead(q);
            && QInv(r.q) && r.q.consumer == q.consumer + 1 < |q.nodes| && SameAhead(q, r.q)
            && r.found == Waiting(q.nodes[q.consumer + 1])
            && r.q.cs.CNormal? && !r.q.nodes[r.q.consumer].ring.cpc.CReload?
  {
    hide QInv, CanRead, ReadOnce, Leave, Apply;
    LoadNextLinked(q);
    var u := Apply(ReadOnce(q), LoadNext);
    ReadOnceExact(q);
    RetryFails(u);
    var x := Leave(Apply(ReadOnce(u), RetryDone));
    LeaveNormal(Apply(ReadOnce(u), RetryDone));
    ReadOnceExact(x);
  }

  lemma LeaveNormal(w: Queue)
    requires QInv(w) && w.cs.CLeaving?
    ensures Leave(w).cs.CNormal? && InBounds(Leave(w))
  {
    hide QInv, CanRead;
    LeaveSteps(w);
    ConsumerTyped(Leave(w));
  }

  /**
   What one prepare_read does: it hands out a record of the current node if one is committed;
   otherwise it moves to the next node, if linked, and hands out a record exactly if that node
   has one. Null with data two nodes ahead is therefore possible.
   */
  lemma PrepareReadExact(q: Queue)
    requires CanRead(q) && q.cs.CNormal?
    ensures InBounds(q)
    ensures var r, c := PrepareRead(q), q.nodes[q.consumer];
            && QInv(r.q) && SameAhead(q, r.q)
            && r.q.consumer == (if Waiting(c) || !c.linked then q.consumer else q.consumer + 1) < |q.nodes|
            && r.found == Waiting(q.nodes[r.q.consumer])
            && (!r.found ==> CanRead(r.q) && r.q.cs.CNormal?)
  {
    hide QInv, ReadOnce, PrepareRead;
    ConsumerTyped(q);
    if Waiting(q.nodes[q.consumer]) {
      ReadHere(q);
      ReadOnceExact(q);
    } else if q.nodes[q.consumer].linked {
      ReadNext(q);
    } else {
      ReadNowhere(q);
    }
  }

  /** A record is handed out by one of the next n calls, with no producer step in between. */
  ghost predicate FoundWithin(q: Queue, n: nat)
    requires CanRead(q) && q.cs.CNormal?
    decreases n
  {
    hide QInv, PrepareRead;
    n > 0 &&
    var r := PrepareRead(q);
    r.found || (CanRead(r.q) && r.q.cs.CNormal? && FoundWithin(r.q, n - 1))
  }

  /** The consumer never sticks: waiting records are reached in at most as many calls as nodes. */
  lemma {:induction false} ReadReachesWaiting(q: Queue)
    requires CanRead(q) && q.cs.CNormal? && Outstanding(q)
    ensures q.consumer < |q.nodes| && FoundWithin(q, |q.nodes| - q.consumer)
    decreases |q.nodes| - q.consumer
  {
    hide Inv, RingsOk, ChainOk, ProducerOk, ConsumerOk, QInv, PrepareRead;
    ConsumerTyped(q);
    PrepareReadExact(q);
    var r := PrepareRead(q);
    if !r.found {
      var i :| q.consumer <= i < |q.nodes| && Waiting(q.nodes[i]);
      if q.consumer < i { SuccessorFacts(q); }
      assert Waiting(r.q.nodes[i]);
      ReadReachesWaiting(r.q);
    }
  }
}
