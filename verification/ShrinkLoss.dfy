/**
 What UnboundedSPSCQueue::shrink costs a caller who has finished records and not committed them:
 the producer leaves its node for good, so exactly those records are never delivered.
 */
module ShrinkLoss {
  import BoundedQueue
  import opened UnboundedQueue

  predicate AllCommitted(n: Node) { n.ring.k.committed == |n.ring.tape.recs| }

  /** A run that starts in q instead of a fresh queue. */
  ghost predicate Continues(q: Queue, run: seq<Queue>, steps: seq<QStep>) {
    && |run| == |steps| + 1
    && run[0] == q
    && forall i :: 0 <= i < |steps| ==> Enabled(run[i], steps[i]) && run[i + 1] == Apply(run[i], steps[i])
  }

  /** Same records, as many of them committed, and the producer gone. */
  predicate SameFate(n: Node, n': Node) {
    n'.linked && n'.ring.tape == n.ring.tape && n'.ring.k.committed == n.ring.k.committed
  }

  /** Record j of node i is finished, and in no continuation is it ever committed or received. */
  ghost predicate Lost(q: Queue, i: nat, j: nat) {
    && i < |q.nodes| && j < |q.nodes[i].ring.tape.recs|
    && forall run: seq<Queue>, steps: seq<QStep>, k: nat :: Continues(q, run, steps) && k < |run| ==>
         && i < |run[k].nodes|
         && run[k].nodes[i].ring.k.committed <= j && |run[k].nodes[i].ring.inbox.log| <= j
  }

  // ---- Left nodes ------------------------------------------------------------------------------

  /** No step changes the records of a node the producer has left, or commits another of them. */
  lemma LinkedFrozen(q: Queue, a: QStep, i: nat)
    requires QInv(q) && Enabled(q, a) && i < |q.nodes| && q.nodes[i].linked
    ensures i < |Apply(q, a).nodes| && SameFate(q.nodes[i], Apply(q, a).nodes[i])
  {
    hide BoundedQueue.Inv, BoundedQueue.Apply, BoundedQueue.Enabled, IsProducerStep, RingsOk;
    if a.ConsumerRing? { ConsumerFrame(q.nodes[q.consumer].ring, a.step); }
    if a.LeaveCommit? { ConsumerCommit(q); }
  }

  lemma ConsumerCommit(q: Queue)
    requires QInv(q) && Enabled(q, LeaveCommit)
    ensures InBounds(q) && BoundedQueue.Typed(q.nodes[q.consumer].ring)
    ensures SameProducerSide(q.nodes[q.consumer].ring, BoundedQueue.DoCommitRead(q.nodes[q.consumer].ring))
  {
    hide BoundedQueue.Inv;
    LeaveFacts(q.nodes[q.consumer].ring);
  }

  lemma {:induction false} FrozenInRun(q: Queue, run: seq<Queue>, steps: seq<QStep>, i: nat, k: nat)
    requires QInv(q) && Continues(q, run, steps) && k < |run| && i < |q.nodes| && q.nodes[i].linked
    ensures QInv(run[k]) && i < |run[k].nodes| && SameFate(q.nodes[i], run[k].nodes[i])
  {
    hide QInv, Apply, Enabled;
    if k == 0 {
    } else {
      FrozenInRun(q, run, steps, i, k - 1);
      LinkedFrozen(run[k - 1], steps[k - 1], i);
      StepKeepsQInv(run[k - 1], steps[k - 1]);
    }
  }

  lemma CommittedBound(q: Queue, i: nat)
    requires QInv(q) && i < |q.nodes|
    ensures |q.nodes[i].ring.inbox.log| <= q.nodes[i].ring.k.committed <= |q.nodes[i].ring.tape.recs|
  {
    hide BoundedQueue.Inv;
    LogLength(q.nodes[i].ring);
  }

  /**
   Between two calls of the producer a finished record is lost exactly when the producer has left
   its node without committing it.
   */
  lemma LostIff(q: Queue, i: nat, j: nat)
    requires QInv(q) && q.ps.PNormal? && InBounds(q) && !q.nodes[q.producer].ring.ppc.PReload?
    requires i < |q.nodes| && j < |q.nodes[i].ring.tape.recs|
    ensures Lost(q, i, j) <==> q.nodes[i].linked && q.nodes[i].ring.k.committed <= j
  {
    hide QInv, Apply, Enabled;
    if q.nodes[i].linked && q.nodes[i].ring.k.committed <= j {
      forall run: seq<Queue>, steps: seq<QStep>, k: nat | Continues(q, run, steps) && k < |run|
        ensures i < |run[k].nodes|
        ensures run[k].nodes[i].ring.k.committed <= j && |run[k].nodes[i].ring.inbox.log| <= j
      {
        FrozenInRun(q, run, steps, i, k);
        CommittedBound(run[k], i);
      }
    } else if q.nodes[i].linked {
      assert Continues(q, [q], []) && [q][0].nodes[i].ring.k.committed > j;
    } else {
      CommitReaches(q, i);
      var a := ProducerRing(BoundedQueue.CommitWrite);
      assert Continues(q, [q, Apply(q, a)], [a]);
      assert [q, Apply(q, a)][1].nodes[i].ring.k.committed > j;
    }
  }

  lemma CommitReaches(q: Queue, i: nat)
    requires QInv(q) && q.ps.PNormal? && InBounds(q) && !q.nodes[q.producer].ring.ppc.PReload?
    requires i < |q.nodes| && !q.nodes[i].linked
    ensures Enabled(q, ProducerRing(BoundedQueue.CommitWrite))
    ensures var t := Apply(q, ProducerRing(BoundedQueue.CommitWrite));
            i < |t.nodes| && t.nodes[i].ring.k.committed == |q.nodes[i].ring.tape.recs|
  {
    hide BoundedQueue.Inv;
    BoundedQueue.InvTyped(q.nodes[q.producer].ring);
  }

  // ---- One shrink ------------------------------------------------------------------------------

  /** shrink, run without interference from the consumer: the decision, the link, the switch. */
  function Shrink(q: Queue, c: BoundedQueue.Config): Queue
    requires Enabled(q, DecideShrink(c)) && q.producer + 1 == |q.nodes|
  {
    Apply(Apply(Apply(q, DecideShrink(c)), LinkNext), SwitchProducer)
  }

  lemma ShrinkFacts(q: Queue, c: BoundedQueue.Config)
    requires QInv(q) && Enabled(q, DecideShrink(c))
    ensures q.producer + 1 == |q.nodes|
    ensures var t := Shrink(q, c);
            && QInv(t) && t.ps.PNormal? && InBounds(t) && t.nodes[t.producer].ring.ppc.PIdle?
            && |t.nodes| == |q.nodes| + 1 && SameFate(q.nodes[q.producer], t.nodes[q.producer])
            && forall i :: 0 <= i < q.producer ==> t.nodes[i] == q.nodes[i]
  {
    hide BoundedQueue.Inv, RingsOk, ChainOk;
    StepKeepsQInv(q, DecideShrink(c));
    var t := Apply(q, DecideShrink(c));
    StepKeepsQInv(t, LinkNext);
    StepKeepsQInv(Apply(t, LinkNext), SwitchProducer);
  }

  /** Of the records in the producer's node, shrink loses exactly those not yet committed. */
  lemma ShrinkLosesExactly(q: Queue, c: BoundedQueue.Config, j: nat)
    requires QInv(q) && Enabled(q, DecideShrink(c)) && j < |q.nodes[q.producer].ring.tape.recs|
    ensures q.producer + 1 == |q.nodes|
    ensures Lost(Shrink(q, c), q.producer, j) <==> q.nodes[q.producer].ring.k.committed <= j
  {
    hide QInv, Apply, Enabled, Lost, Shrink;
    ShrinkFacts(q, c);
    LostIff(Shrink(q, c), q.producer, j);
  }

  /** So no record is lost exactly when nothing finished was uncommitted at the call. */
  lemma ShrinkLosesNothingIff(q: Queue, c: BoundedQueue.Config)
    requires QInv(q) && Enabled(q, DecideShrink(c))
    ensures q.producer + 1 == |q.nodes|
    ensures (forall j: nat :: !Lost(Shrink(q, c), q.producer, j)) <==> AllCommitted(q.nodes[q.producer])
  {
    hide QInv, Apply, Enabled, Lost, Shrink;
    ShrinkFacts(q, c);
    var p := q.nodes[q.producer];
    CommittedBound(q, q.producer);
    forall j: nat | j < |p.ring.tape.recs|
      ensures Lost(Shrink(q, c), q.producer, j) <==> p.ring.k.committed <= j
    {
      ShrinkLosesExactly(q, c, j);
    }
    forall j: nat | j >= |p.ring.tape.recs| ensures !Lost(Shrink(q, c), q.producer, j) {
      if Lost(Shrink(q, c), q.producer, j) { LostIsFinished(Shrink(q, c), q.producer, j); }
    }
    if !AllCommitted(p) { assert Lost(Shrink(q, c), q.producer, p.ring.k.committed); }
  }

  lemma LostIsFinished(q: Queue, i: nat, j: nat)
    requires Lost(q, i, j)
    ensures i < |q.nodes| && j < |q.nodes[i].ring.tape.recs|
  {}

  // ---- Whole runs ------------------------------------------------------------------------------

  /** A shrink decided on while a finished record of the producer's node is uncommitted. */
  predicate Careless(q: Queue, a: QStep) {
    a.DecideShrink? && InBounds(q) && !AllCommitted(q.nodes[q.producer])
  }

  /** Every node the producer has left, or is about to leave, has all its records committed. */
  ghost predicate NothingLost(q: Queue) {
    && (forall i :: 0 <= i < |q.nodes| && q.nodes[i].linked ==> AllCommitted(q.nodes[i]))
    && (q.ps.PLinking? && q.producer < |q.nodes| ==> AllCommitted(q.nodes[q.producer]))
  }

  /** What a step leaves alone in one node: all but the producer's own node keeps its fate. */
  lemma NodeFrame(q: Queue, a: QStep, i: nat)
    requires QInv(q) && Enabled(q, a) && i < |q.nodes|
    ensures i < |Apply(q, a).nodes|
    ensures var n, n' := q.nodes[i], Apply(q, a).nodes[i];
            && n'.linked == (n.linked || (a.LinkNext? && i == q.producer))
            && (n.linked || !(a.ProducerRing? || a.GrowCommit?) ==> AllCommitted(n') == AllCommitted(n))
            && (a.GrowCommit? && i == q.producer ==> AllCommitted(n'))
  {
    hide BoundedQueue.Inv, BoundedQueue.Apply, BoundedQueue.Enabled, IsProducerStep, RingsOk;
    if q.nodes[i].linked { LinkedFrozen(q, a, i); }
    if a.ConsumerRing? { ConsumerFrame(q.nodes[q.consumer].ring, a.step); }
    if a.LeaveCommit? { ConsumerCommit(q); }
  }

  /** Who may be linked or about to be: the states of the producer before and after a step. */
  lemma LinkFrame(q: Queue, a: QStep)
    requires QInv(q) && Enabled(q, a)
    ensures InBounds(q) && !q.nodes[|q.nodes| - 1].linked
    ensures |Apply(q, a).nodes| == |q.nodes| + (if a.LinkNext? then 1 else 0)
    ensures a.LinkNext? ==> !Apply(q, a).nodes[|q.nodes|].linked
    ensures Apply(q, a).ps.PLinking? <==> (q.ps.PLinking? && !a.LinkNext?) || a.GrowCommit? || a.DecideShrink?
    ensures a.LinkNext? || a.GrowCommit? || a.DecideShrink? ==> q.producer + 1 == |q.nodes|
    ensures q.ps.PLinking? || Apply(q, a).ps.PLinking? ==> Apply(q, a).producer == q.producer
    ensures q.ps.PLinking? ==> !a.ProducerRing? && !a.GrowCommit?
    ensures a.LinkNext? ==> q.ps.PLinking?
  {
    hide BoundedQueue.Inv, BoundedQueue.Apply, BoundedQueue.Enabled, IsProducerStep, RingsOk, HandleFull;
  }

  lemma StepLosesNothingIff(q: Queue, a: QStep)
    requires QInv(q) && Enabled(q, a)
    ensures NothingLost(Apply(q, a)) <==> NothingLost(q) && !Careless(q, a)
  {
    hide QInv, Enabled, Apply, AllCommitted;
    LinkFrame(q, a);
    forall i: nat | i < |q.nodes|
      ensures i < |Apply(q, a).nodes|
      ensures var n, n' := q.nodes[i], Apply(q, a).nodes[i];
              && n'.linked == (n.linked || (a.LinkNext? && i == q.producer))
              && (n.linked || !(a.ProducerRing? || a.GrowCommit?) ==> AllCommitted(n') == AllCommitted(n))
              && (a.GrowCommit? && i == q.producer ==> AllCommitted(n'))
    {
      NodeFrame(q, a, i);
    }
  }

  lemma {:induction false} NothingLostIff(c: BoundedQueue.Config, max: nat, run: seq<Queue>, steps: seq<QStep>, k: nat)
    requires IsRun(c, max, run, steps) && k < |run|
    ensures NothingLost(run[k]) <==> forall m :: 0 <= m < k ==> !Careless(run[m], steps[m])
  {
    hide QInv, Apply, Enabled, Careless;
    if k == 0 {
    } else {
      NothingLostIff(c, max, run, steps, k - 1);
      RunInv(c, max, run, steps, k - 1);
      StepLosesNothingIff(run[k - 1], steps[k - 1]);
    }
  }

  /**
   Over a whole run, between two calls of the producer: some finished record is lost exactly when
   some shrink was called with a finished record uncommitted.
   */
  lemma RunLosesIff(c: BoundedQueue.Config, max: nat, run: seq<Queue>, steps: seq<QStep>, k: nat)
    requires IsRun(c, max, run, steps) && k < |run|
    requires run[k].ps.PNormal? && (InBounds(run[k]) ==> !run[k].nodes[run[k].producer].ring.ppc.PReload?)
    ensures (exists i: nat, j: nat :: Lost(run[k], i, j)) <==> exists m :: 0 <= m < k && Careless(run[m], steps[m])
  {
    hide Apply, Enabled, Careless, Lost, BoundedQueue.Inv, RingsOk, IsRun;
    var q := run[k];
    RunInv(c, max, run, steps, k);
    NothingLostIff(c, max, run, steps, k);
    if i: nat, j: nat :| Lost(q, i, j) {
      LostIsFinished(q, i, j);
      LostIff(q, i, j);
      CommittedBound(q, i);
      assert !AllCommitted(q.nodes[i]);
    }
    if !NothingLost(q) {
      var i :| 0 <= i < |q.nodes| && q.nodes[i].linked && !AllCommitted(q.nodes[i]);
      CommittedBound(q, i);
      LostIff(q, i, q.nodes[i].ring.k.committed);
    }
  }

  // ---- Two runs --------------------------------------------------------------------------------

  lemma StartRun(c: BoundedQueue.Config, max: nat)
    requires c.Valid()
    ensures IsRun(c, max, [FreshQueue(c, max)], [])
  {}

  /** One more step of a run. */
  lemma Take(c: BoundedQueue.Config, max: nat, run: seq<Queue>, steps: seq<QStep>, a: QStep)
    returns (run': seq<Queue>, steps': seq<QStep>)
    requires IsRun(c, max, run, steps) && |run| == |steps| + 1 && Enabled(run[|steps|], a)
    ensures run' == run + [Apply(run[|steps|], a)] && steps' == steps + [a] && |run'| == |steps'| + 1 && run <= run'
    ensures IsRun(c, max, run', steps')
  {
    hide Enabled, Apply, FreshQueue;
    run', steps' := run + [Apply(run[|steps|], a)], steps + [a];
  }

  /** A ring in its initial state but for the producer's side. */
  predicate NeverRead(r: BoundedQueue.Ring) {
    && BoundedQueue.Typed(r) && r.atomicWriterPos == r.readerPos == r.writerPosCache == r.atomicReaderPos
    && r.cpc.CIdle? && r.k.committed == r.k.read == 0
  }

  /** A one-byte record finished in a fresh ring. */
  lemma WriteOne(c: BoundedQueue.Config)
    requires c.Valid()
    ensures var r := BoundedQueue.Fresh(c);
            && r.ppc.PIdle? && BoundedQueue.Enabled(r, BoundedQueue.PrepareWrite(1))
            && var t := BoundedQueue.Apply(r, BoundedQueue.PrepareWrite(1));
            && BoundedQueue.Enabled(t, BoundedQueue.FinishWrite(1))
            && var u := BoundedQueue.Apply(t, BoundedQueue.FinishWrite(1));
            && NeverRead(u) && u.ppc.PIdle? && |u.tape.recs| == 1 && u.cfg == c
  {
    hide BoundedQueue.Inv;
    BoundedQueue.FreshInv(c);
    BoundedQueue.InvTyped(BoundedQueue.Fresh(c));
    BoundedQueue.KeepsReservation(BoundedQueue.Fresh(c), 1, BoundedQueue.PReload(1));
  }

  /** A fresh queue in which a record was finished, not committed, and then a shrink was called. */
  lemma WriteThenShrink(c: BoundedQueue.Config, d: BoundedQueue.Config, max: nat)
    returns (run: seq<Queue>, steps: seq<QStep>)
    requires c.Valid() && d.Valid() && 2 * d.capacity <= c.capacity
    ensures IsRun(c, max, run, steps) && |steps| + 1 == |run| == 6 && Careless(run[2], steps[2])
    ensures var q := run[5];
            && q.ps.PNormal? && q.cs.CNormal? && q.producer == 1 && q.consumer == 0 && |q.nodes| == 2
            && NeverRead(q.nodes[0].ring) && |q.nodes[0].ring.tape.recs| == 1 && q.nodes[0].linked
            && q.nodes[1].ring.ppc.PIdle?
  {
    hide IsRun, BoundedQueue.Apply, BoundedQueue.Enabled, BoundedQueue.Fresh;
    WriteOne(c);
    assert BoundedQueue.Fresh(d).ppc.PIdle? by { WriteOne(d); }
    run, steps := [FreshQueue(c, max)], [];
    assert IsRun(c, max, run, steps) by { StartRun(c, max); }
    run, steps := Take(c, max, run, steps, ProducerRing(BoundedQueue.PrepareWrite(1)));
    run, steps := Take(c, max, run, steps, ProducerRing(BoundedQueue.FinishWrite(1)));
    run, steps := Take(c, max, run, steps, DecideShrink(d));
    run, steps := Take(c, max, run, steps, LinkNext);
    run, steps := Take(c, max, run, steps, SwitchProducer);
  }

  /** prepare_read of a ring nothing was committed in. */
  lemma ReadsEmpty(r: BoundedQueue.Ring)
    requires NeverRead(r)
    ensures var t := BoundedQueue.DoCheckEmpty(r);
            && BoundedQueue.Enabled(r, BoundedQueue.CheckEmpty) && BoundedQueue.Enabled(t, BoundedQueue.LoadWriter)
            && t.cpc.CReload? && BoundedQueue.DoLoadWriter(t).cpc.CEmpty?
            && NeverRead(BoundedQueue.DoLoadWriter(t).(cpc := BoundedQueue.CIdle))
            && BoundedQueue.Enabled(BoundedQueue.DoLoadWriter(t), BoundedQueue.CommitRead)
            && SameProducerSide(r, BoundedQueue.DoLoadWriter(t))
  {}

  /** The two loads of a prepare_read that finds nothing, as steps of the run. */
  lemma TakeEmptyRead(c: BoundedQueue.Config, max: nat, run: seq<Queue>, steps: seq<QStep>)
    returns (run': seq<Queue>, steps': seq<QStep>)
    requires IsRun(c, max, run, steps) && |run| == |steps| + 1
    requires var q := run[|steps|]; InBounds(q) && NeverRead(q.nodes[q.consumer].ring) && !q.cs.CLeaving? && !q.cs.CDeleting? && !q.cs.CMoving?
    ensures IsRun(c, max, run', steps') && |run'| == |steps'| + 1 && |steps'| == |steps| + 2 && run <= run'
    ensures var q, t := run[|steps|], run'[|steps'|];
            && q.consumer < |t.nodes| && t == SetRing(q, q.consumer, t.nodes[q.consumer].ring)
            && var r := t.nodes[q.consumer].ring;
            && r.cpc.CEmpty? && NeverRead(r.(cpc := BoundedQueue.CIdle)) && SameProducerSide(q.nodes[q.consumer].ring, r)
            && BoundedQueue.Enabled(r, BoundedQueue.CommitRead)
  {
    hide IsRun, SameProducerSide, BoundedQueue.Enabled, BoundedQueue.Typed;
    hide BoundedQueue.DoCheckEmpty, BoundedQueue.DoLoadWriter;
    var q := run[|steps|];
    ReadsEmpty(q.nodes[q.consumer].ring);
    run', steps' := Take(c, max, run, steps, ConsumerRing(BoundedQueue.CheckEmpty));
    run', steps' := Take(c, max, run', steps', ConsumerRing(BoundedQueue.LoadWriter));
  }

  /** The consumer finds the node empty, sees the successor, and finds the node empty again. */
  lemma ThenReadTwice(c: BoundedQueue.Config, d: BoundedQueue.Config, max: nat)
    returns (run: seq<Queue>, steps: seq<QStep>)
    requires c.Valid() && d.Valid() && 2 * d.capacity <= c.capacity
    ensures IsRun(c, max, run, steps) && |steps| + 1 == |run| == 12
    ensures ShrunkUncommitted(run[5])
    ensures var q := run[11];
            && q.ps.PNormal? && q.cs.CLeaving? && q.producer == 1 && q.consumer == 0 && |q.nodes| == 2
            && BoundedQueue.Enabled(q.nodes[0].ring, BoundedQueue.CommitRead)
            && q.nodes[1].ring.ppc.PIdle?
  {
    hide IsRun, NeverRead, BoundedQueue.Enabled, BoundedQueue.Apply;
    run, steps := WriteThenShrink(c, d, max);
    run, steps := TakeEmptyRead(c, max, run, steps);
    run, steps := Take(c, max, run, steps, LoadNext);
    run, steps := TakeEmptyRead(c, max, run, steps);
    run, steps := Take(c, max, run, steps, RetryDone);
  }

  /** A run in which the consumer deletes a node with a finished record inside. */
  lemma DeletedUnread(c: BoundedQueue.Config, d: BoundedQueue.Config, max: nat)
    returns (run: seq<Queue>, steps: seq<QStep>)
    requires c.Valid() && d.Valid() && 2 * d.capacity <= c.capacity
    ensures IsRun(c, max, run, steps) && |steps| + 1 == |run| == 15
    ensures run[14].nodes != [] && run[14].nodes[0].freed && Lost(run[14], 0, 0)
  {
    hide IsRun, Lost, ShrunkUncommitted, BoundedQueue.Enabled, BoundedQueue.DoCommitRead;
    run, steps := ThenReadTwice(c, d, max);
    run, steps := Take(c, max, run, steps, LeaveCommit);
    run, steps := Take(c, max, run, steps, DeleteNode);
    run, steps := Take(c, max, run, steps, SwitchConsumer);
    StillUncommitted(c, max, run, steps);
  }

  predicate ShrunkUncommitted(q: Queue) {
    && |q.nodes| == 2 && q.nodes[0].linked && NeverRead(q.nodes[0].ring)
    && |q.nodes[0].ring.tape.recs| == 1
  }

  lemma StillUncommitted(c: BoundedQueue.Config, max: nat, run: seq<Queue>, steps: seq<QStep>)
    requires IsRun(c, max, run, steps) && |steps| + 1 == |run| == 15 && ShrunkUncommitted(run[5])
    requires var q := run[14]; q.ps.PNormal? && InBounds(q) && q.nodes[q.producer].ring.ppc.PIdle?
    ensures 0 < |run[14].nodes| && Lost(run[14], 0, 0)
  {
    hide Apply, Enabled, QInv, Lost;
    RunInv(c, max, run, steps, 5);
    RunInv(c, max, run, steps, 14);
    FrozenInRun(run[5], run[5..], steps[5..], 0, 9);
    LostIff(run[14], 0, 0);
  }

  /** Two shrinks in a row and a committed write: three nodes, only the last of them with a record. */
  lemma TwoShrinksThenWrite(c: BoundedQueue.Config, d: BoundedQueue.Config, e: BoundedQueue.Config, max: nat)
    returns (run: seq<Queue>, steps: seq<QStep>)
    requires c.Valid() && d.Valid() && e.Valid() && 2 * d.capacity <= c.capacity && 2 * e.capacity <= d.capacity
    ensures IsRun(c, max, run, steps) && |steps| + 1 == |run| == 10
    ensures var q := run[9];
            && q.cs.CNormal? && q.consumer == 0 && |q.nodes| == 3 && q.nodes[0].linked
            && q.nodes[0].ring == BoundedQueue.Fresh(c) && q.nodes[1].ring == BoundedQueue.Fresh(d)
            && q.nodes[2].ring.k.committed == 1 && q.nodes[2].ring.k.read == 0
  {
    hide IsRun, BoundedQueue.Apply, BoundedQueue.Enabled, BoundedQueue.Fresh, NeverRead;
    FreshFacts(c);
    FreshFacts(d);
    WriteOne(e);
    run, steps := [FreshQueue(c, max)], [];
    assert IsRun(c, max, run, steps) by { StartRun(c, max); }
    run, steps := Take(c, max, run, steps, DecideShrink(d));
    run, steps := Take(c, max, run, steps, LinkNext);
    run, steps := Take(c, max, run, steps, SwitchProducer);
    run, steps := Take(c, max, run, steps, DecideShrink(e));
    run, steps := Take(c, max, run, steps, LinkNext);
    run, steps := Take(c, max, run, steps, SwitchProducer);
    run, steps := Take(c, max, run, steps, ProducerRing(BoundedQueue.PrepareWrite(1)));
    run, steps := Take(c, max, run, steps, ProducerRing(BoundedQueue.FinishWrite(1)));
    CommitOne(run[8].nodes[2].ring);
    run, steps := Take(c, max, run, steps, ProducerRing(BoundedQueue.CommitWrite));
  }

  lemma FreshFacts(c: BoundedQueue.Config)
    ensures var r := BoundedQueue.Fresh(c);
            r.cfg == c && r.ppc.PIdle? && r.cpc.CIdle? && r.k.read == r.k.committed == 0
  {}

  lemma CommitOne(r: BoundedQueue.Ring)
    requires NeverRead(r) && r.ppc.PIdle?
    ensures BoundedQueue.Enabled(r, BoundedQueue.CommitWrite)
    ensures var t := BoundedQueue.Apply(r, BoundedQueue.CommitWrite); t.k.committed == |r.tape.recs| && t.k.read == 0
  {}

  /** In such a run prepare_read returns null although a committed record waits two nodes ahead. */
  lemma NullWithDataAhead(c: BoundedQueue.Config, d: BoundedQueue.Config, e: BoundedQueue.Config, max: nat)
    returns (run: seq<Queue>, steps: seq<QStep>)
    requires c.Valid() && d.Valid() && e.Valid() && 2 * d.capacity <= c.capacity && 2 * e.capacity <= d.capacity
    ensures IsRun(c, max, run, steps) && |steps| + 1 == |run| == 10
    ensures var q := run[9];
            CanRead(q) && q.cs.CNormal? && Outstanding(q) && !PrepareRead(q).found
  {
    hide IsRun, QInv, PrepareRead, BoundedQueue.Fresh;
    run, steps := TwoShrinksThenWrite(c, d, e, max);
    RunInv(c, max, run, steps, 9);
    FreshFacts(c);
    FreshFacts(d);
    var q := run[9];
    PrepareReadExact(q);
    assert Waiting(q.nodes[2]);
  }
}
