/**
 UnboundedSPSCQueue::empty loads the writer position and then the next pointer. Its answer is
 nevertheless the one of a single instant of the call, so a check that takes one step stands for it.
 */
module EmptyCheck {
  import BoundedQueue
  import opened UnboundedQueue
  import opened ShrinkLoss

  /** The node the consumer is at has nothing to read and no successor. */
  predicate EmptyNow(q: Queue)
    requires InBounds(q)
  {
    !Waiting(q.nodes[q.consumer]) && !q.nodes[q.consumer].linked
  }

  predicate OfProducer(a: QStep) {
    a.ProducerRing? || a.DecideGrow? || a.GrowCommit? || a.DecideShrink? || a.LinkNext? || a.SwitchProducer?
  }

  /** Then nothing is outstanding anywhere, and conversely unless an empty node is ahead. */
  lemma EmptyNowMeans(q: Queue)
    requires QInv(q)
    ensures InBounds(q) && (EmptyNow(q) <==> !Outstanding(q) && q.consumer + 1 == |q.nodes|)
  {
    hide BoundedQueue.Inv, RingsOk, ProducerOk, ConsumerOk;
    assert q.nodes[q.consumer].linked <==> q.consumer + 1 < |q.nodes|;
    if Outstanding(q) && q.consumer + 1 == |q.nodes| {
      assert Waiting(q.nodes[q.consumer]);
    }
  }

  lemma {:induction false} ConsumerStays(q: Queue, run: seq<Queue>, steps: seq<QStep>, k: nat)
    requires QInv(q) && Continues(q, run, steps) && 0 < k < |run|
    requires steps[0] == ConsumerRing(BoundedQueue.LoadWriter)
    requires forall i :: 0 < i < k ==> OfProducer(steps[i])
    ensures QInv(run[k]) && run[k].consumer == q.consumer
  {
    hide QInv, Enabled;
    if k == 1 {
      StepKeepsQInv(q, steps[0]);
    } else {
      ConsumerStays(q, run, steps, k - 1);
      StepKeepsQInv(run[k - 1], steps[k - 1]);
    }
  }

  /**
   A call that found no record at the load of the writer position, in state q, and loads the next
   pointer e steps later: if it answers "empty" the queue was empty at the first load, and if it
   answers "not empty" the queue is not empty at the second.
   */
  lemma EmptyIsAtomic(q: Queue, run: seq<Queue>, steps: seq<QStep>, e: nat)
    requires QInv(q) && Continues(q, run, steps) && 0 < e < |steps|
    requires steps[0] == ConsumerRing(BoundedQueue.LoadWriter) && steps[e] == EmptyNext
    requires run[1].consumer < |run[1].nodes| && run[1].nodes[run[1].consumer].ring.cpc.CEmpty?
    requires forall i :: 0 < i < e ==> OfProducer(steps[i])
    ensures InBounds(q) && InBounds(run[e]) && run[e].consumer == q.consumer
    ensures if run[e].nodes[q.consumer].linked then !EmptyNow(run[e]) else EmptyNow(q)
  {
    hide QInv, Enabled, BoundedQueue.Inv, BoundedQueue.Enabled;
    ConsumerTyped(q);
    ConsumerStays(q, run, steps, e);
    ConsumerTyped(run[e]);
    BoundedQueue.NullReadIffDrained(q.nodes[q.consumer].ring);
    if q.nodes[q.consumer].linked { FrozenInRun(q, run, steps, q.consumer, e); }
  }

  /** A call that answers "not empty" from the ring alone finds a record that is waiting. */
  lemma NonEmptyIsAtomic(q: Queue, step: BoundedQueue.Step)
    requires QInv(q) && Enabled(q, ConsumerRing(step)) && (step.CheckEmpty? || step.LoadWriter?)
    ensures BoundedQueue.Apply(q.nodes[q.consumer].ring, step).cpc.CReading? ==> !EmptyNow(q)
  {
    hide BoundedQueue.Inv, BoundedQueue.Apply, BoundedQueue.Enabled;
    var r := q.nodes[q.consumer].ring;
    BoundedQueue.StepKeepsInv(r, step);
    ConsumerFrame(r, step);
    LogLength(BoundedQueue.Apply(r, step));
  }
}
