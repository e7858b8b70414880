/**
 The shutdown drain of the backend (`_exit`) as it runs, with or without a grace period: once no
 frontend logs any more and the clock has passed what is queued, it terminates, every queue and
 buffer is empty, and every event was processed once.
 */
module Drain {
  import opened Containers
  import opened Scheduler
  import opened SchedulerOrder
  import opened SchedulerGrace

  /** What is left to move out of a queue: its unread events and the nodes to walk through. */
  function Weight(c: Ctx): nat { |Flat(c.nodes)| + |c.nodes| }

  function TotalWeight(ctxs: seq<Ctx>): nat {
    if ctxs == [] then 0 else TotalWeight(ctxs[..|ctxs| - 1]) + Weight(ctxs[|ctxs| - 1])
  }

  function TotalBuffered(ctxs: seq<Ctx>): nat {
    if ctxs == [] then 0 else TotalBuffered(ctxs[..|ctxs| - 1]) + |ctxs[|ctxs| - 1].buf|
  }

  lemma {:induction false} WeightUpdate(ctxs: seq<Ctx>, d: nat, c: Ctx)
    requires d < |ctxs|
    ensures TotalWeight(ctxs[d := c]) == TotalWeight(ctxs) - Weight(ctxs[d]) + Weight(c)
  {
    hide Weight;
    var n := |ctxs| - 1;
    if d < n {
      WeightUpdate(ctxs[..n], d, c);
      assert ctxs[d := c][..n] == ctxs[..n][d := c];
    } else {
      assert ctxs[d := c][..n] == ctxs[..n];
    }
  }

  lemma {:induction false} BufferedUpdate(ctxs: seq<Ctx>, d: nat, c: Ctx)
    requires d < |ctxs|
    ensures TotalBuffered(ctxs[d := c]) == TotalBuffered(ctxs) - |ctxs[d].buf| + |c.buf|
  {
    var n := |ctxs| - 1;
    if d < n {
      BufferedUpdate(ctxs[..n], d, c);
      assert ctxs[d := c][..n] == ctxs[..n][d := c];
    } else {
      assert ctxs[d := c][..n] == ctxs[..n];
    }
  }

  /** r is c after reading some events: they left the front of the queue and joined the buffer. */
  predicate ReadsFrom(c: Ctx, r: Ctx) {
    var n := |Flat(c.nodes)| - |Flat(r.nodes)|;
    && c.nodes != [] && r.nodes != [] && 0 <= n && |r.nodes| <= |c.nodes|
    && Flat(r.nodes) == Flat(c.nodes)[n..]
    && r.buf == c.buf + NonMdc(Flat(c.nodes)[..n])
  }

  lemma ReadsNothing(c: Ctx)
    requires c.nodes != []
    ensures ReadsFrom(c, c)
  {
    hide Flat;
    assert NonMdc(Flat(c.nodes)[..0]) == [];
  }

  lemma ReadsHop(c: Ctx, r: Ctx)
    requires ReadsFrom(c, r)
    ensures var h := r.(nodes := Hop(r.nodes)); ReadsFrom(c, h) && (h == r || Weight(h) < Weight(r))
    ensures var h := r.(nodes := Hop(r.nodes)); h.nodes[0] == [] && !QueueEmpty(r.nodes) ==> Weight(h) < Weight(r)
  {
    hide Flat, NonMdc;
    FlatHop(r.nodes);
  }

  lemma ReadsPop(c: Ctx, r: Ctx)
    requires ReadsFrom(c, r) && r.nodes[0] != []
    ensures var e := r.nodes[0][0]; var p := r.(nodes := Pop(r.nodes), buf := if e.mdc then r.buf else r.buf + [e]);
            ReadsFrom(c, p) && Weight(p) < Weight(r)
  {
    hide Flat, NonMdc, Pop;
    var e := r.nodes[0][0];
    var p := r.(nodes := Pop(r.nodes), buf := if e.mdc then r.buf else r.buf + [e]);
    FlatPop(r.nodes);
    SameNodes(r.nodes, e);
    var q := Flat(c.nodes);
    var n := |q| - |Flat(r.nodes)|;
    assert q[n] == q[n..][0] == e;
    assert q[..n + 1] == q[..n] + [e];
    NonMdcConcat(q[..n], [e]);
    NonMdcOne(e);
    assert q[n + 1..] == q[n..][1..];
    ReadsPopped(c, r, p, e);
  }

  lemma ReadsPopped(c: Ctx, r: Ctx, p: Ctx, e: Event)
    requires ReadsFrom(c, r) && p.nodes != [] && |p.nodes| == |r.nodes|
    requires Flat(r.nodes) == [e] + Flat(p.nodes)
    requires var q := Flat(c.nodes); var n := |q| - |Flat(r.nodes)|;
             q[n + 1..] == Flat(p.nodes) && p.buf == r.buf + (if e.mdc then [] else [e]) &&
             NonMdc(q[..n + 1]) == NonMdc(q[..n]) + (if e.mdc then [] else [e])
    ensures ReadsFrom(c, p)
  {
    hide Flat, NonMdc;
  }

  /** A context whose buffer is empty while its queue is not: the batch must not go on. */
  predicate Starved(c: Ctx) { c.buf == [] && !QueueEmpty(c.nodes) }

  /** Nothing left. */
  predicate Clear(c: Ctx) { c.buf == [] && QueueEmpty(c.nodes) }

  /**
   One context during the drain: what is processed, buffered and queued makes up its goal; and, if
   contexts started out in order, nothing outstanding is earlier than the last drained event.
   */
  ghost predicate CtxOk(c: Ctx, done: seq<Event>, goal: seq<Event>, last: nat, ordered: bool) {
    && c.nodes != []
    && done + c.buf + NonMdc(Flat(c.nodes)) == goal
    && (ordered ==> SortedTs(Outstanding(c)) && AllFrom(Outstanding(c), last))
  }

  /** The largest timestamp is never selected among several contexts. */
  predicate Selectable(goal: seq<Event>) { forall e :: e in goal ==> e.ts < UINT64_MAX }

  lemma ReadsKeepOk(c: Ctx, r: Ctx, done: seq<Event>, goal: seq<Event>, last: nat, ordered: bool)
    requires CtxOk(c, done, goal, last, ordered) && ReadsFrom(c, r)
    ensures CtxOk(r, done, goal, last, ordered)
  {
    hide Flat, NonMdc, SortedTs, AllFrom;
    var q := Flat(c.nodes);
    var n := |q| - |Flat(r.nodes)|;
    assert q == q[..n] + q[n..];
    NonMdcConcat(q[..n], q[n..]);
    if ordered { KeepsSorted(c.buf, q[..n], q[n..], last); }
  }

  lemma {:induction false} KeepsSorted(buf: seq<Event>, moved: seq<Event>, rest: seq<Event>, last: nat)
    requires SortedTs(buf + (moved + rest)) && AllFrom(buf + (moved + rest), last)
    ensures SortedTs((buf + NonMdc(moved)) + rest) && AllFrom((buf + NonMdc(moved)) + rest, last)
    decreases |moved|
  {
    hide SortedTs, AllFrom;
    if moved == [] {
      assert buf + (moved + rest) == (buf + NonMdc(moved)) + rest;
    } else {
      var e, tail := moved[0], moved[1..];
      assert buf + (moved + rest) == buf + ([e] + (tail + rest));
      if e.mdc {
        DropOne(buf, e, tail + rest, last);
        KeepsSorted(buf, tail, rest, last);
      } else {
        assert buf + ([e] + (tail + rest)) == (buf + [e]) + (tail + rest);
        KeepsSorted(buf + [e], tail, rest, last);
        assert buf + NonMdc(moved) == (buf + [e]) + NonMdc(tail);
      }
    }
  }

  lemma DropOne(a: seq<Event>, e: Event, b: seq<Event>, last: nat)
    requires SortedTs(a + ([e] + b)) && AllFrom(a + ([e] + b), last)
    ensures SortedTs(a + b) && AllFrom(a + b, last)
  {
    SortedWithout(a, e, b);
    assert forall x :: x in a + b ==> x in a + ([e] + b);
  }

  ghost predicate AllOk(ctxs: seq<Ctx>, out: seq<Output>, goals: seq<seq<Event>>, last: nat, ordered: bool) {
    |goals| == |ctxs| && forall d :: 0 <= d < |ctxs| ==> CtxOk(ctxs[d], Project(out, d), goals[d], last, ordered)
  }

  lemma ReplaceOk(ctxs: seq<Ctx>, d: nat, c: Ctx, out: seq<Output>, goals: seq<seq<Event>>, last: nat, ordered: bool)
    requires AllOk(ctxs, out, goals, last, ordered) && d < |ctxs| && ReadsFrom(ctxs[d], c)
    ensures AllOk(ctxs[d := c], out, goals, last, ordered)
  {
    hide CtxOk, ReadsFrom, Project;
    ReadsKeepOk(ctxs[d], c, Project(out, d), goals[d], last, ordered);
  }

  /** Processing the picked event, once no context is starved. */
  lemma PickOk(ctxs: seq<Ctx>, cache: seq<nat>, out: seq<Output>, goals: seq<seq<Event>>, last: nat, ordered: bool)
    requires forall k :: 0 <= k < |cache| ==> cache[k] < |ctxs|
    requires forall d :: 0 <= d < |ctxs| ==> d in cache || Clear(ctxs[d])
    requires forall d :: 0 <= d < |ctxs| ==> !Starved(ctxs[d])
    requires AllOk(ctxs, out, goals, last, ordered) && Pick(ctxs, cache).Some?
    ensures var d := Pick(ctxs, cache).value; var c := ctxs[d]; var e := c.buf[0];
            && (ordered ==> last <= e.ts)
            && AllOk(ctxs[d := c.(buf := c.buf[1..])], out + [Output(d, e)], goals, e.ts, ordered)
  {
    hide CtxOk, Project, Pick, Clear, Starved;
    var d := Pick(ctxs, cache).value;
    var c := ctxs[d];
    var e := c.buf[0];
    var after := ctxs[d := c.(buf := c.buf[1..])];
    HeadFrom(c, Project(out, d), goals[d], last, ordered);
    forall x | 0 <= x < |after| ensures CtxOk(after[x], Project(out + [Output(d, e)], x), goals[x], e.ts, ordered) {
      ProjectNext(out, Output(d, e), x);
      assert Project(out, x) + [] == Project(out, x);
      if x !in cache { ClearFacts(ctxs[x]); }
      if ctxs[x].buf != [] && x in cache { PickIsLowest(ctxs, cache, x); }
      RaiseLast(ctxs[x], e, Project(out, x), goals[x], last, ordered);
      if x == d { PopOk(c, Project(out, d), goals[d], e.ts, ordered); }
    }
  }

  lemma ClearFacts(c: Ctx)
    ensures Clear(c) ==> c.buf == [] && !Starved(c)
  {}

  lemma HeadFrom(c: Ctx, done: seq<Event>, goal: seq<Event>, last: nat, ordered: bool)
    requires CtxOk(c, done, goal, last, ordered) && c.buf != []
    ensures ordered ==> last <= c.buf[0].ts
  {
    hide Flat, NonMdc;
    assert Outstanding(c)[0] == c.buf[0];
  }

  lemma RaiseLast(c: Ctx, e: Event, done: seq<Event>, goal: seq<Event>, last: nat, ordered: bool)
    requires CtxOk(c, done, goal, last, ordered) && !Starved(c)
    requires c.buf != [] ==> e.ts <= c.buf[0].ts
    ensures CtxOk(c, done, goal, e.ts, ordered)
  {
    hide Flat, NonMdc, QueueEmpty;
    if ordered {
      var o := Outstanding(c);
      if c.buf == [] {
        EmptyIsFlat(c.nodes);
        assert o == [];
      } else {
        assert o[0] == c.buf[0];
        LaterFrom(o, e.ts);
      }
    }
  }

  lemma PopOk(c: Ctx, done: seq<Event>, goal: seq<Event>, last: nat, ordered: bool)
    requires CtxOk(c, done, goal, last, ordered) && c.buf != []
    ensures CtxOk(c.(buf := c.buf[1..]), done + [c.buf[0]], goal, last, ordered)
  {
    hide Flat, NonMdc;
    assert c.buf[1..] + Flat(c.nodes) == Outstanding(c)[1..];
    assert c.buf == [c.buf[0]] + c.buf[1..];
  }

  /** Nothing is picked only when nothing is buffered. */
  lemma NothingPicked(ctxs: seq<Ctx>, cache: seq<nat>, out: seq<Output>, goals: seq<seq<Event>>, last: nat, ordered: bool)
    requires Cached(ctxs, cache) && AllOk(ctxs, out, goals, last, ordered) && (|cache| == 1 || AllSelectable(goals))
    ensures Pick(ctxs, cache).None? ==> forall d :: d in cache ==> ctxs[d].buf == []
  {
    hide CtxOk, Project, Selectable, Pick;
    PickFailsIff(ctxs, cache);
    forall d | d in cache && ctxs[d].buf != [] && |cache| != 1 ensures ctxs[d].buf[0].ts < UINT64_MAX {
      HeadSelectable(ctxs[d], Project(out, d), goals[d], last, ordered);
    }
  }

  lemma HeadSelectable(c: Ctx, done: seq<Event>, goal: seq<Event>, last: nat, ordered: bool)
    requires CtxOk(c, done, goal, last, ordered) && Selectable(goal) && c.buf != []
    ensures c.buf[0].ts < UINT64_MAX
  {
    hide Flat, NonMdc;
    assert goal[|done|] == c.buf[0];
  }

  lemma FinishedOk(c: Ctx, done: seq<Event>, goal: seq<Event>, last: nat, ordered: bool)
    requires CtxOk(c, done, goal, last, ordered) && Clear(c)
    ensures done == goal
  {
    hide Flat, QueueEmpty;
    EmptyIsFlat(c.nodes);
    assert NonMdc([]) == [];
  }

  /** What the drain has to process for a context: all that is buffered or queued, except MDC events. */
  function Owed(c: Ctx): seq<Event> { c.buf + NonMdc(Flat(c.nodes)) }

  function AllOwed(ctxs: seq<Ctx>): (r: seq<seq<Event>>)
    ensures |r| == |ctxs| && forall d :: 0 <= d < |ctxs| ==> r[d] == Owed(ctxs[d])
  {
    seq(|ctxs|, d requires 0 <= d < |ctxs| => Owed(ctxs[d]))
  }

  class BackendWorker {
    const cfg: Config
    var ctxs: seq<Ctx>
    var reg: Registry
    var out: seq<Output>
    /** What the drain put out, what each context owes it, and the last timestamp, if contexts are in order. */
    ghost var drained: seq<Output>
    ghost var goals: seq<seq<Event>>
    ghost var last: nat
    ghost var ordered: bool

    /** Every context that still holds something is registered; the flag announces those not cached yet. */
    ghost predicate Valid()
      reads this`ctxs, this`reg
    {
      && cfg.hardLimit > 0
      && Cached(ctxs, reg.ids) && Cached(ctxs, reg.cache)
      && (reg.flag || reg.cache == reg.ids)
      && (forall d :: 0 <= d < |ctxs| ==> ctxs[d].nodes != [])
      && (forall d :: 0 <= d < |ctxs| ==> d in reg.ids || Clear(ctxs[d]))
    }

    ghost predicate Draining()
      reads this
    {
      && Valid()
      && AllOk(ctxs, drained, goals, last, ordered)
      && (ordered ==> SortedUpTo(drained, last))
      && (|reg.ids| != 1 ==> OutSelectable(drained))
    }

    /** What the drain can get through: everything of a lone context, all but the largest timestamp of several. */
    ghost predicate Processable()
      reads this`reg, this`goals
    {
      |reg.ids| == 1 || AllSelectable(goals)
    }

    constructor (cfg: Config, ctxs: seq<Ctx>, reg: Registry, out: seq<Output>)
      ensures this.cfg == cfg && this.ctxs == ctxs && this.reg == reg && this.out == out
    {
      this.cfg, this.ctxs, this.reg, this.out := cfg, ctxs, reg, out;
    }

    /** `_update_active_thread_contexts_cache`. */
    method UpdateCache()
      requires Valid()
      modifies this`reg
      ensures Valid() && reg.cache == reg.ids == old(reg.ids)
    {
      hide Clear;
      if reg.flag { reg := reg.(flag := false, cache := reg.ids); }
    }

    /**
     `_read_and_decode_frontend_queue`: it makes progress, or it changes nothing because the buffer
     holds something, the queue is empty or its oldest event is past the cutoff. Such events stay.
     */
    method ReadQueue(d: nat, cutoff: nat) returns (size: nat)
      requires d < |ctxs| && ctxs[d].nodes != [] && cfg.hardLimit > 0
      modifies this`ctxs
      ensures |ctxs| == |old(ctxs)| && ctxs == old(ctxs)[d := ctxs[d]]
      ensures ReadsFrom(old(ctxs[d]), ctxs[d])
      ensures Weight(ctxs[d]) < Weight(old(ctxs[d])) ||
              (ctxs[d] == old(ctxs[d]) && (Starved(ctxs[d]) ==> !AllPast(Flat(ctxs[d].nodes), cutoff)))
      ensures StaysQueued(old(ctxs[d]), ctxs[d], cutoff)
      ensures Weight(ctxs[d]) + |ctxs[d].buf| <= Weight(old(ctxs[d])) + |old(ctxs[d]).buf|
      ensures size == |ctxs[d].buf|
    {
      hide Flat, NonMdc, ReadsFrom, Hop, Pop, Weight, QueueEmpty, StaysQueued, TooNew;
      var capacity: nat :| capacity > 0;
      var got := 0;
      ghost var before := ctxs[d];
      var c := ctxs[d];
      ReadsNothing(c);
      StaysAll(c, cutoff);
      while got < capacity && |c.buf| < cfg.hardLimit
        invariant ctxs == old(ctxs)
        invariant ReadsFrom(before, c) && c.nodes != [] && StaysQueued(before, c, cutoff)
        invariant (c == before && got == 0) || Weight(c) < Weight(before)
        decreases Weight(c)
      {
        ReadsHop(before, c);
        ReadsNodes(before, c.(nodes := Hop(c.nodes)));
        StaysHop(before, c, cutoff);
        c := c.(nodes := Hop(c.nodes));
        if c.nodes[0] == [] { break; }
        var allocationFails: bool := *;
        if c.buf != [] && allocationFails { break; }
        var e := c.nodes[0][0];
        FlatPop(c.nodes);
        if TooNew(e, cutoff) { break; }
        ReadsPop(before, c);
        StaysPop(before, c, cutoff);
        c := c.(nodes := Pop(c.nodes), buf := if e.mdc then c.buf else c.buf + [e]);
        ReadsNodes(before, c);
        got := got + e.bytes;
      }
      ReadsWeight(before, c);
      ctxs := ctxs[d := c];
      size := |c.buf|;
    }

    /** One cached context of the pass. */
    method PopulateOne(d: nat, cutoff: nat) returns (size: nat)
      requires Draining() && d < |ctxs|
      modifies this`ctxs
      ensures Draining() && |ctxs| == |old(ctxs)| && size == |ctxs[d].buf|
      ensures TotalWeight(ctxs) < TotalWeight(old(ctxs)) ||
              (ctxs == old(ctxs) && (AllFree(ctxs, cutoff) ==> !Starved(ctxs[d])))
      ensures TotalWeight(ctxs) + TotalBuffered(ctxs) <= TotalWeight(old(ctxs)) + TotalBuffered(old(ctxs))
      ensures Stays(old(ctxs), ctxs, cutoff)
      ensures forall x :: 0 <= x < |ctxs| ==> ctxs[x] == old(ctxs)[x] || x == d
      ensures old(ctxs)[d].buf != [] ==> ctxs[d].buf != []
    {
      hide AllOk, SortedUpTo, OutSelectable, Starved, TotalWeight, TotalBuffered, Clear, ReadsFrom, Weight;
      hide AllPast, StaysQueued, Stays, Flat;
      ghost var before := ctxs;
      size := ReadQueue(d, cutoff);
      ReplaceOk(before, d, ctxs[d], drained, goals, last, ordered);
      WeightUpdate(before, d, ctxs[d]);
      BufferedUpdate(before, d, ctxs[d]);
      ReadsBuffer(before[d], ctxs[d]);
      StaysRefl(before);
      StaysNext(before, before, ctxs, d, cutoff);
    }

    /**
     `_populate_transit_events_from_frontend_queues`: one pass over the cached contexts. It moves
     something, or it changes nothing because no context with an empty buffer has anything queued
     before the cutoff.
     */
    method Populate(now: nat) returns (total: nat)
      requires Draining()
      modifies this`ctxs
      ensures Draining() && |ctxs| == |old(ctxs)|
      ensures TotalWeight(ctxs) < TotalWeight(old(ctxs)) ||
              (ctxs == old(ctxs) && (AllFree(ctxs, CutoffAt(cfg, now)) ==> forall d :: d in reg.cache ==> !Starved(ctxs[d])))
      ensures Stays(old(ctxs), ctxs, CutoffAt(cfg, now))
      ensures TotalWeight(ctxs) + TotalBuffered(ctxs) <= TotalWeight(old(ctxs)) + TotalBuffered(old(ctxs))
      ensures total > 0 <==> exists d :: d in reg.cache && ctxs[d].buf != []
    {
      hide AllOk, SortedUpTo, OutSelectable, Starved, TotalWeight, TotalBuffered, Clear, Stays, AllFree, CutoffAt;
      var cutoff := CutoffAt(cfg, now);
      total := 0;
      StaysRefl(ctxs);
      for i := 0 to |reg.cache|
        invariant Draining() && |ctxs| == |old(ctxs)|
        invariant TotalWeight(ctxs) < TotalWeight(old(ctxs)) ||
                  (ctxs == old(ctxs) && (AllFree(ctxs, cutoff) ==> forall k :: 0 <= k < i ==> !Starved(ctxs[reg.cache[k]])))
        invariant Stays(old(ctxs), ctxs, cutoff)
        invariant TotalWeight(ctxs) + TotalBuffered(ctxs) <= TotalWeight(old(ctxs)) + TotalBuffered(old(ctxs))
        invariant total == 0 ==> forall k :: 0 <= k < i ==> ctxs[reg.cache[k]].buf == []
        invariant total > 0 ==> exists k :: 0 <= k < i && ctxs[reg.cache[k]].buf != []
      {
        ghost var before := ctxs;
        var size := PopulateOne(reg.cache[i], cutoff);
        StaysAlong(old(ctxs), before, ctxs, cutoff);
        total := total + size;
      }
    }

    /** `has_pending_events_for_caching_when_transit_event_buffer_empty`. */
    method HasPending() returns (pending: bool)
      requires Draining()
      modifies this`reg
      ensures Draining() && reg.cache == reg.ids == old(reg.ids)
      ensures pending <==> exists d :: d in reg.cache && Starved(ctxs[d])
    {
      hide AllOk, SortedUpTo, OutSelectable, QueueEmpty, Clear;
      UpdateCache();
      for i := 0 to |reg.cache|
        invariant forall k :: 0 <= k < i ==> !Starved(ctxs[reg.cache[k]])
      {
        var c := ctxs[reg.cache[i]];
        if c.buf == [] && !QueueEmpty(c.nodes) { return true; }
      }
      return false;
    }

    /** `_check_frontend_queues_and_cached_transit_events_empty`. */
    method AllEmpty() returns (empty: bool)
      requires Draining()
      modifies this`reg
      ensures Draining() && reg.cache == reg.ids == old(reg.ids)
      ensures empty <==> forall d :: 0 <= d < |ctxs| ==> Clear(ctxs[d])
    {
      hide AllOk, SortedUpTo, OutSelectable, QueueEmpty;
      UpdateCache();
      empty := true;
      for i := 0 to |reg.cache|
        invariant empty <==> forall k :: 0 <= k < i ==> Clear(ctxs[reg.cache[k]])
      {
        var c := ctxs[reg.cache[i]];
        empty := empty && QueueEmpty(c.nodes) && c.buf == [];
      }
    }

    /** The selection loop of `_process_lowest_timestamp_transit_event`. */
    method Select() returns (chosen: Option<nat>)
      requires Cached(ctxs, reg.cache)
      ensures Pick(ctxs, reg.cache) == match chosen case None => None case Some(d) => if d < |ctxs| && ctxs[d].buf != [] then chosen else None
      ensures chosen.Some? ==> chosen.value < |ctxs|
    {
      if |reg.cache| == 1 { return Some(reg.cache[0]); }
      var minTs := UINT64_MAX;
      chosen := None;
      for i := 0 to |reg.cache|
        invariant chosen == Best(ctxs, reg.cache[..i])
        invariant minTs == if chosen.Some? then ctxs[chosen.value].buf[0].ts else UINT64_MAX
      {
        assert reg.cache[..i + 1][..i] == reg.cache[..i];
        var d := reg.cache[i];
        if ctxs[d].buf != [] && minTs > ctxs[d].buf[0].ts {
          minTs, chosen := ctxs[d].buf[0].ts, Some(d);
        }
      }
      assert reg.cache[..|reg.cache|] == reg.cache;
    }

    /** `_process_lowest_timestamp_transit_event`, when the pending check has passed. */
    method ProcessLowest() returns (processed: bool)
      requires Draining() && reg.cache == reg.ids && forall d :: d in reg.cache ==> !Starved(ctxs[d])
      modifies this`ctxs, this`out, this`drained, this`last
      ensures Draining() && |ctxs| == |old(ctxs)|
      ensures TotalWeight(ctxs) == TotalWeight(old(ctxs))
      ensures processed ==> exists d :: d in reg.cache && old(ctxs)[d].buf != []
      ensures Processable() && (exists d :: d in reg.cache && old(ctxs)[d].buf != []) ==> processed
      ensures SameQueues(old(ctxs), ctxs) && Cached(old(ctxs), reg.cache)
      ensures match Pick(old(ctxs), reg.cache)
              case None => !processed
              case Some(d) =>
                && processed && out == old(out) + [Output(d, old(ctxs)[d].buf[0])]
                && ctxs == old(ctxs)[d := old(ctxs)[d].(buf := old(ctxs)[d].buf[1..])]
      ensures if processed then TotalBuffered(ctxs) < TotalBuffered(old(ctxs)) else unchanged(this)
      ensures exists more :: out == old(out) + more && drained == old(drained) + more
    {
      hide AllOk, SortedUpTo, OutSelectable, Starved, TotalWeight, TotalBuffered, Clear, Weight, Pick;
      var chosen := Select();
      if chosen.None? || ctxs[chosen.value].buf == [] {
        if Processable() { NothingPicked(ctxs, reg.cache, drained, goals, last, ordered); }
        assert out == old(out) + [] && drained == old(drained) + [];
        return false;
      }
      var d := chosen.value;
      var c := ctxs[d];
      var next := c.(buf := c.buf[1..]);
      PickIsCached(ctxs, reg.cache);
      assert forall x :: 0 <= x < |ctxs| ==> x in reg.cache || Clear(ctxs[x]);
      forall x | 0 <= x < |ctxs| && Clear(ctxs[x]) ensures !Starved(ctxs[x]) { ClearFacts(ctxs[x]); }
      PickOk(ctxs, reg.cache, drained, goals, last, ordered);
      WeightUpdate(ctxs, d, next);
      BufferedUpdate(ctxs, d, next);
      PoppedWeight(c);
      if |reg.ids| != 1 { SelectableNext(drained, Output(d, c.buf[0])); }
      if ordered { SortedNext(drained, Output(d, c.buf[0]), last); }
      out, drained := out + [Output(d, c.buf[0])], drained + [Output(d, c.buf[0])];
      ctxs := ctxs[d := next];
      last := c.buf[0].ts;
      processed := true;
    }

    lemma RegisteredInRange()
      requires Draining()
      ensures Cached(ctxs, reg.ids)
    {}

    /** The batch loop: processes until a context is starved or nothing is buffered. */
    method Batch()
      requires Draining()
      modifies this`reg, this`ctxs, this`out, this`drained, this`last
      ensures Draining() && |ctxs| == |old(ctxs)| && reg.ids == old(reg.ids)
      ensures TotalWeight(ctxs) == TotalWeight(old(ctxs)) && TotalBuffered(ctxs) <= TotalBuffered(old(ctxs))
      ensures SameQueues(old(ctxs), ctxs)
      ensures Processable() && (exists d :: d in reg.ids && old(ctxs)[d].buf != []) && (forall d :: d in reg.ids ==> !Starved(old(ctxs)[d])) ==>
                TotalBuffered(ctxs) < TotalBuffered(old(ctxs))
      ensures Cached(ctxs, reg.ids) && ((exists d :: d in reg.ids && Starved(ctxs[d])) || Pick(ctxs, reg.ids).None?)
      ensures exists more :: out == old(out) + more && drained == old(drained) + more
    {
      hide Draining, Starved, TotalWeight, TotalBuffered, Pick;
      ghost var more: seq<Output> := [];
      var pending, processed := false, true;
      RegisteredInRange();
      while !pending && processed
        invariant Cached(ctxs, reg.ids) && (!processed ==> Pick(ctxs, reg.ids).None?)
        invariant pending ==> exists d :: d in reg.ids && Starved(ctxs[d])
        invariant !processed && Processable() ==> forall d :: d in reg.ids ==> ctxs[d].buf == []
        invariant Draining() && |ctxs| == |old(ctxs)| && reg.ids == old(reg.ids)
        invariant TotalWeight(ctxs) == TotalWeight(old(ctxs)) && SameQueues(old(ctxs), ctxs)
        invariant ctxs == old(ctxs) || TotalBuffered(ctxs) < TotalBuffered(old(ctxs))
        invariant out == old(out) + more && drained == old(drained) + more
        decreases !pending && processed, TotalBuffered(ctxs)
      {
        pending := HasPending();
        if !pending {
          ghost var was := out;
          processed := ProcessLowest();
          RegisteredInRange();
          ghost var extra :| out == was + extra && drained == (old(drained) + more) + extra;
          more := more + extra;
        }
      }
    }

    /** One turn of the drain: finds everything empty, or moves something on unless all of it is past the cutoff. */
    method Turn(now: nat) returns (empty: bool)
      requires Draining()
      modifies this`reg, this`ctxs, this`out, this`drained, this`last
      ensures Draining() && |ctxs| == |old(ctxs)| && reg.ids == old(reg.ids)
      ensures empty ==> Processable() && forall d :: 0 <= d < |ctxs| ==> Clear(ctxs[d])
      ensures Measure(ctxs) <= Measure(old(ctxs))
      ensures Processable() && AllFree(old(ctxs), CutoffAt(cfg, now)) && !empty ==> Measure(ctxs) < Measure(old(ctxs))
      ensures Stays(old(ctxs), ctxs, CutoffAt(cfg, now))
      ensures exists more :: out == old(out) + more && drained == old(drained) + more
    {
      hide Starved, TotalWeight, TotalBuffered, Clear, Draining;
      assert out == old(out) + [] && drained == old(drained) + [];
      empty := AllEmpty();
      if empty { ClearIsProcessable(); }
      if !empty {
        ghost var was := ctxs;
        var total := Populate(now);
        if total > 0 { Batch(); }
        if total == 0 && ctxs == was && AllFree(was, CutoffAt(cfg, now)) { NothingLeft(); }
      }
    }

    lemma StartDraining()
      requires Valid() && drained == [] && |goals| == |ctxs|
      requires forall d :: 0 <= d < |ctxs| ==> goals[d] == Owed(ctxs[d])
      requires ordered == forall d :: 0 <= d < |ctxs| ==> SortedTs(Outstanding(ctxs[d]))
      requires last == 0
      ensures Draining()
      ensures Processable() <==> |reg.ids| == 1 || forall d :: 0 <= d < |ctxs| ==> Selectable(Owed(ctxs[d]))
    {
      hide Flat, NonMdc, SortedTs, Outstanding, Selectable, Clear, Project;
      forall d | 0 <= d < |ctxs| ensures CtxOk(ctxs[d], Project(drained, d), goals[d], last, ordered) {
        NoOutputYet(drained, d);
        assert [] + ctxs[d].buf == ctxs[d].buf;
      }
    }

    lemma NothingLeft()
      requires Draining() && reg.cache == reg.ids
      requires forall d :: d in reg.cache ==> ctxs[d].buf == [] && !Starved(ctxs[d])
      ensures forall d :: 0 <= d < |ctxs| ==> Clear(ctxs[d])
    {
      hide AllOk, SortedUpTo, OutSelectable, QueueEmpty;
    }

    /** An event that is never selected is never cleared away either. */
    lemma ClearIsProcessable()
      requires Draining() && forall d :: 0 <= d < |ctxs| ==> Clear(ctxs[d])
      ensures Processable()
    {
      hide CtxOk, Project, Selectable, Clear, SortedUpTo;
      if |reg.ids| != 1 {
        forall d | 0 <= d < |goals| ensures Selectable(goals[d]) {
          FinishedOk(ctxs[d], Project(drained, d), goals[d], last, ordered);
          ProjectSelectable(drained, d);
        }
      }
    }

    lemma Finished()
      requires Draining() && forall d :: 0 <= d < |ctxs| ==> Clear(ctxs[d])
      ensures forall d :: 0 <= d < |ctxs| ==> Project(drained, d) == goals[d]
      ensures ordered ==> OutSorted(drained)
    {
      hide CtxOk, Project, OutSorted, OutSelectable, Clear;
      forall d | 0 <= d < |ctxs| ensures Project(drained, d) == goals[d] {
        FinishedOk(ctxs[d], Project(drained, d), goals[d], last, ordered);
      }
    }

    /** The state in which the drain begins, seen as a drain that has put out nothing yet. */
    ghost method BeginDrain()
      requires Valid()
      modifies this`drained, this`goals, this`last, this`ordered
      ensures Draining() && drained == [] && goals == AllOwed(ctxs)
      ensures ordered <==> forall d :: 0 <= d < |ctxs| ==> SortedTs(Outstanding(ctxs[d]))
      ensures Processable() <==> |reg.ids| == 1 || forall d :: 0 <= d < |ctxs| ==> Selectable(Owed(ctxs[d]))
    {
      hide Draining, Valid, SortedTs, Selectable, Owed, Outstanding, Processable;
      goals := AllOwed(ctxs);
      ordered := forall d :: 0 <= d < |ctxs| ==> SortedTs(Outstanding(ctxs[d]));
      drained, last := [], 0;
      StartDraining();
    }

    /**
     `_exit`, waiting for the queues to empty, with no frontend logging any more. `clock(i)` is what
     the clock reads in turn i; from turn `settled` on it has passed every queued timestamp by the
     grace period, which without one it always has. The drain terminates with every context empty,
     having processed exactly what was buffered and queued, each context's events in program order.
     If every context's events were in timestamp order, then so is the whole output of the drain.
     Only an event stamped with the largest timestamp, and that among several contexts, is excluded:
     ExitTurns shows that the drain does not end with one.
     */
    method Exit(clock: nat -> nat, ghost settled: nat)
      requires Valid()
      requires |reg.ids| == 1 || forall d :: 0 <= d < |ctxs| ==> Selectable(Owed(ctxs[d]))
      requires Reads(clock) && Settles(cfg, ctxs, clock, settled)
      modifies this
      ensures |ctxs| == |old(ctxs)| && reg.ids == old(reg.ids)
      ensures forall d :: 0 <= d < |ctxs| ==> Clear(ctxs[d])
      ensures out == old(out) + drained
      ensures forall d :: 0 <= d < |ctxs| ==> Project(drained, d) == Owed(old(ctxs[d]))
      ensures (forall d :: 0 <= d < |ctxs| ==> SortedTs(Outstanding(old(ctxs[d])))) ==> OutSorted(drained)
    {
      hide Starved, Measure, Clear, Draining, Valid, SortedTs, Selectable, Project, Owed, Outstanding, OutSorted, AllSelectable;
      hide Stays, AllFree, CutoffAt, Settles;
      BeginDrain();
      ghost var was := ordered;
      var empty := false;
      var turn := 0;
      while !empty
        invariant Draining() && Processable() && |ctxs| == |old(ctxs)| && reg.ids == old(reg.ids)
        invariant out == old(out) + drained
        invariant goals == AllOwed(old(ctxs)) && ordered == was
        invariant Settles(cfg, ctxs, clock, settled)
        invariant empty ==> forall d :: 0 <= d < |ctxs| ==> Clear(ctxs[d])
        decreases !empty, if turn < settled then settled - turn else 0, Measure(ctxs)
      {
        ghost var before := ctxs;
        SettledAt(cfg, ctxs, clock, settled, turn);
        empty := Turn(clock(turn));
        StaysSettled(cfg, before, ctxs, clock, settled, CutoffAt(cfg, clock(turn)));
        turn := turn + 1;
      }
      Finished();
    }

    /**
     The same loop, given up after n turns. If it reports everything empty then nothing it owes is
     beyond selection and, for a clock that does not go back, the last reading has passed all that
     was queued; and if that is so it does, provided it gets more turns from then on than there are
     events and nodes to move.
     */
    method ExitTurns(n: nat, clock: nat -> nat, ghost settled: nat) returns (empty: bool)
      requires Valid() && Reads(clock)
      modifies this
      ensures empty ==> |reg.ids| == 1 || forall d :: 0 <= d < |old(ctxs)| ==> Selectable(Owed(old(ctxs[d])))
      ensures empty && n > 0 && Advances(clock) ==> NoneHeld(cfg, old(ctxs), clock(n - 1))
      ensures (|old(reg.ids)| == 1 || forall d :: 0 <= d < |old(ctxs)| ==> Selectable(Owed(old(ctxs[d])))) ==>
                Settles(cfg, old(ctxs), clock, settled) ==> n > settled + Measure(old(ctxs)) ==> empty
      ensures reg.ids == old(reg.ids)
    {
      hide Starved, Measure, Clear, Draining, Valid, Selectable, Owed, AllSelectable, Stays, AllFree, CutoffAt, NoneHeld, Settles, Advances;
      BeginDrain();
      empty := false;
      ghost var able := Processable() && Settles(cfg, ctxs, clock, settled);
      StaysRefl(ctxs);
      for i := 0 to n
        invariant Draining() && !empty && reg.ids == old(reg.ids) && goals == AllOwed(old(ctxs))
        invariant able ==> Processable() && Settles(cfg, ctxs, clock, settled)
        invariant Measure(ctxs) <= Measure(old(ctxs))
        invariant able && i > settled ==> Measure(ctxs) + (i - settled) <= Measure(old(ctxs))
        invariant Advances(clock) && n > 0 ==> Stays(old(ctxs), ctxs, CutoffAt(cfg, clock(n - 1)))
      {
        ghost var before := ctxs;
        ghost var cutoff := CutoffAt(cfg, clock(i));
        if able { SettledAt(cfg, ctxs, clock, settled, i); }
        empty := Turn(clock(i));
        if able { StaysSettled(cfg, before, ctxs, clock, settled, cutoff); }
        if Advances(clock) {
          StaysLater(cfg, before, ctxs, clock, i, n - 1);
          StaysAlong(old(ctxs), before, ctxs, CutoffAt(cfg, clock(n - 1)));
        }
        if empty {
          if Advances(clock) {
            ClearedWasFree(old(ctxs), ctxs, CutoffAt(cfg, clock(n - 1)));
            NoneHeldIff(cfg, old(ctxs), clock(n - 1));
          }
          return;
        }
      }
    }
  }

  // ---- Events past the cutoff ------------------------------------------------------------------

  predicate AllPast(s: seq<Event>, cutoff: nat) { forall e :: e in s ==> !TooNew(e, cutoff) }

  /** Nothing queued is past the cutoff. */
  predicate AllFree(ctxs: seq<Ctx>, cutoff: nat) {
    forall d :: 0 <= d < |ctxs| ==> AllPast(Flat(ctxs[d].nodes), cutoff)
  }

  /** No queued event is held back at this reading of the clock. */
  predicate NoneHeld(cfg: Config, ctxs: seq<Ctx>, now: nat) {
    forall d, e :: 0 <= d < |ctxs| && e in Flat(ctxs[d].nodes) ==> !Held(cfg, e, now)
  }

  /** From turn `settled` on the clock has passed everything queued by the grace period. */
  ghost predicate Settles(cfg: Config, ctxs: seq<Ctx>, clock: nat -> nat, settled: nat) {
    forall i: nat :: i >= settled ==> NoneHeld(cfg, ctxs, clock(i))
  }

  /** The clock fits its word. */
  ghost predicate Reads(clock: nat -> nat) {
    forall i: nat :: clock(i) < UINT64_MAX
  }

  /** A clock that does not go back. */
  ghost predicate Advances(clock: nat -> nat) {
    forall i: nat, j: nat :: i <= j ==> clock(i) <= clock(j)
  }

  lemma NoneHeldIff(cfg: Config, ctxs: seq<Ctx>, now: nat)
    requires now < UINT64_MAX
    ensures NoneHeld(cfg, ctxs, now) <==> AllFree(ctxs, CutoffAt(cfg, now))
  {
    hide Flat, TooNew, CutoffAt, Held;
    forall e ensures TooNew(e, CutoffAt(cfg, now)) <==> Held(cfg, e, now) { TooNewIff(cfg, e, now); }
  }

  /** A clock that reaches every queued timestamp plus the grace period, and stays there, settles. */
  lemma SettlesWhenPassed(cfg: Config, ctxs: seq<Ctx>, clock: nat -> nat, settled: nat)
    requires forall d, e, i: nat :: 0 <= d < |ctxs| && e in Flat(ctxs[d].nodes) && i >= settled ==> e.ts + cfg.grace <= clock(i)
    ensures Settles(cfg, ctxs, clock, settled)
  {
    hide Flat;
  }

  /** Without a grace period there is nothing to wait for. */
  lemma NoGraceSettles(cfg: Config, ctxs: seq<Ctx>, clock: nat -> nat)
    requires cfg.grace == 0
    ensures Settles(cfg, ctxs, clock, 0)
  {}

  /** Nothing joined the queue, and what is past the cutoff is still in it. */
  ghost predicate StaysQueued(c: Ctx, r: Ctx, cutoff: nat) {
    && (forall e :: e in Flat(r.nodes) ==> e in Flat(c.nodes))
    && (forall e :: e in Flat(c.nodes) && TooNew(e, cutoff) ==> e in Flat(r.nodes))
  }

  ghost predicate Stays(ctxs: seq<Ctx>, next: seq<Ctx>, cutoff: nat) {
    |next| == |ctxs| && forall d :: 0 <= d < |ctxs| ==> StaysQueued(ctxs[d], next[d], cutoff)
  }

  predicate SameQueues(ctxs: seq<Ctx>, next: seq<Ctx>) {
    |next| == |ctxs| && forall d :: 0 <= d < |ctxs| ==> next[d].nodes == ctxs[d].nodes
  }

  lemma StaysAll(c: Ctx, cutoff: nat)
    ensures StaysQueued(c, c, cutoff)
  {}

  lemma StaysRefl(ctxs: seq<Ctx>)
    ensures forall cutoff :: Stays(ctxs, ctxs, cutoff)
  {}

  lemma StaysHop(c: Ctx, r: Ctx, cutoff: nat)
    requires r.nodes != [] && StaysQueued(c, r, cutoff)
    ensures StaysQueued(c, r.(nodes := Hop(r.nodes)), cutoff)
  {
    hide Flat, Hop, TooNew;
    FlatHop(r.nodes);
  }

  lemma StaysPop(c: Ctx, r: Ctx, cutoff: nat)
    requires r.nodes != [] && r.nodes[0] != [] && StaysQueued(c, r, cutoff) && !TooNew(r.nodes[0][0], cutoff)
    ensures var e := r.nodes[0][0];
            StaysQueued(c, r.(nodes := Pop(r.nodes), buf := if e.mdc then r.buf else r.buf + [e]), cutoff)
  {
    hide Flat, Pop, TooNew;
    FlatPop(r.nodes);
  }

  lemma StaysAlong(a: seq<Ctx>, b: seq<Ctx>, c: seq<Ctx>, cutoff: nat)
    requires Stays(a, b, cutoff) && Stays(b, c, cutoff)
    ensures Stays(a, c, cutoff)
  {
    hide Flat, TooNew;
  }

  lemma StaysNext(start: seq<Ctx>, ctxs: seq<Ctx>, next: seq<Ctx>, d: nat, cutoff: nat)
    requires Stays(start, ctxs, cutoff) && d < |ctxs| == |next| && next == ctxs[d := next[d]]
    requires StaysQueued(ctxs[d], next[d], cutoff)
    ensures Stays(start, next, cutoff)
  {
    hide Flat, TooNew;
  }

  /** Nothing comes back to the queues, so a settled clock stays settled. */
  lemma StaysSettled(cfg: Config, ctxs: seq<Ctx>, next: seq<Ctx>, clock: nat -> nat, settled: nat, cutoff: nat)
    requires Settles(cfg, ctxs, clock, settled) && Stays(ctxs, next, cutoff)
    ensures Settles(cfg, next, clock, settled)
  {
    hide Flat, TooNew, Held;
    forall i: nat | i >= settled ensures NoneHeld(cfg, next, clock(i)) {
      assert NoneHeld(cfg, ctxs, clock(i));
      forall d, e | 0 <= d < |next| && e in Flat(next[d].nodes) ensures !Held(cfg, e, clock(i)) {
        assert StaysQueued(ctxs[d], next[d], cutoff) && e in Flat(ctxs[d].nodes);
      }
    }
  }

  lemma SettledAt(cfg: Config, ctxs: seq<Ctx>, clock: nat -> nat, settled: nat, i: nat)
    requires Settles(cfg, ctxs, clock, settled) && Reads(clock)
    ensures i >= settled ==> AllFree(ctxs, CutoffAt(cfg, clock(i)))
  {
    hide AllFree, CutoffAt, NoneHeld;
    NoneHeldIff(cfg, ctxs, clock(i));
  }

  /** What is past a later cutoff is past an earlier one. */
  lemma StaysLater(cfg: Config, ctxs: seq<Ctx>, next: seq<Ctx>, clock: nat -> nat, i: nat, j: nat)
    requires Advances(clock) && Reads(clock) && i <= j && Stays(ctxs, next, CutoffAt(cfg, clock(i)))
    ensures Stays(ctxs, next, CutoffAt(cfg, clock(j)))
  {
    hide Flat;
    assert clock(i) <= clock(j) && clock(j) < UINT64_MAX;
    assert forall e :: TooNew(e, CutoffAt(cfg, clock(j))) ==> TooNew(e, CutoffAt(cfg, clock(i)));
  }

  lemma ClearedWasFree(ctxs: seq<Ctx>, next: seq<Ctx>, cutoff: nat)
    requires Stays(ctxs, next, cutoff) && forall d :: 0 <= d < |next| ==> Clear(next[d])
    ensures AllFree(ctxs, cutoff)
  {
    hide Flat, TooNew, QueueEmpty;
    forall d | 0 <= d < |ctxs| ensures AllPast(Flat(ctxs[d].nodes), cutoff) {
      EmptyIsFlat(next[d].nodes);
      assert StaysQueued(ctxs[d], next[d], cutoff);
    }
  }

  // ---- A drain that does not end ---------------------------------------------------------------

  /** Two contexts are registered. */
  lemma TwoRegistered(cfg: Config, now: nat) returns (s: State, t: State)
    ensures Typed(Start(now)) && Enabled(cfg, Start(now), Register) && s == Apply(cfg, Start(now), Register)
    ensures Typed(s) && Enabled(cfg, s, Register) && t == Apply(cfg, s, Register)
    ensures t == Start(now).(ctxs := [Ctx([], [[]], [], false), Ctx([], [[]], [], false)],
                             reg := Registry([0, 1], true, []))
  {
    s := Apply(cfg, Start(now), Register);
    t := Apply(cfg, s, Register);
  }

  lemma CommitFirst(cfg: Config, s: State, e: Event) returns (t: State)
    requires s.ctxs == [Ctx([], [[]], [], false), Ctx([], [[]], [], false)] && s.reg.cache == [] && s.pc.Idle?
    requires e.bytes > 0 && e.ts <= UINT64_MAX
    ensures Typed(s) && Enabled(cfg, s, Commit(0, e)) && t == Apply(cfg, s, Commit(0, e))
    ensures t == s.(ctxs := [Ctx([e], [[e]], [], false), Ctx([], [[]], [], false)])
  {
    var nodes: seq<seq<Event>> := [[]];
    assert nodes[..0] == [] && nodes[0] + [e] == [e];
    assert Append(nodes, e) == [[e]];
    t := Apply(cfg, s, Commit(0, e));
  }

  /** Two contexts are registered, and one commits an event with the largest timestamp. */
  lemma StuckRun(cfg: Config, now: nat) returns (run: seq<State>, steps: seq<Step>)
    ensures Scheduler.IsRun(cfg, run, steps) && |run| == 4
    ensures var e := Event(UINT64_MAX, false, false, 1);
            && run[3].ctxs == [Ctx([e], [[e]], [], false), Ctx([], [[]], [], false)]
            && run[3].reg == Registry([0, 1], true, []) && run[3].out == []
  {
    hide Apply, Enabled, Typed;
    var e := Event(UINT64_MAX, false, false, 1);
    var s, t := TwoRegistered(cfg, now);
    var u := CommitFirst(cfg, t, e);
    run, steps := [Start(now), s, t, u], [Register, Register, Commit(0, e)];
  }

  /** From the state such a run ends in, the drain turns for ever. */
  method StuckDrain(n: nat, clock: nat -> nat) returns (empty: bool)
    requires Reads(clock)
    ensures !empty
  {
    var e := Event(UINT64_MAX, false, false, 1);
    var cfg := Config(0, 1, 1);
    var ctxs := [Ctx([e], [[e]], [], false), Ctx([], [[]], [], false)];
    ghost var run, steps := StuckRun(cfg, 0);
    assert run[3].ctxs == ctxs;
    var worker := new BackendWorker(cfg, ctxs, Registry([0, 1], true, []), []);
    FlatOne([e]);
    NonMdcOne(e);
    assert e in Owed(ctxs[0]);
    empty := worker.ExitTurns(n, clock, 0);
  }

  /** Events and nodes still to be moved, a queued event counted twice. */
  function Measure(ctxs: seq<Ctx>): nat { 2 * TotalWeight(ctxs) + TotalBuffered(ctxs) }

  predicate OutSelectable(out: seq<Output>) { forall i :: 0 <= i < |out| ==> out[i].event.ts < UINT64_MAX }

  lemma SelectableNext(out: seq<Output>, o: Output)
    requires OutSelectable(out) && o.event.ts < UINT64_MAX
    ensures OutSelectable(out + [o])
  {}

  lemma {:induction false} ProjectSelectable(out: seq<Output>, d: nat)
    requires OutSelectable(out)
    ensures Selectable(Project(out, d))
  {
    if out == [] {
    } else {
      ProjectSelectable(out[..|out| - 1], d);
    }
  }

  lemma ReadsWeight(c: Ctx, r: Ctx)
    requires ReadsFrom(c, r)
    ensures Weight(r) + |r.buf| <= Weight(c) + |c.buf|
  {
    hide Flat, NonMdc;
    NonMdcLength(Flat(c.nodes)[..|Flat(c.nodes)| - |Flat(r.nodes)|]);
  }

  lemma {:induction false} NonMdcLength(s: seq<Event>)
    ensures |NonMdc(s)| <= |s|
  {
    if s == [] {
    } else {
      NonMdcLength(s[1..]);
    }
  }

  lemma PoppedWeight(c: Ctx)
    requires c.buf != []
    ensures Weight(c.(buf := c.buf[1..])) == Weight(c) && !Clear(c)
  {}

  lemma SortedNext(out: seq<Output>, o: Output, last: nat)
    requires SortedUpTo(out, last) && last <= o.event.ts
    ensures SortedUpTo(out + [o], o.event.ts)
  {}

  /** Reading never takes anything out of the buffer. */
  lemma ReadsBuffer(c: Ctx, r: Ctx)
    requires ReadsFrom(c, r)
    ensures r.nodes != [] && (c.buf != [] ==> r.buf != []) && (Clear(c) ==> Clear(r))
  {
    if Clear(c) {
      EmptyIsFlat(c.nodes);
      FlatOne(r.nodes[0]);
    }
  }

  ghost predicate SortedUpTo(out: seq<Output>, last: nat) {
    OutSorted(out) && forall i :: 0 <= i < |out| ==> out[i].event.ts <= last
  }

  ghost predicate AllSelectable(goals: seq<seq<Event>>) {
    forall d :: 0 <= d < |goals| ==> Selectable(goals[d])
  }

  lemma ReadsNodes(c: Ctx, r: Ctx)
    requires ReadsFrom(c, r)
    ensures r.nodes != []
  {}

  predicate Cached(ctxs: seq<Ctx>, ids: seq<nat>) {
    forall k :: 0 <= k < |ids| ==> ids[k] < |ctxs|
  }
}
