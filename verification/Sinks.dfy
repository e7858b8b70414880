/**
 The sink registry of quill/include/quill/core/SinkManager.h: ids are reserved under the lock, sinks
 are constructed outside it, and published under it again.
 */
module Sinks {
  import opened Containers
  import opened Names

  /** A sink object; serial numbers tell objects of the same id apart. */
  datatype Obj = Obj(serial: nat, id: string)

  /** A registered sink, held by a weak pointer: it has expired once the object is no longer alive. */
  datatype SinkInfo = SinkInfo(id: string, obj: Obj)

  datatype Registry = Registry(sinks: seq<SinkInfo>, pending: seq<string>)

  function Ids(sinks: seq<SinkInfo>): (r: seq<string>)
    ensures |r| == |sinks| && forall i :: 0 <= i < |sinks| ==> r[i] == sinks[i].id
  {
    seq(|sinks|, i requires 0 <= i < |sinks| => sinks[i].id)
  }

  // ---- Critical sections -----------------------------------------------------------------------

  /** `_find_sink`. */
  function FindLive(sinks: seq<SinkInfo>, id: string, alive: set<Obj>): Option<Obj> {
    var i := LowerBound(Ids(sinks), id);
    if i < |sinks| && sinks[i].id == id && sinks[i].obj in alive then Some(sinks[i].obj) else None
  }

  /** `_insert_sink` takes over the slot of an expired sink of the same id. */
  function InsertSink(sinks: seq<SinkInfo>, id: string, obj: Obj, alive: set<Obj>): seq<SinkInfo> {
    var i := LowerBound(Ids(sinks), id);
    if i < |sinks| && sinks[i].id == id && sinks[i].obj !in alive then sinks[i := SinkInfo(id, obj)]
    else sinks[..i] + [SinkInfo(id, obj)] + sinks[i..]
  }

  /** What is left after a cleanup: the sinks that have not expired, in order. */
  function Live(sinks: seq<SinkInfo>, alive: set<Obj>): seq<SinkInfo> {
    if sinks == [] then []
    else Live(sinks[..|sinks| - 1], alive) + (if sinks[|sinks| - 1].obj in alive then [sinks[|sinks| - 1]] else [])
  }

  datatype Outcome = Existing(obj: Obj) | AlreadyExists | Reserved | Busy

  /** One turn of `_reserve_sink_id_for_creation`; Busy means sleep and try again. */
  function TryReserve(r: Registry, id: string, returnExisting: bool, alive: set<Obj>): (Registry, Outcome) {
    var found := FindLive(r.sinks, id, alive);
    if found.Some? then (r, if returnExisting then Existing(found.value) else AlreadyExists)
    else if Found(r.pending, id) then (r, Busy)
    else (r.(pending := Inserted(r.pending, id)), Reserved)
  }

  function RemovePending(r: Registry, id: string): Registry {
    r.(pending := Erased(r.pending, id))
  }

  function Publish(r: Registry, id: string, obj: Obj, alive: set<Obj>): Registry {
    RemovePending(r.(sinks := InsertSink(r.sinks, id, obj, alive)), id)
  }

  /** A live sink of this id is registered, namely obj. */
  predicate LiveAs(sinks: seq<SinkInfo>, id: string, obj: Obj, alive: set<Obj>) {
    SinkInfo(id, obj) in sinks && obj in alive
  }

  /** The vectors as the manager edits them; every method is one critical section. */
  class SinkManager {
    var sinks: seq<SinkInfo>
    var pending: seq<string>

    function View(): Registry
      reads this
    {
      Registry(sinks, pending)
    }

    ghost predicate Valid()
      reads this
    {
      RegistryInv(View())
    }

    constructor ()
      ensures Valid() && View() == Registry([], [])
    {
      sinks, pending := [], [];
    }

    /** `_find_sink`: the live sink of an id, if one is registered. */
    method FindSink(target: string, alive: set<Obj>) returns (sink: Option<Obj>)
      requires Valid()
      ensures forall o :: sink == Some(o) <==> LiveAs(sinks, target, o, alive)
      ensures sink == FindLive(sinks, target, alive)
    {
      hide LowerBound, Less, Sorted;
      FindLiveMeans(View(), target, alive);
      var i := LowerBound(Ids(sinks), target);
      sink := None;
      if i < |sinks| && sinks[i].id == target {
        if sinks[i].obj in alive { sink := Some(sinks[i].obj); }
      }
    }

    method TryMarkPending(id: string) returns (marked: bool)
      requires Valid()
      modifies this`pending
      ensures Valid() && (marked <==> id !in old(pending))
      ensures forall x :: x in pending <==> x in old(pending) || x == id
      ensures pending == if marked then Inserted(old(pending), id) else old(pending)
    {
      hide LowerBound, Less, Sorted;
      FoundIff(pending, id);
      if id !in pending { InsertSorted(pending, id); }
      var i := LowerBound(pending, id);
      if i < |pending| && pending[i] == id { return false; }
      pending := pending[..i] + [id] + pending[i..];
      return true;
    }

    /** One turn of `_reserve_sink_id_for_creation`. */
    method ReserveOnce(id: string, returnExisting: bool, alive: set<Obj>) returns (outcome: Outcome)
      requires Valid()
      modifies this
      ensures Valid() && sinks == old(sinks)
      ensures forall o :: outcome == Existing(o) <==> returnExisting && LiveAs(old(sinks), id, o, alive)
      ensures outcome == AlreadyExists <==> !returnExisting && exists o :: LiveAs(old(sinks), id, o, alive)
      ensures outcome == Reserved <==> id !in old(pending) && forall o :: !LiveAs(old(sinks), id, o, alive)
      ensures forall x :: x in pending <==> x in old(pending) || (outcome == Reserved && x == id)
      ensures (View(), outcome) == TryReserve(old(View()), id, returnExisting, alive)
    {
      hide LowerBound, RegistryInv, FindLive, LiveAs;
      var sink := FindSink(id, alive);
      if sink.Some? {
        assert LiveAs(sinks, id, sink.value, alive);
        return if returnExisting then Existing(sink.value) else AlreadyExists;
      }
      FoundPending(View(), id);
      var marked := TryMarkPending(id);
      return if marked then Reserved else Busy;
    }

    method ErasePending(id: string)
      requires Valid()
      modifies this`pending
      ensures Valid() && forall x :: x in pending <==> x in old(pending) && x != id
      ensures View() == RemovePending(old(View()), id)
    {
      hide LowerBound, Less, Sorted;
      EraseSorted(pending, id);
      var i := LowerBound(pending, id);
      if i < |pending| && pending[i] == id {
        pending := pending[..i] + pending[i + 1..];
      }
    }

    /** The reservation keeps other sinks of the id out, so none is live. */
    method PublishCreated(id: string, obj: Obj, alive: set<Obj>)
      requires Valid() && obj.id == id && forall o :: !LiveAs(sinks, id, o, alive)
      modifies this
      ensures Valid() && SinkInfo(id, obj) in sinks
      ensures forall x :: x in sinks && x.id == id ==> x.obj == obj
      ensures forall x: SinkInfo :: x.id != id ==> (x in sinks <==> x in old(sinks))
      ensures forall x :: x in pending <==> x in old(pending) && x != id
      ensures View() == Publish(old(View()), id, obj, alive)
    {
      hide LowerBound, RegistryInv, LiveAs;
      PublishMeans(View(), obj, alive);
      ghost var published := InsertSink(sinks, id, obj, alive);
      var i := LowerBound(Ids(sinks), id);
      if i < |sinks| && sinks[i].id == id && sinks[i].obj !in alive {
        sinks := sinks[i := SinkInfo(id, obj)];
      } else {
        sinks := sinks[..i] + [SinkInfo(id, obj)] + sinks[i..];
      }
      assert sinks == published;
      ErasePending(id);
    }

    /** `cleanup_unused_sinks`: erases in place while iterating. */
    method CleanupUnused(alive: set<Obj>) returns (count: nat)
      requires Valid()
      modifies this`sinks
      ensures Valid() && forall x :: x in sinks <==> x in old(sinks) && x.obj in alive
      ensures sinks == Live(old(sinks), alive)
      ensures count == |old(sinks)| - |sinks|
    {
      hide Live, SweptTo, RegistryInv;
      CleanupMeans(View(), alive);
      count := 0;
      var it := 0;
      ghost var was, kept, rest := sinks, [], sinks;
      ghost var seen := 0;
      SweepEnds(was, alive, kept, rest);
      while it < |sinks|
        invariant it == |kept| && sinks == kept + rest && |rest| == |was| - seen && count == |was| - |sinks|
        invariant seen <= |was| && SweptTo(was, alive, seen, kept, rest)
        decreases |sinks| - it
      {
        SweepTurn(was, alive, seen, kept, rest);
        DropAt(kept, rest);
        if sinks[it].obj !in alive {
          sinks := sinks[..it] + sinks[it + 1..];
          count := count + 1;
        } else {
          it := it + 1;
          kept := kept + [rest[0]];
        }
        rest := rest[1..];
        seen := seen + 1;
      }
      SweepEnds(was, alive, kept, rest);
    }
  }

  /** The state of a sweep after n sinks. */
  ghost predicate SweptTo(was: seq<SinkInfo>, alive: set<Obj>, n: nat, kept: seq<SinkInfo>, rest: seq<SinkInfo>)
    requires n <= |was|
  {
    kept == Live(was[..n], alive) && rest == was[n..]
  }

  lemma SweepEnds(was: seq<SinkInfo>, alive: set<Obj>, kept: seq<SinkInfo>, rest: seq<SinkInfo>)
    ensures SweptTo(was, alive, 0, [], was) && [] + was == was
    ensures rest == [] && SweptTo(was, alive, |was|, kept, rest) ==> kept + rest == Live(was, alive)
  {
    assert was[..|was|] == was;
  }

  lemma SweepTurn(was: seq<SinkInfo>, alive: set<Obj>, n: nat, kept: seq<SinkInfo>, rest: seq<SinkInfo>)
    requires n < |was| && |rest| == |was| - n && SweptTo(was, alive, n, kept, rest)
    ensures SweptTo(was, alive, n + 1, if rest[0].obj in alive then kept + [rest[0]] else kept, rest[1..])
  {
    assert was[..n + 1][..n] == was[..n];
    assert kept + [] == kept;
  }

  lemma DropAt(a: seq<SinkInfo>, b: seq<SinkInfo>)
    requires b != []
    ensures (a + b)[|a|] == b[0] && (a + b)[..|a|] + (a + b)[|a| + 1..] == a + b[1..] && a + b == (a + [b[0]]) + b[1..]
  {}

  // ---- The protocol ----------------------------------------------------------------------------

  datatype Thread =
    | Idle
    | Waiting(id: string, returnExisting: bool)
    | Constructing(id: string)
    | Failing(id: string)
    | Constructed(id: string, obj: Obj)
    | Unwinding(obj: Obj)

  datatype State = State(reg: Registry, threads: seq<Thread>, alive: set<Obj>, next: nat)

  datatype Step =
    | Call(t: nat, id: string, returnExisting: bool)
    | Reserve(t: nat)
    | Construct(t: nat)
    | ConstructFails(t: nat)
    | Abandon(t: nat)
    | PublishSink(t: nat)
    | PublishFails(t: nat)
    | Unwind(t: nat)
    | Expire(obj: Obj)
    | Cleanup

  predicate Owns(t: Thread, id: string) {
    (t.Constructing? || t.Failing? || t.Constructed?) && t.id == id
  }

  predicate Holds(t: Thread, obj: Obj) {
    (t.Constructed? || t.Unwinding?) && t.obj == obj
  }

  ghost predicate Enabled(s: State, step: Step) {
    match step
    case Call(t, _, _) => t < |s.threads| && s.threads[t].Idle?
    case Reserve(t) => t < |s.threads| && s.threads[t].Waiting?
    case Construct(t) => t < |s.threads| && s.threads[t].Constructing?
    case ConstructFails(t) => t < |s.threads| && s.threads[t].Constructing?
    case Abandon(t) => t < |s.threads| && s.threads[t].Failing?
    case PublishSink(t) => t < |s.threads| && s.threads[t].Constructed?
    case PublishFails(t) =>
      // only a new vector element allocates; reusing an expired slot cannot fail
      t < |s.threads| && s.threads[t].Constructed? && !Found(Ids(s.reg.sinks), s.threads[t].id)
    case Unwind(t) => t < |s.threads| && s.threads[t].Unwinding?
    case Expire(obj) => obj in s.alive && forall t :: 0 <= t < |s.threads| ==> !Holds(s.threads[t], obj)
    case Cleanup => true
  }

  function Apply(s: State, step: Step): State
    requires Enabled(s, step)
  {
    match step
    case Call(t, id, returnExisting) => s.(threads := s.threads[t := Waiting(id, returnExisting)])
    case Reserve(t) =>
      var (reg, outcome) := TryReserve(s.reg, s.threads[t].id, s.threads[t].returnExisting, s.alive);
      s.(reg := reg, threads :=
        match outcome
        case Reserved => s.threads[t := Constructing(s.threads[t].id)]
        case Busy => s.threads
        case _ => s.threads[t := Idle])
    case Construct(t) =>
      var obj := Obj(s.next, s.threads[t].id);
      s.(threads := s.threads[t := Constructed(s.threads[t].id, obj)], alive := s.alive + {obj}, next := s.next + 1)
    case ConstructFails(t) => s.(threads := s.threads[t := Failing(s.threads[t].id)])
    case Abandon(t) => s.(reg := RemovePending(s.reg, s.threads[t].id), threads := s.threads[t := Idle])
    case PublishSink(t) =>
      s.(reg := Publish(s.reg, s.threads[t].id, s.threads[t].obj, s.alive), threads := s.threads[t := Idle])
    case PublishFails(t) =>
      s.(reg := RemovePending(s.reg, s.threads[t].id), threads := s.threads[t := Unwinding(s.threads[t].obj)])
    case Unwind(t) => s.(threads := s.threads[t := Idle], alive := s.alive - {s.threads[t].obj})
    case Expire(obj) => s.(alive := s.alive - {obj})
    case Cleanup => s.(reg := s.reg.(sinks := Live(s.reg.sinks, s.alive)))
  }

  /** No caller is ever stuck: each has its next step, and a reservation that finds the id busy may be tried again. */
  lemma CanStep(s: State, t: nat, id: string)
    requires t < |s.threads|
    ensures match s.threads[t]
            case Idle => Enabled(s, Call(t, id, true)) && Enabled(s, Call(t, id, false))
            case Waiting(_, _) => Enabled(s, Reserve(t))
            case Constructing(_) => Enabled(s, Construct(t)) && Enabled(s, ConstructFails(t))
            case Failing(_) => Enabled(s, Abandon(t))
            case Constructed(_, _) => Enabled(s, PublishSink(t))
            case Unwinding(_) => Enabled(s, Unwind(t))
  {}

  function Start(threads: nat): State {
    State(Registry([], []), seq(threads, _ => Idle), {}, 0)
  }

  // ---- The invariant ---------------------------------------------------------------------------

  /** Both vectors are strictly sorted, and an entry's object was made for its id. */
  predicate RegistryInv(reg: Registry) {
    && Sorted(Ids(reg.sinks)) && Sorted(reg.pending)
    && forall k :: 0 <= k < |reg.sinks| ==> reg.sinks[k].obj.id == reg.sinks[k].id
  }

  /** The pending ids are those under construction, each by one thread. */
  ghost predicate PendingInv(pending: seq<string>, threads: seq<Thread>) {
    && (forall id :: id in pending ==> exists t :: 0 <= t < |threads| && Owns(threads[t], id))
    && (forall t :: 0 <= t < |threads| && (threads[t].Constructing? || threads[t].Failing? || threads[t].Constructed?) ==>
          threads[t].id in pending)
    && (forall t, u, id :: 0 <= t < |threads| && 0 <= u < |threads| && Owns(threads[t], id) && Owns(threads[u], id) ==> t == u)
  }

  /** No id under construction has a live registered sink. */
  predicate NoLivePending(reg: Registry, alive: set<Obj>) {
    forall k :: 0 <= k < |reg.sinks| && reg.sinks[k].id in reg.pending ==> reg.sinks[k].obj !in alive
  }

  predicate Registered(sinks: seq<SinkInfo>, obj: Obj) {
    exists k :: 0 <= k < |sinks| && sinks[k].obj == obj
  }

  predicate HeldBySome(threads: seq<Thread>, obj: Obj) {
    exists t :: 0 <= t < |threads| && Holds(threads[t], obj)
  }

  /** Every live object is registered or still in its creator's hands; serial numbers are fresh. */
  ghost predicate ObjectInv(s: State) {
    && (forall o :: o in s.alive ==> o.serial < s.next && (Registered(s.reg.sinks, o) || HeldBySome(s.threads, o)))
    && (forall k :: 0 <= k < |s.reg.sinks| ==> s.reg.sinks[k].obj.serial < s.next)
    && (forall t, u, o :: 0 <= t < |s.threads| && 0 <= u < |s.threads| && Holds(s.threads[t], o) && Holds(s.threads[u], o) ==> t == u)
    && (forall t :: 0 <= t < |s.threads| && s.threads[t].Constructed? ==> s.threads[t].obj.id == s.threads[t].id)
    && (forall t :: 0 <= t < |s.threads| && (s.threads[t].Constructed? || s.threads[t].Unwinding?) ==> s.threads[t].obj in s.alive)
  }

  ghost predicate Inv(s: State) {
    && RegistryInv(s.reg)
    && PendingInv(s.reg.pending, s.threads)
    && NoLivePending(s.reg, s.alive)
    && ObjectInv(s)
  }

  /** The lookup finds the live sink of an id if there is one. */
  lemma FindLiveIff(reg: Registry, id: string, alive: set<Obj>, k: nat)
    requires RegistryInv(reg) && k < |reg.sinks| && reg.sinks[k].id == id
    ensures FindLive(reg.sinks, id, alive) == if reg.sinks[k].obj in alive then Some(reg.sinks[k].obj) else None
    ensures LowerBound(Ids(reg.sinks), id) == k
  {
    hide LowerBound, Less;
    FoundIff(Ids(reg.sinks), id);
    assert Ids(reg.sinks)[k] == id;
    LessIrreflexive(id);
  }

  lemma FindLiveNone(reg: Registry, id: string, alive: set<Obj>)
    requires RegistryInv(reg) && FindLive(reg.sinks, id, alive).None?
    ensures forall k :: 0 <= k < |reg.sinks| && reg.sinks[k].id == id ==> reg.sinks[k].obj !in alive
  {
    hide LowerBound, Less, FindLive, RegistryInv;
    forall k | 0 <= k < |reg.sinks| && reg.sinks[k].id == id ensures reg.sinks[k].obj !in alive {
      FindLiveIff(reg, id, alive, k);
    }
  }

  lemma FindLiveMeans(reg: Registry, id: string, alive: set<Obj>)
    requires RegistryInv(reg)
    ensures forall o :: FindLive(reg.sinks, id, alive) == Some(o) <==> LiveAs(reg.sinks, id, o, alive)
  {
    hide LowerBound, Less, Sorted;
    forall o ensures FindLive(reg.sinks, id, alive) == Some(o) <==> LiveAs(reg.sinks, id, o, alive) {
      if LiveAs(reg.sinks, id, o, alive) {
        var k :| 0 <= k < |reg.sinks| && reg.sinks[k] == SinkInfo(id, o);
        FindLiveIff(reg, id, alive, k);
      }
    }
  }

  lemma FoundPending(reg: Registry, id: string)
    requires RegistryInv(reg)
    ensures Found(reg.pending, id) <==> id in reg.pending
  {
    hide Sorted, LowerBound, Found;
    FoundIff(reg.pending, id);
  }

  // ---- Each critical section keeps the vectors sorted ------------------------------------------

  lemma InsertKeepsRegistry(reg: Registry, obj: Obj, alive: set<Obj>)
    requires RegistryInv(reg) && FindLive(reg.sinks, obj.id, alive).None?
    ensures RegistryInv(reg.(sinks := InsertSink(reg.sinks, obj.id, obj, alive)))
  {
    hide LowerBound, Less, Sorted, FindLive;
    var id := obj.id;
    var ids := Ids(reg.sinks);
    var sinks := InsertSink(reg.sinks, id, obj, alive);
    FoundIff(ids, id);
    if Found(ids, id) {
      NotFindLive(reg.sinks, id, alive);
      assert Ids(sinks) == ids;
    } else {
      InsertSorted(ids, id);
      assert Ids(sinks) == Inserted(ids, id);
    }
  }

  lemma NotFindLive(sinks: seq<SinkInfo>, id: string, alive: set<Obj>)
    requires FindLive(sinks, id, alive).None? && Found(Ids(sinks), id)
    ensures sinks[LowerBound(Ids(sinks), id)].obj !in alive
  {
    hide LowerBound;
  }

  /** The new sink is in; the rest stays, except an expired sink of the same id. */
  lemma InsertedMembers(sinks: seq<SinkInfo>, obj: Obj, alive: set<Obj>, x: SinkInfo)
    ensures x in InsertSink(sinks, obj.id, obj, alive) ==> x in sinks || x == SinkInfo(obj.id, obj)
    ensures SinkInfo(obj.id, obj) in InsertSink(sinks, obj.id, obj, alive)
    ensures x in sinks && (x.obj in alive || x.id != obj.id) ==> x in InsertSink(sinks, obj.id, obj, alive)
  {
    hide LowerBound;
    var i := LowerBound(Ids(sinks), obj.id);
    assert sinks == sinks[..i] + sinks[i..];
    if i < |sinks| && sinks[i].id == obj.id && sinks[i].obj !in alive {
      assert sinks[i := SinkInfo(obj.id, obj)][i] == SinkInfo(obj.id, obj);
      if x in sinks && (x.obj in alive || x.id != obj.id) {
        var k :| 0 <= k < |sinks| && sinks[k] == x;
        assert sinks[i := SinkInfo(obj.id, obj)][k] == x;
      }
    }
  }

  /** After a publication the id has one entry, the new one, and every other id the one it had. */
  lemma PublishMeans(reg: Registry, obj: Obj, alive: set<Obj>)
    requires RegistryInv(reg) && forall o :: !LiveAs(reg.sinks, obj.id, o, alive)
    ensures var sinks := InsertSink(reg.sinks, obj.id, obj, alive);
            && RegistryInv(reg.(sinks := sinks)) && SinkInfo(obj.id, obj) in sinks
            && (forall x :: x in sinks && x.id == obj.id ==> x.obj == obj)
            && forall x: SinkInfo :: x.id != obj.id ==> (x in sinks <==> x in reg.sinks)
  {
    hide InsertSink, FindLive, RegistryInv;
    FindLiveMeans(reg, obj.id, alive);
    InsertKeepsRegistry(reg, obj, alive);
    var sinks := InsertSink(reg.sinks, obj.id, obj, alive);
    InsertedMembers(reg.sinks, obj, alive, SinkInfo(obj.id, obj));
    forall x | x in sinks && x.id == obj.id ensures x.obj == obj {
      var i :| 0 <= i < |sinks| && sinks[i] == x;
      var j :| 0 <= j < |sinks| && sinks[j] == SinkInfo(obj.id, obj);
      OneEntryPerId(reg.(sinks := sinks), i, j);
    }
    forall x: SinkInfo | x.id != obj.id ensures x in sinks <==> x in reg.sinks {
      InsertedMembers(reg.sinks, obj, alive, x);
    }
  }

  lemma CleanupMeans(reg: Registry, alive: set<Obj>)
    requires RegistryInv(reg)
    ensures RegistryInv(reg.(sinks := Live(reg.sinks, alive)))
    ensures forall x :: x in Live(reg.sinks, alive) <==> x in reg.sinks && x.obj in alive
  {
    hide Live, Less, Sorted;
    LiveSorted(reg.sinks, alive);
    forall x ensures x in Live(reg.sinks, alive) <==> x in reg.sinks && x.obj in alive {
      LiveMembers(reg.sinks, alive, x);
    }
    var live := Live(reg.sinks, alive);
    forall k | 0 <= k < |live| ensures live[k].obj.id == live[k].id { assert live[k] in reg.sinks; }
  }

  lemma {:induction false} LiveMembers(sinks: seq<SinkInfo>, alive: set<Obj>, x: SinkInfo)
    ensures x in Live(sinks, alive) <==> x in sinks && x.obj in alive
  {
    if sinks == [] {
    } else {
      LiveMembers(sinks[..|sinks| - 1], alive, x);
      assert sinks == sinks[..|sinks| - 1] + [sinks[|sinks| - 1]];
    }
  }

  lemma {:induction false} LiveSorted(sinks: seq<SinkInfo>, alive: set<Obj>)
    requires Sorted(Ids(sinks))
    ensures Sorted(Ids(Live(sinks, alive)))
  {
    hide Less;
    if sinks == [] {
    } else {
      var n := |sinks| - 1;
      assert Ids(sinks[..n]) == Ids(sinks)[..n];
      LiveSorted(sinks[..n], alive);
      var rest := Live(sinks[..n], alive);
      forall k | 0 <= k < |rest| ensures Less(rest[k].id, sinks[n].id) {
        LiveMembers(sinks[..n], alive, rest[k]);
        var j :| 0 <= j < n && sinks[j] == rest[k];
        assert Less(Ids(sinks)[j], Ids(sinks)[n]);
      }
      LiveAppended(rest, sinks[n]);
    }
  }

  lemma LiveAppended(rest: seq<SinkInfo>, x: SinkInfo)
    requires Sorted(Ids(rest)) && forall k :: 0 <= k < |rest| ==> Less(rest[k].id, x.id)
    ensures Sorted(Ids(rest + [x])) && rest + [] == rest
  {
    hide Less;
    var ids := Ids(rest + [x]);
    forall i, j | 0 <= i < j < |ids| ensures Less(ids[i], ids[j]) {
      if j < |rest| { assert Less(Ids(rest)[i], Ids(rest)[j]); }
    }
  }

  // ---- Pending ids and their owners ------------------------------------------------------------

  /** A thread goes on without changing what it owns. */
  lemma OwnerStays(pending: seq<string>, threads: seq<Thread>, t: nat, x: Thread)
    requires PendingInv(pending, threads) && t < |threads|
    requires forall id :: Owns(threads[t], id) == Owns(x, id)
    ensures PendingInv(pending, threads[t := x])
  {
    var next := threads[t := x];
    forall id | id in pending ensures exists u :: 0 <= u < |next| && Owns(next[u], id) {
      var u :| 0 <= u < |threads| && Owns(threads[u], id);
      assert Owns(next[u], id);
    }
    if x.Constructing? || x.Failing? || x.Constructed? { assert Owns(x, x.id) && Owns(threads[t], x.id); }
    forall u, v, id | 0 <= u < |next| && 0 <= v < |next| && Owns(next[u], id) && Owns(next[v], id) ensures u == v {
      assert Owns(threads[u], id) && Owns(threads[v], id);
    }
  }

  lemma OwnerGained(pending: seq<string>, threads: seq<Thread>, t: nat, id: string)
    requires PendingInv(pending, threads) && Sorted(pending) && id !in pending && t < |threads| && threads[t].Waiting?
    ensures PendingInv(Inserted(pending, id), threads[t := Constructing(id)]) && Sorted(Inserted(pending, id))
    ensures forall x :: x in Inserted(pending, id) <==> x in pending || x == id
  {
    hide Inserted, Less, Sorted;
    InsertSorted(pending, id);
    var next := threads[t := Constructing(id)];
    forall x | x in Inserted(pending, id) ensures exists u :: 0 <= u < |next| && Owns(next[u], x) {
      if x == id {
        assert Owns(next[t], id);
      } else {
        var u :| 0 <= u < |threads| && Owns(threads[u], x);
        assert Owns(next[u], x);
      }
    }
    forall u, v, x | 0 <= u < |next| && 0 <= v < |next| && Owns(next[u], x) && Owns(next[v], x) ensures u == v {
      if u != t && v != t { assert Owns(threads[u], x) && Owns(threads[v], x); }
    }
  }

  lemma OwnerLeaves(pending: seq<string>, threads: seq<Thread>, t: nat, id: string, x: Thread)
    requires PendingInv(pending, threads) && Sorted(pending) && t < |threads| && Owns(threads[t], id)
    requires x.Idle? || x.Unwinding?
    ensures PendingInv(Erased(pending, id), threads[t := x]) && Sorted(Erased(pending, id))
    ensures forall y :: y in Erased(pending, id) <==> y in pending && y != id
  {
    hide Erased, Less, Sorted;
    EraseSorted(pending, id);
    var next := threads[t := x];
    forall y | y in Erased(pending, id) ensures exists u :: 0 <= u < |next| && Owns(next[u], y) {
      var u :| 0 <= u < |threads| && Owns(threads[u], y);
      assert Owns(next[u], y);
    }
    forall u | 0 <= u < |next| && (next[u].Constructing? || next[u].Failing? || next[u].Constructed?)
      ensures next[u].id in Erased(pending, id)
    {
      assert Owns(threads[u], next[u].id);
    }
    forall u, v, y | 0 <= u < |next| && 0 <= v < |next| && Owns(next[u], y) && Owns(next[v], y) ensures u == v {
      assert Owns(threads[u], y) && Owns(threads[v], y);
    }
  }

  // ---- Objects ---------------------------------------------------------------------------------

  /** A thread that holds no object before or after leaves the object accounts alone. */
  lemma ObjectsStay(s: State, t: nat, x: Thread, reg: Registry)
    requires ObjectInv(s) && t < |s.threads| && reg.sinks == s.reg.sinks
    requires !s.threads[t].Constructed? && !s.threads[t].Unwinding? && !x.Constructed? && !x.Unwinding?
    ensures ObjectInv(s.(threads := s.threads[t := x], reg := reg))
  {
    var next := s.threads[t := x];
    forall o | o in s.alive ensures Registered(reg.sinks, o) || HeldBySome(next, o) {
      if !Registered(s.reg.sinks, o) {
        var u :| 0 <= u < |s.threads| && Holds(s.threads[u], o);
        assert Holds(next[u], o);
      }
    }
  }

  lemma CallStep(s: State, t: nat, id: string, existing: bool)
    requires Inv(s) && Enabled(s, Call(t, id, existing))
    ensures Inv(Apply(s, Call(t, id, existing)))
  {
    hide RegistryInv, PendingInv, NoLivePending, ObjectInv;
    OwnerStays(s.reg.pending, s.threads, t, Waiting(id, existing));
    ObjectsStay(s, t, Waiting(id, existing), s.reg);
  }

  lemma ReserveStep(s: State, t: nat)
    requires Inv(s) && Enabled(s, Reserve(t))
    ensures Inv(Apply(s, Reserve(t)))
  {
    hide PendingInv, ObjectInv, FindLive, Found, Sorted, Inserted, NoLivePending;
    var id := s.threads[t].id;
    var (reg, outcome) := TryReserve(s.reg, id, s.threads[t].returnExisting, s.alive);
    match outcome
    case Reserved =>
      FoundIff(s.reg.pending, id);
      FindLiveNone(s.reg, id, s.alive);
      OwnerGained(s.reg.pending, s.threads, t, id);
      ObjectsStay(s, t, Constructing(id), reg);
      StillNoLive(s.reg, reg, id, s.alive);
    case Busy =>
    case _ =>
      OwnerStays(s.reg.pending, s.threads, t, Idle);
      ObjectsStay(s, t, Idle, s.reg);
  }

  lemma StillNoLive(reg: Registry, next: Registry, id: string, alive: set<Obj>)
    requires NoLivePending(reg, alive) && next.sinks == reg.sinks
    requires forall x :: x in next.pending ==> x in reg.pending || x == id
    requires forall k :: 0 <= k < |reg.sinks| && reg.sinks[k].id == id ==> reg.sinks[k].obj !in alive
    ensures NoLivePending(next, alive)
  {}

  lemma ConstructStep(s: State, t: nat)
    requires Inv(s) && Enabled(s, Construct(t))
    ensures Inv(Apply(s, Construct(t)))
  {
    hide RegistryInv, PendingInv;
    var obj := Obj(s.next, s.threads[t].id);
    var n := Apply(s, Construct(t));
    OwnerStays(s.reg.pending, s.threads, t, n.threads[t]);
    assert Holds(n.threads[t], obj);
    forall o | o in n.alive && o != obj ensures Registered(n.reg.sinks, o) || HeldBySome(n.threads, o) {
      if !Registered(s.reg.sinks, o) {
        var u :| 0 <= u < |s.threads| && Holds(s.threads[u], o);
        assert Holds(n.threads[u], o);
      }
    }
  }

  lemma FailStep(s: State, t: nat)
    requires Inv(s) && Enabled(s, ConstructFails(t))
    ensures Inv(Apply(s, ConstructFails(t)))
  {
    hide RegistryInv, PendingInv, NoLivePending, ObjectInv;
    OwnerStays(s.reg.pending, s.threads, t, Failing(s.threads[t].id));
    ObjectsStay(s, t, Failing(s.threads[t].id), s.reg);
  }

  lemma AbandonStep(s: State, t: nat)
    requires Inv(s) && Enabled(s, Abandon(t))
    ensures Inv(Apply(s, Abandon(t)))
  {
    hide PendingInv, ObjectInv, Erased, Sorted;
    OwnerLeaves(s.reg.pending, s.threads, t, s.threads[t].id, Idle);
    ObjectsStay(s, t, Idle, RemovePending(s.reg, s.threads[t].id));
  }

  /** While a thread holds a reservation, the lookup for its id fails. */
  lemma ReservedNotLive(s: State, t: nat)
    requires Inv(s) && t < |s.threads| && s.threads[t].Constructed?
    ensures s.threads[t].id in s.reg.pending && FindLive(s.reg.sinks, s.threads[t].id, s.alive).None?
    ensures s.threads[t].obj in s.alive && s.threads[t].obj.id == s.threads[t].id
  {
    hide LowerBound, RegistryInv;
    assert Owns(s.threads[t], s.threads[t].id);
  }

  lemma PublishStep(s: State, t: nat)
    requires Inv(s) && Enabled(s, PublishSink(t))
    ensures Inv(Apply(s, PublishSink(t)))
  {
    hide PendingInv, Erased, Sorted, InsertSink, FindLive, ObjectInv;
    var id, obj := s.threads[t].id, s.threads[t].obj;
    ReservedNotLive(s, t);
    OwnerLeaves(s.reg.pending, s.threads, t, id, Idle);
    InsertKeepsRegistry(s.reg, obj, s.alive);
    PublishedObjects(s, t);
    var n := Apply(s, PublishSink(t));
    forall k | 0 <= k < |n.reg.sinks| && n.reg.sinks[k].id in n.reg.pending ensures n.reg.sinks[k].obj !in s.alive {
      InsertedMembers(s.reg.sinks, obj, s.alive, n.reg.sinks[k]);
    }
  }

  lemma PublishedObjects(s: State, t: nat)
    requires ObjectInv(s) && Enabled(s, PublishSink(t)) && s.threads[t].obj.id == s.threads[t].id
    ensures ObjectInv(Apply(s, PublishSink(t)))
  {
    hide Erased, InsertSink;
    var obj := s.threads[t].obj;
    var n := Apply(s, PublishSink(t));
    InsertedMembers(s.reg.sinks, obj, s.alive, SinkInfo(obj.id, obj));
    forall o | o in s.alive ensures Registered(n.reg.sinks, o) || HeldBySome(n.threads, o) {
      if o != obj {
        if Registered(s.reg.sinks, o) {
          var k :| 0 <= k < |s.reg.sinks| && s.reg.sinks[k].obj == o;
          InsertedMembers(s.reg.sinks, obj, s.alive, s.reg.sinks[k]);
          assert s.reg.sinks[k] in n.reg.sinks;
        } else {
          var u :| 0 <= u < |s.threads| && Holds(s.threads[u], o);
          assert Holds(n.threads[u], o);
        }
      }
    }
    forall k | 0 <= k < |n.reg.sinks| ensures n.reg.sinks[k].obj.serial < s.next {
      InsertedMembers(s.reg.sinks, obj, s.alive, n.reg.sinks[k]);
    }
  }

  lemma PublishFailsStep(s: State, t: nat)
    requires Inv(s) && Enabled(s, PublishFails(t))
    ensures Inv(Apply(s, PublishFails(t)))
  {
    hide PendingInv, Erased, Sorted, Found;
    var id, obj := s.threads[t].id, s.threads[t].obj;
    OwnerLeaves(s.reg.pending, s.threads, t, id, Unwinding(obj));
    var n := Apply(s, PublishFails(t));
    forall o | o in s.alive ensures Registered(n.reg.sinks, o) || HeldBySome(n.threads, o) {
      if !Registered(s.reg.sinks, o) {
        var u :| 0 <= u < |s.threads| && Holds(s.threads[u], o);
        assert Holds(n.threads[u], o);
      }
    }
  }

  /** An object goes away once no creator holds it any more. */
  lemma DeadObject(s: State, threads: seq<Thread>, obj: Obj)
    requires ObjectInv(s) && |threads| == |s.threads|
    requires forall u :: 0 <= u < |threads| ==> threads[u] == s.threads[u] || (Holds(s.threads[u], obj) && threads[u].Idle?)
    requires forall u :: 0 <= u < |threads| ==> !Holds(threads[u], obj)
    ensures ObjectInv(s.(threads := threads, alive := s.alive - {obj}))
  {
    forall o | o in s.alive && o != obj ensures Registered(s.reg.sinks, o) || HeldBySome(threads, o) {
      if !Registered(s.reg.sinks, o) {
        var u :| 0 <= u < |s.threads| && Holds(s.threads[u], o);
        assert Holds(threads[u], o);
      }
    }
  }

  lemma CleanupStep(s: State)
    requires Inv(s)
    ensures Inv(Apply(s, Cleanup))
  {
    hide PendingInv, Sorted, Live;
    var n := Apply(s, Cleanup);
    LiveSorted(s.reg.sinks, s.alive);
    forall k | 0 <= k < |n.reg.sinks| ensures n.reg.sinks[k] in s.reg.sinks { LiveMembers(s.reg.sinks, s.alive, n.reg.sinks[k]); }
    forall o | o in s.alive ensures Registered(n.reg.sinks, o) || HeldBySome(n.threads, o) {
      if Registered(s.reg.sinks, o) {
        var k :| 0 <= k < |s.reg.sinks| && s.reg.sinks[k].obj == o;
        LiveMembers(s.reg.sinks, s.alive, s.reg.sinks[k]);
        assert s.reg.sinks[k] in n.reg.sinks;
      }
    }
  }

  lemma UnwindStep(s: State, t: nat)
    requires Inv(s) && Enabled(s, Unwind(t))
    ensures Inv(Apply(s, Unwind(t)))
  {
    hide RegistryInv, PendingInv, ObjectInv;
    var obj := s.threads[t].obj;
    OwnerStays(s.reg.pending, s.threads, t, Idle);
    HeldByOne(s, t, obj);
    DeadObject(s, s.threads[t := Idle], obj);
  }

  lemma HeldByOne(s: State, t: nat, obj: Obj)
    requires ObjectInv(s) && t < |s.threads| && Holds(s.threads[t], obj)
    ensures forall u :: 0 <= u < |s.threads| && u != t ==> !Holds(s.threads[u], obj)
  {
    hide Registered, HeldBySome;
  }

  lemma ExpireStep(s: State, obj: Obj)
    requires Inv(s) && Enabled(s, Expire(obj))
    ensures Inv(Apply(s, Expire(obj)))
  {
    hide RegistryInv, PendingInv, ObjectInv;
    DeadObject(s, s.threads, obj);
  }

  lemma StepKeepsInv(s: State, step: Step)
    requires Inv(s) && Enabled(s, step)
    ensures Inv(Apply(s, step))
  {
    hide Inv, Apply, Enabled;
    match step
    case Call(t, id, existing) => CallStep(s, t, id, existing);
    case Reserve(t) => ReserveStep(s, t);
    case Construct(t) => ConstructStep(s, t);
    case ConstructFails(t) => FailStep(s, t);
    case Abandon(t) => AbandonStep(s, t);
    case PublishSink(t) => PublishStep(s, t);
    case PublishFails(t) => PublishFailsStep(s, t);
    case Unwind(t) => UnwindStep(s, t);
    case Expire(obj) => ExpireStep(s, obj);
    case Cleanup => CleanupStep(s);
  }

  ghost predicate IsRun(threads: nat, run: seq<State>, steps: seq<Step>) {
    && |run| == |steps| + 1
    && run[0] == Start(threads)
    && forall i :: 0 <= i < |steps| ==> Enabled(run[i], steps[i]) && run[i + 1] == Apply(run[i], steps[i])
  }

  lemma {:induction false} RunInv(threads: nat, run: seq<State>, steps: seq<Step>, n: nat)
    requires IsRun(threads, run, steps) && n < |run|
    ensures Inv(run[n])
    decreases n
  {
    hide Inv, Apply, Enabled, Start;
    if n == 0 {
      StartInv(threads);
    } else {
      RunInv(threads, run, steps, n - 1);
      StepKeepsInv(run[n - 1], steps[n - 1]);
    }
  }

  lemma StartInv(threads: nat)
    ensures Inv(Start(threads))
  {}

  /** On its way out after a failed publication. */
  predicate Discarded(threads: seq<Thread>, obj: Obj) {
    exists t :: 0 <= t < |threads| && threads[t] == Unwinding(obj)
  }

  /** Two live objects made for one id are the same, unless one is being thrown away after a failed publication. */
  lemma OneLivePerId(s: State, a: Obj, b: Obj)
    requires Inv(s) && a in s.alive && b in s.alive && a.id == b.id
    requires !Discarded(s.threads, a) && !Discarded(s.threads, b)
    ensures a == b
  {
    hide Sorted, LowerBound;
    LiveOwner(s, a);
    LiveOwner(s, b);
    if Registered(s.reg.sinks, a) && Registered(s.reg.sinks, b) {
      var i :| 0 <= i < |s.reg.sinks| && s.reg.sinks[i].obj == a;
      var j :| 0 <= j < |s.reg.sinks| && s.reg.sinks[j].obj == b;
      OneEntryPerId(s.reg, i, j);
    }
  }

  /** A live object is either registered, with its id not pending, or under construction, with its id pending. */
  lemma LiveOwner(s: State, o: Obj)
    requires Inv(s) && o in s.alive
    requires !Discarded(s.threads, o)
    ensures Registered(s.reg.sinks, o) ==> o.id !in s.reg.pending
    ensures !Registered(s.reg.sinks, o) ==>
              exists t :: 0 <= t < |s.threads| && s.threads[t] == Constructed(o.id, o) && Owns(s.threads[t], o.id)
    ensures !Registered(s.reg.sinks, o) ==> o.id in s.reg.pending
  {
    hide Sorted;
    if !Registered(s.reg.sinks, o) {
      var t :| 0 <= t < |s.threads| && Holds(s.threads[t], o);
      assert s.threads[t] != Unwinding(o);
      assert s.threads[t] == Constructed(o.id, o) && Owns(s.threads[t], o.id);
    }
  }

  lemma OneEntryPerId(reg: Registry, i: nat, j: nat)
    requires RegistryInv(reg) && i < |reg.sinks| && j < |reg.sinks| && reg.sinks[i].id == reg.sinks[j].id
    ensures i == j
  {
    hide Less, LowerBound;
    var ids := Ids(reg.sinks);
    LessIrreflexive(ids[i]);
  }

  /**
   Over every interleaving of creating, failing, publishing, expiring and cleaning up: the ids stay
   strictly sorted; an id is pending exactly while one thread constructs its sink, and then has no
   live registered sink; and an id never has two live sinks, apart from an object being unwound.
   */
  lemma EveryRunIsSafe(threads: nat, run: seq<State>, steps: seq<Step>, n: nat)
    requires IsRun(threads, run, steps) && n < |run|
    ensures var s := run[n];
            && Sorted(Ids(s.reg.sinks)) && Sorted(s.reg.pending)
            && (forall id :: id in s.reg.pending <==> exists t :: 0 <= t < |s.threads| && Owns(s.threads[t], id))
            && (forall t, u, id :: 0 <= t < |s.threads| && 0 <= u < |s.threads| && Owns(s.threads[t], id) && Owns(s.threads[u], id) ==> t == u)
            && (forall k :: 0 <= k < |s.reg.sinks| && s.reg.sinks[k].id in s.reg.pending ==> s.reg.sinks[k].obj !in s.alive)
            && (forall a, b :: a in s.alive && b in s.alive && a.id == b.id && !Discarded(s.threads, a) && !Discarded(s.threads, b) ==> a == b)
  {
    hide Sorted, ObjectInv, IsRun, Less;
    RunInv(threads, run, steps, n);
    var s := run[n];
    forall a, b | a in s.alive && b in s.alive && a.id == b.id && !Discarded(s.threads, a) && !Discarded(s.threads, b)
      ensures a == b
    {
      OneLivePerId(s, a, b);
    }
  }

  /** The exception is real: after a failed publication the old object can still be alive beside its successor. */
  lemma DiscardedCanCoexist() returns (run: seq<State>, steps: seq<Step>)
    ensures IsRun(2, run, steps)
    ensures exists a, b :: a in run[|run| - 1].alive && b in run[|run| - 1].alive && a != b && a.id == b.id
  {
    hide Apply, Enabled;
    var a, b := Obj(0, "a"), Obj(1, "a");
    var none, pending := Registry([], []), Registry([], ["a"]);
    var s0 := State(none, [Idle, Idle], {}, 0);
    var s1 := State(none, [Waiting("a", false), Idle], {}, 0);
    var s2 := State(pending, [Constructing("a"), Idle], {}, 0);
    var s3 := State(pending, [Constructed("a", a), Idle], {a}, 1);
    var s4 := State(none, [Unwinding(a), Idle], {a}, 1);
    var s5 := State(none, [Unwinding(a), Waiting("a", false)], {a}, 1);
    var s6 := State(pending, [Unwinding(a), Constructing("a")], {a}, 1);
    var s7 := State(pending, [Unwinding(a), Constructed("a", b)], {a, b}, 2);
    steps := [Call(0, "a", false), Reserve(0), Construct(0), PublishFails(0), Call(1, "a", false), Reserve(1), Construct(1)];
    run := [s0, s1, s2, s3, s4, s5, s6, s7];
    assert seq(2, _ => Idle) == [Idle, Idle];
    Goes(s0, steps[0], s1);
    ReservesFirst(s1, 0, s2);
    Goes(s2, steps[2], s3);
    FailsToPublish(s3, 0, s4);
    Goes(s4, steps[4], s5);
    ReservesFirst(s5, 1, s6);
    Goes(s6, steps[6], s7);
    assert a in s7.alive && b in s7.alive && a != b;
  }

  lemma Goes(s: State, step: Step, t: State)
    requires step.Call? || step.Construct?
    requires step.t < |s.threads| && (if step.Call? then s.threads[step.t].Idle? else s.threads[step.t].Constructing?)
    requires t == if step.Call? then s.(threads := s.threads[step.t := Waiting(step.id, step.returnExisting)])
                  else s.(threads := s.threads[step.t := Constructed(s.threads[step.t].id, Obj(s.next, s.threads[step.t].id))],
                          alive := s.alive + {Obj(s.next, s.threads[step.t].id)}, next := s.next + 1)
    ensures Enabled(s, step) && Apply(s, step) == t
  {}

  lemma ReservesFirst(s: State, u: nat, t: State)
    requires u < |s.threads| && s.threads[u] == Waiting("a", false) && s.reg == Registry([], [])
    requires t == s.(reg := Registry([], ["a"]), threads := s.threads[u := Constructing("a")])
    ensures Enabled(s, Reserve(u)) && Apply(s, Reserve(u)) == t
  {
    assert Ids([]) == [];
    assert Inserted([], "a") == ["a"];
  }

  lemma FailsToPublish(s: State, u: nat, t: State)
    requires u < |s.threads| && s.threads[u].Constructed? && s.threads[u].id == "a" && s.reg == Registry([], ["a"])
    requires t == s.(reg := Registry([], []), threads := s.threads[u := Unwinding(s.threads[u].obj)])
    ensures Enabled(s, PublishFails(u)) && Apply(s, PublishFails(u)) == t
  {
    assert Ids([]) == [];
    LessIrreflexive("a");
    assert Erased(["a"], "a") == [];
  }
}
