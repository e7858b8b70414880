/**
 The growing ring of quill/include/quill/backend/TransitEventBuffer.h as an object that is proved
 to be a plain sequence of events, together with the limit checks of BackendWorker that bound it.
 */
module TransitBuffer {
  import opened Containers
  import opened Bits

  /** A vector element: freshly constructed, moved from, or holding an event's fields. */
  datatype Slot<+T> = Blank | MovedFrom | Event(event: T)

  const WORD: nat := 0x1_0000_0000_0000_0000
  /** No vector of this element type has more slots than 2^62. */
  const MAX_SLOT_BITS: nat := 62

  /** `(pos + i) & mask`, on an unbounded position. */
  function SlotOf(pos: nat, i: nat, capBits: nat): (s: nat)
    ensures s < Pow2(capBits)
  {
    Mod(pos + i, Pow2(capBits))
  }

  /** Incrementing a 64-bit position. */
  function Next(pos: nat): nat { Mod(pos + 1, WORD) }

  lemma NextWrapped(pos: nat)
    ensures Next(Mod(pos, WORD)) == Mod(pos + 1, WORD)
  {
    WrapAdd(pos, 1, WORD);
  }

  lemma SlotMasked(pos: nat, i: nat, capBits: nat)
    requires capBits <= 63
    ensures SlotOf(pos + i, 0, capBits) == SlotOf(pos, i, capBits)
    ensures BitAnd(Mod(Mod(pos, WORD) + i, WORD), Pow2(capBits) - 1) == SlotOf(pos, i, capBits)
  {
    WordConstants();
    WrapAdd(pos, i, WORD);
    MaskWrapped(pos + i, capBits, 64);
  }

  lemma {:induction false} SlotsDistinct(pos: nat, i: nat, j: nat, capBits: nat)
    requires i < j < Pow2(capBits) || j < i < Pow2(capBits)
    ensures SlotOf(pos, i, capBits) != SlotOf(pos, j, capBits)
  {
    if i < j { WrapEq(pos + j, pos + i, Pow2(capBits)); } else { WrapEq(pos + i, pos + j, Pow2(capBits)); }
  }

  lemma SlotShift(pos: nat, i: nat, capBits: nat)
    ensures SlotOf(pos + 1, i, capBits) == SlotOf(pos, i + 1, capBits)
  {
    assert pos + 1 + i == pos + (i + 1);
  }

  /** The slots from a position hold exactly these events, in order. */
  ghost predicate Holds<T>(storage: seq<Slot<T>>, pos: nat, capBits: nat, events: seq<T>) {
    && |storage| == Pow2(capBits)
    && |events| <= Pow2(capBits)
    && forall i :: 0 <= i < |events| ==> storage[SlotOf(pos, i, capBits)] == Event(events[i])
  }

  lemma HoldsTail<T>(storage: seq<Slot<T>>, pos: nat, capBits: nat, events: seq<T>)
    requires Holds(storage, pos, capBits, events) && events != []
    ensures Holds(storage, pos + 1, capBits, events[1..])
  {
    hide SlotOf;
    forall i | 0 <= i < |events| - 1 ensures storage[SlotOf(pos + 1, i, capBits)] == Event(events[1..][i]) {
      SlotShift(pos, i, capBits);
      assert storage[SlotOf(pos, i + 1, capBits)] == Event(events[i + 1]);
    }
  }

  lemma HoldsAppend<T>(storage: seq<Slot<T>>, pos: nat, capBits: nat, events: seq<T>, e: T)
    requires Holds(storage, pos, capBits, events) && |events| < Pow2(capBits)
    requires storage[SlotOf(pos, |events|, capBits)] == Event(e)
    ensures Holds(storage, pos, capBits, events + [e])
  {
    hide SlotOf;
  }

  /** Writing the free slot behind the events leaves them alone. */
  lemma HoldsWrite<T>(storage: seq<Slot<T>>, pos: nat, capBits: nat, events: seq<T>, s: Slot<T>)
    requires Holds(storage, pos, capBits, events) && |events| < Pow2(capBits)
    ensures Holds(storage[SlotOf(pos, |events|, capBits) := s], pos, capBits, events)
  {
    hide SlotOf;
    var storage' := storage[SlotOf(pos, |events|, capBits) := s];
    forall i | 0 <= i < |events| ensures storage'[SlotOf(pos, i, capBits)] == Event(events[i]) {
      SlotsDistinct(pos, i, |events|, capBits);
    }
  }

  class TransitEventBuffer<T(==)> {
    const initialCapacity: nat
    var mask: nat
    var readerPos: nat
    var writerPos: nat
    var shrinkRequested: bool
    var storage: array<Slot<T>>
    ghost var contents: seq<T>   // the cached events, oldest first
    ghost var start: nat         // the reader position without wrap-around
    ghost var capBits: nat
    ghost const initialBits: nat

    ghost predicate Positions()
      reads this
    {
      && initialCapacity == Pow2(initialBits) && initialBits <= capBits <= MAX_SLOT_BITS
      && mask == Pow2(capBits) - 1
      && readerPos == Mod(start, WORD) && writerPos == Mod(start + |contents|, WORD)
    }

    ghost predicate Valid()
      reads this, storage
    {
      && Positions()
      && Holds(storage[..], start, capBits, contents)
    }

    constructor (initial: nat)
      requires initial <= Pow2(MAX_SLOT_BITS)
      ensures Valid() && fresh(storage) && contents == [] && !shrinkRequested
      ensures capBits == initialBits && initial <= initialCapacity
      ensures forall j: nat :: initial <= Pow2(j) ==> initialCapacity <= Pow2(j)
    {
      hide BitAnd, Mod, Pow2;
      MaxSlots();
      var capacity;
      ghost var k;
      capacity, k := NextPowerOfTwo(initial);
      Pow2Order(k, MAX_SLOT_BITS);
      initialCapacity, mask := capacity, capacity - 1;
      readerPos, writerPos, shrinkRequested := 0, 0, false;
      storage := new Slot<T>[capacity](_ => Blank);
      contents, start, capBits, initialBits := [], 0, k, k;
      new;
      ModSmall(0);
    }

    /** The number of cached events, by unsigned subtraction of the positions. */
    method Size() returns (n: nat)
      requires Valid()
      ensures n == |contents|
    {
      hide Mod, BitAnd;
      SizeExact(start, |contents|, capBits);
      n := SubMod(writerPos, readerPos, WORD);
    }

    method Empty() returns (r: bool)
      requires Valid()
      ensures r <==> contents == []
    {
      hide Mod, BitAnd;
      SizeExact(start, |contents|, capBits);
      r := readerPos == writerPos;
    }

    /** front: the oldest event, or null. */
    method Front() returns (r: Option<T>)
      requires Valid()
      ensures r == if contents == [] then None else Some(contents[0])
    {
      hide Mod, BitAnd, Pow2, SlotOf;
      SizeExact(start, |contents|, capBits);
      if readerPos == writerPos { return None; }
      BackSlot(start, 0, readerPos, mask, capBits);
      assert storage[..][SlotOf(start, 0, capBits)] == Event(contents[0]);
      var i := BitAnd(readerPos, mask);
      r := Some(storage[i].event);
    }

    method PopFront()
      requires Valid() && contents != []
      modifies this
      ensures Valid() && contents == old(contents)[1..]
      ensures storage == old(storage) && capBits == old(capBits) && shrinkRequested == old(shrinkRequested)
    {
      hide Mod, BitAnd, Pow2, SlotOf, Holds, Next;
      NextWrapped(start);
      HoldsTail(storage[..], start, capBits, contents);
      readerPos := Next(readerPos);
      start, contents := start + 1, contents[1..];
    }

    /**
     back: the slot behind the events, after doubling the storage when it is full. A failed
     allocation, before or after the elements were moved, leaves the buffer as it was.
     */
    method Back(reserveFails: bool, resizeFails: bool) returns (r: Option<nat>)
      requires Valid()
      modifies this, storage
      ensures Valid() && contents == old(contents) && shrinkRequested == old(shrinkRequested)
      ensures storage == old(storage) || fresh(storage)
      ensures r.None? ==> capBits == old(capBits) && |contents| == Pow2(capBits)
      ensures r.None? <==> old(|contents|) == Pow2(old(capBits)) && (reserveFails || resizeFails || old(capBits) == MAX_SLOT_BITS)
      ensures r.Some? ==> |contents| < Pow2(capBits) && r.value == SlotOf(start, |contents|, capBits)
      ensures capBits == (if r.Some? && old(|contents|) == Pow2(old(capBits)) then old(capBits) + 1 else old(capBits))
    {
      hide Mod, BitAnd, Pow2, SlotOf, Holds;
      HoldsLength(storage[..], start, capBits, contents);
      Doubled(capBits);
      var n := Size();
      if storage.Length == n {
        var ok := Expand(reserveFails, resizeFails);
        if !ok { return None; }
      }
      BackSlot(start, |contents|, writerPos, mask, capBits);
      r := Some(BitAnd(writerPos, mask));
    }

    /** Filling in the fields of the slot handed out by back. */
    method Write(index: nat, e: T)
      requires Valid() && |contents| < Pow2(capBits) && index == SlotOf(start, |contents|, capBits)
      modifies storage
      ensures Valid() && index < storage.Length && storage[index] == Event(e)
    {
      hide Mod, BitAnd, Pow2, SlotOf, Holds;
      HoldsLength(storage[..], start, capBits, contents);
      HoldsWrite(storage[..], start, capBits, contents, Event(e));
      ghost var before := storage[..];
      storage[index] := Event(e);
      assert storage[..] == before[index := Event(e)];
    }

    /** push_back: the slot just written becomes the newest event. */
    method PushBack(ghost e: T)
      requires Valid() && |contents| < Pow2(capBits) && storage.Length == Pow2(capBits)
      requires storage[SlotOf(start, |contents|, capBits)] == Event(e)
      modifies this
      ensures Valid() && contents == old(contents) + [e]
      ensures storage == old(storage) && capBits == old(capBits) && start == old(start)
      ensures shrinkRequested == old(shrinkRequested)
    {
      hide Mod, BitAnd, Pow2, SlotOf, Holds, Next;
      HoldsAppend(storage[..], start, capBits, contents, e);
      NextWrapped(start + |contents|);
      writerPos := Next(writerPos);
      contents := contents + [e];
    }

    method RequestShrink()
      requires Valid()
      modifies this
      ensures Valid() && shrinkRequested && contents == old(contents) && capBits == old(capBits)
      ensures storage == old(storage)
    {
      shrinkRequested := true;
    }

    /** try_shrink: only an empty buffer returns to its initial capacity; the request is then consumed. */
    method TryShrink()
      requires Valid()
      modifies this
      ensures Valid() && contents == old(contents)
      ensures storage == old(storage) || fresh(storage)
      ensures old(shrinkRequested) && contents == [] ==> capBits == initialBits && !shrinkRequested
      ensures !old(shrinkRequested) || contents != [] ==> capBits == old(capBits) && shrinkRequested == old(shrinkRequested)
    {
      hide Mod, BitAnd, Pow2, SlotOf, Holds;
      HoldsLength(storage[..], start, capBits, contents);
      Pow2Order(capBits, initialBits);
      var empty := Empty();
      if shrinkRequested && empty {
        if storage.Length > initialCapacity {
          storage := new Slot<T>[initialCapacity](_ => Blank);
          mask, writerPos, readerPos := initialCapacity - 1, 0, 0;
          start, capBits := 0, initialBits;
          ModSmall(0);
          HoldsNothing(storage[..], capBits);
        }
        shrinkRequested := false;
      }
    }

    /** The loop of _expand that moves every element out of a full buffer. */
    method MoveOut(dst: array<Slot<T>>)
      requires Valid() && |contents| == Pow2(capBits) && dst != storage && dst.Length >= |contents|
      modifies storage, dst
      ensures forall i :: 0 <= i < |contents| ==> dst[i] == Event(contents[i])
    {
      hide Mod, BitAnd, Pow2, SlotOf;
      for i := 0 to storage.Length
        invariant forall j :: 0 <= j < i ==> dst[j] == Event(contents[j])
        invariant forall j :: i <= j < |contents| ==> storage[SlotOf(start, j, capBits)] == Event(contents[j])
      {
        ElementSlot(start, i, readerPos, mask, capBits);
        OthersDistinct(start, i, capBits);
        var index := BitAnd(Mod(readerPos + i, WORD), mask);
        dst[i] := storage[index];
        storage[index] := MovedFrom;
      }
    }

    /** The recovery loop of _expand that moves every element back. */
    method MoveBack(src: array<Slot<T>>)
      requires Positions() && |contents| == Pow2(capBits) == storage.Length && src != storage && src.Length >= |contents|
      requires forall i :: 0 <= i < |contents| ==> src[i] == Event(contents[i])
      modifies storage
      ensures Valid()
    {
      hide Mod, BitAnd, Pow2, SlotOf;
      for i := 0 to storage.Length
        invariant forall j :: 0 <= j < i ==> storage[SlotOf(start, j, capBits)] == Event(contents[j])
      {
        ElementSlot(start, i, readerPos, mask, capBits);
        OthersDistinct(start, i, capBits);
        storage[BitAnd(Mod(readerPos + i, WORD), mask)] := src[i];
      }
    }

    /** _expand: moves the events in order to the front of storage of twice the size. */
    method Expand(reserveFails: bool, resizeFails: bool) returns (ok: bool)
      requires Valid() && |contents| == Pow2(capBits)
      modifies this, storage
      ensures Valid() && contents == old(contents) && shrinkRequested == old(shrinkRequested)
      ensures storage == old(storage) || fresh(storage)
      ensures ok == !(reserveFails || resizeFails || old(capBits) == MAX_SLOT_BITS)
      ensures capBits == if ok then old(capBits) + 1 else old(capBits)
    {
      hide Mod, BitAnd, Pow2, SlotOf, Next, Holds;
      HoldsLength(storage[..], start, capBits, contents);
      Pow2Order(MAX_SLOT_BITS, capBits);
      Doubled(capBits);
      if reserveFails || storage.Length >= Pow2(MAX_SLOT_BITS) { return false; }
      var capacity := storage.Length;
      var newStorage := new Slot<T>[2 * capacity](_ => Blank);
      MoveOut(newStorage);
      if resizeFails {
        MoveBack(newStorage);
        return false;
      }
      storage := newStorage;
      mask, writerPos, readerPos := 2 * capacity - 1, capacity, 0;
      start, capBits := 0, capBits + 1;
      WordCapacity(capBits - 1);
      MovedHolds(storage[..], capBits, contents);
      ok := true;
    }
  }

  // ---- The limits of the backend -----------------------------------------------------------------

  /** The transit buffer checks of validate_options, with zero limits read as one. */
  method ValidateLimits(softLimit: nat, hardLimit: nat, initial: nat) returns (ok: bool, ghost hardBits: nat)
    requires softLimit <= SIZE_MAX && hardLimit <= SIZE_MAX && initial <= SIZE_MAX
    ensures ok ==> AtLeastOne(hardLimit) == Pow2(hardBits) && AtLeastOne(softLimit) <= Pow2(hardBits)
    ensures ok ==> exists j: nat :: initial <= Pow2(j) && j <= hardBits
    ensures !ok ==>
              || AtLeastOne(softLimit) > AtLeastOne(hardLimit)
              || (forall k: nat :: AtLeastOne(hardLimit) != Pow2(k))
              || (forall j: nat :: initial <= Pow2(j) ==> AtLeastOne(hardLimit) < Pow2(j))
  {
    hide BitAnd, Pow2;
    hardBits := 0;
    var soft, hard := AtLeastOne(softLimit), AtLeastOne(hardLimit);
    if soft > hard { return false, 0; }
    PowerOfTwoIff(hard);
    if !IsPowerOfTwo(hard) { return false, 0; }
    hardBits := PowerOfTwoExponent(hard);
    var rounded;
    ghost var k;
    rounded, k := NextPowerOfTwo(initial);
    WordConstants();
    Pow2Order(hardBits, 64);
    Pow2Order(k, hardBits);
    if initial > hard || rounded > hard {
      forall j: nat | initial <= Pow2(j) ensures hard < Pow2(j) { Pow2Order(hardBits, 63); }
      return false, hardBits;
    }
    ok := true;
  }

  /** A limit of zero is read as one. */
  function AtLeastOne(n: nat): (r: nat)
    ensures 1 <= r && n <= r && (r == n || r == 1)
  {
    if n == 0 then 1 else n
  }

  /** What a record found in a frontend queue is: an event, a control record, or one held back by the cutoff. */
  datatype Found<+T> = Cached(event: T) | Control | HeldBack

  /** One turn of the read loop: the record it finds, its size, and how the allocations of `back` go. */
  datatype Attempt<+T> = Attempt(found: Found<T>, bytes: nat, reserveFails: bool, resizeFails: bool)

  function CachedOf<T>(attempts: seq<Attempt<T>>): seq<T> {
    if attempts == [] then []
    else CachedOf(attempts[..|attempts| - 1]) +
         (match attempts[|attempts| - 1].found case Cached(e) => [e] case _ => [])
  }

  function BytesOf<T>(attempts: seq<Attempt<T>>): nat {
    if attempts == [] then 0 else BytesOf(attempts[..|attempts| - 1]) + attempts[|attempts| - 1].bytes
  }

  lemma NextAttempt<T>(attempts: seq<Attempt<T>>, i: nat)
    requires i < |attempts|
    ensures BytesOf(attempts[..i + 1]) == BytesOf(attempts[..i]) + attempts[i].bytes
    ensures CachedOf(attempts[..i + 1]) == CachedOf(attempts[..i]) + match attempts[i].found case Cached(e) => [e] case _ => []
  {
    assert attempts[..i + 1][..i] == attempts[..i];
  }

  /** One turn: `back`, then the decoding, then `push_back` for an event. */
  method TakeOne<T>(buffer: TransitEventBuffer<T>, attempt: Attempt<T>, ghost hardBits: nat) returns (taken: bool)
    requires buffer.Valid() && buffer.capBits <= hardBits && |buffer.contents| < Pow2(hardBits)
    modifies buffer, buffer.storage
    ensures buffer.Valid() && buffer.capBits <= hardBits
    ensures buffer.storage == old(buffer.storage) || fresh(buffer.storage)
    ensures buffer.contents == old(buffer.contents) + (if taken && attempt.found.Cached? then [attempt.found.event] else [])
    ensures attempt.found.HeldBack? ==> !taken
    ensures !taken ==>
              || attempt.found.HeldBack?
              || (|buffer.contents| == Pow2(buffer.capBits) &&
                  (attempt.reserveFails || attempt.resizeFails || buffer.capBits == MAX_SLOT_BITS))
  {
    hide Mod, BitAnd, Pow2, SlotOf, Holds;
    Pow2Order(hardBits, buffer.capBits);
    var slot := buffer.Back(attempt.reserveFails, attempt.resizeFails);
    if slot.None? || attempt.found.HeldBack? { return false; }
    if attempt.found.Cached? {
      var e := attempt.found.event;
      buffer.Write(slot.value, e);
      HoldsLength(buffer.storage[..], buffer.start, buffer.capBits, buffer.contents);
      buffer.PushBack(e);
    }
    taken := true;
  }

  /**
   The read loop of one frontend queue, which takes at most one queue capacity of bytes, with failing
   allocations: the records consumed append exactly their events, and neither the size nor the
   capacity passes the hard limit. It stops only at a limit, at a record held back, at a failed
   allocation for a full buffer, or when nothing is left.
   */
  method ReadLoop<T>(buffer: TransitEventBuffer<T>, attempts: seq<Attempt<T>>, queueCapacity: nat, hard: nat, ghost hardBits: nat)
    returns (consumed: nat)
    requires hard == Pow2(hardBits)
    requires buffer.Valid() && buffer.capBits <= hardBits && |buffer.contents| <= Pow2(hardBits)
    modifies buffer, buffer.storage
    ensures buffer.Valid() && buffer.capBits <= hardBits && |buffer.contents| <= Pow2(hardBits)
    ensures buffer.storage == old(buffer.storage) || fresh(buffer.storage)
    ensures consumed <= |attempts| && forall i :: 0 <= i < consumed ==> !attempts[i].found.HeldBack?
    ensures buffer.contents == old(buffer.contents) + CachedOf(attempts[..consumed])
    ensures consumed > 0 ==> BytesOf(attempts[..consumed - 1]) < queueCapacity
    ensures consumed < |attempts| ==>
              || BytesOf(attempts[..consumed]) >= queueCapacity
              || |buffer.contents| == Pow2(hardBits)
              || attempts[consumed].found.HeldBack?
              || (|buffer.contents| == Pow2(buffer.capBits) &&
                  (attempts[consumed].reserveFails || attempts[consumed].resizeFails || buffer.capBits == MAX_SLOT_BITS))
  {
    hide Mod, BitAnd, Pow2, SlotOf, Holds, CachedOf, BytesOf;
    consumed := 0;
    var bytes := 0;
    assert attempts[..0] == [] && BytesOf<T>([]) == 0 && CachedOf<T>([]) == [] by { NothingRead<T>(); }
    while consumed < |attempts|
      invariant buffer.Valid() && buffer.capBits <= hardBits && |buffer.contents| <= hard
      invariant buffer.storage == old(buffer.storage) || fresh(buffer.storage)
      invariant consumed <= |attempts| && bytes == BytesOf(attempts[..consumed])
      invariant forall i :: 0 <= i < consumed ==> !attempts[i].found.HeldBack?
      invariant consumed > 0 ==> BytesOf(attempts[..consumed - 1]) < queueCapacity
      invariant buffer.contents == old(buffer.contents) + CachedOf(attempts[..consumed])
    {
      var size := buffer.Size();
      if bytes >= queueCapacity || size >= hard { return; }
      var taken := TakeOne(buffer, attempts[consumed], hardBits);
      if !taken { return; }
      NextAttempt(attempts, consumed);
      bytes := bytes + attempts[consumed].bytes;
      consumed := consumed + 1;
    }
    assert attempts[..|attempts|] == attempts;
  }

  lemma NothingRead<T>()
    ensures CachedOf<T>([]) == [] && BytesOf<T>([]) == 0
  {}

  /** What the backend does with one transit buffer, in whatever order. */
  datatype Use<+T> =
    | Read(attempts: seq<Attempt<T>>, queueCapacity: nat)
    | Process
    | RequestShrink
    | TryShrink

  /**
   A whole life of a buffer made from options that pass the checks: after every read, pop and shrink
   its size and capacity are within the hard limit, and what was cached is what was processed
   followed by what is still there. Options fail only if a check does, or no vector has that size.
   */
  method Live<T>(softLimit: nat, hardLimit: nat, initial: nat, uses: seq<Use<T>>)
    returns (ok: bool, sizes: seq<(nat, nat)>, cached: seq<T>, processed: seq<T>, left: Option<TransitEventBuffer<T>>)
    requires softLimit <= SIZE_MAX && hardLimit <= SIZE_MAX && initial <= SIZE_MAX
    ensures ok ==> |sizes| == |uses| + 1
    ensures ok ==> forall i :: 0 <= i < |sizes| ==> sizes[i].0 <= sizes[i].1 <= AtLeastOne(hardLimit)
    ensures ok ==> left.Some? && left.value.Valid() && cached == processed + left.value.contents
    ensures !ok ==>
              || AtLeastOne(softLimit) > AtLeastOne(hardLimit)
              || (forall k: nat :: AtLeastOne(hardLimit) != Pow2(k))
              || (forall j: nat :: initial <= Pow2(j) ==> AtLeastOne(hardLimit) < Pow2(j))
              || initial > Pow2(MAX_SLOT_BITS)
  {
    hide Mod, BitAnd, Pow2, SlotOf, Holds, CachedOf, BytesOf;
    sizes, cached, processed, left := [], [], [], None;
    ghost var hardBits;
    ok, hardBits := ValidateLimits(softLimit, hardLimit, initial);
    if !ok { return; }
    if initial > Pow2(MAX_SLOT_BITS) { return false, [], [], [], None; }
    var buffer := new TransitEventBuffer<T>(initial);
    left := Some(buffer);
    var hard := AtLeastOne(hardLimit);
    ghost var j: nat :| initial <= Pow2(j) && j <= hardBits;
    Pow2Order(buffer.initialBits, j);
    WithinLimit(buffer, hardBits);
    sizes := [(0, buffer.storage.Length)];
    for i := 0 to |uses|
      invariant buffer.Valid() && buffer.capBits <= hardBits && |buffer.contents| <= hard
      invariant fresh(buffer) && fresh(buffer.storage)
      invariant |sizes| == i + 1 && forall k :: 0 <= k < |sizes| ==> sizes[k].0 <= sizes[k].1 <= hard
      invariant cached == processed + buffer.contents
    {
      match uses[i] {
        case Read(attempts, queueCapacity) =>
          var consumed := ReadLoop(buffer, attempts, queueCapacity, hard, hardBits);
          cached := cached + CachedOf(attempts[..consumed]);
        case Process =>
          var front := buffer.Front();
          if front.Some? {
            processed := processed + [front.value];
            buffer.PopFront();
          }
        case RequestShrink => buffer.RequestShrink();
        case TryShrink => buffer.TryShrink();
      }
      WithinLimit(buffer, hardBits);
      var size := buffer.Size();
      sizes := sizes + [(size, buffer.storage.Length)];
    }
  }

  lemma WithinLimit<T>(buffer: TransitEventBuffer<T>, hardBits: nat)
    requires buffer.Valid() && buffer.capBits <= hardBits
    ensures |buffer.contents| <= buffer.storage.Length <= Pow2(hardBits)
  {
    hide Mod, SlotOf, Pow2;
    HoldsLength(buffer.storage[..], buffer.start, buffer.capBits, buffer.contents);
    Pow2Order(buffer.capBits, hardBits);
  }

  lemma MaxSlots()
    ensures Pow2(MAX_SLOT_BITS) < MAX_POWER_OF_2
  {
    WordConstants();
    Pow2Strict(62, 63);
  }

  lemma ModSmall(x: nat)
    requires x < WORD
    ensures Mod(x, WORD) == x
  {}

  lemma SizeExact(start: nat, n: nat, capBits: nat)
    requires n <= Pow2(capBits) && capBits <= MAX_SLOT_BITS
    ensures SubMod(Mod(start + n, WORD), Mod(start, WORD), WORD) == n
    ensures Mod(start + n, WORD) == Mod(start, WORD) <==> n == 0
  {
    hide Mod, Pow2;
    MaxSlots();
    Pow2Order(capBits, MAX_SLOT_BITS);
    WrapDiff(start + n, start, WORD);
    WrapEq(start + n, start, WORD);
  }

  lemma BackSlot(start: nat, n: nat, pos: nat, mask: nat, capBits: nat)
    requires capBits <= MAX_SLOT_BITS && pos == Mod(start + n, WORD) && mask == Pow2(capBits) - 1
    ensures BitAnd(pos, mask) == SlotOf(start, n, capBits)
  {
    hide BitAnd, Pow2;
    SlotMasked(start + n, 0, capBits);
  }

  /** The slot `(_reader_pos + i) & _mask` of a full buffer. */
  lemma ElementSlot(start: nat, i: nat, pos: nat, mask: nat, capBits: nat)
    requires capBits <= MAX_SLOT_BITS && pos == Mod(start, WORD) && mask == Pow2(capBits) - 1
    ensures BitAnd(Mod(pos + i, WORD), mask) == SlotOf(start, i, capBits)
  {
    hide BitAnd, Pow2;
    SlotMasked(start, i, capBits);
  }

  lemma OthersDistinct(start: nat, i: nat, capBits: nat)
    requires i < Pow2(capBits)
    ensures forall j: nat :: j < Pow2(capBits) && j != i ==> SlotOf(start, j, capBits) != SlotOf(start, i, capBits)
  {
    hide SlotOf, Pow2;
    forall j: nat | j < Pow2(capBits) && j != i ensures SlotOf(start, j, capBits) != SlotOf(start, i, capBits) {
      SlotsDistinct(start, j, i, capBits);
    }
  }

  lemma HoldsLength<T>(storage: seq<Slot<T>>, pos: nat, capBits: nat, events: seq<T>)
    requires Holds(storage, pos, capBits, events)
    ensures |storage| == Pow2(capBits) && |events| <= Pow2(capBits)
  {}

  lemma HoldsNothing<T>(storage: seq<Slot<T>>, capBits: nat)
    requires |storage| == Pow2(capBits)
    ensures Holds(storage, 0, capBits, [])
  {}

  lemma Doubled(capBits: nat)
    ensures Pow2(capBits + 1) == 2 * Pow2(capBits)
  {}

  lemma WordCapacity(capBits: nat)
    requires capBits <= MAX_SLOT_BITS
    ensures Mod(0 + Pow2(capBits), WORD) == Pow2(capBits) && Mod(0, WORD) == 0
  {
    hide Pow2;
    MaxSlots();
    Pow2Order(capBits, MAX_SLOT_BITS);
  }

  lemma MovedHolds<T>(storage: seq<Slot<T>>, capBits: nat, events: seq<T>)
    requires |storage| == Pow2(capBits) && |events| <= |storage|
    requires forall i :: 0 <= i < |events| ==> storage[i] == Event(events[i])
    ensures Holds(storage, 0, capBits, events)
  {
    hide Pow2;
  }
}
