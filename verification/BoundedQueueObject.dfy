/**
 BoundedSPSCQueueImpl as an object: the fields of quill/include/quill/core/BoundedSPSCQueue.h over
 a byte array, each method proved against the steps of module BoundedQueue run without
 interference, and against the queue of whole records it implements.
 */
module BoundedQueueObject {
  import opened Containers
  import opened Bits
  import opened BoundedQueue

  /** The committed records the consumer has not finished, oldest first. */
  function Pending(t: Tape, k: Marks): seq<seq<Byte>> {
    if k.read <= k.committed <= |t.recs| then Payloads(t.recs[k.read..k.committed]) else []
  }

  /** The finished records not committed yet, oldest first. */
  function Uncommitted(t: Tape, k: Marks): seq<seq<Byte>> {
    if k.committed <= |t.recs| then Payloads(t.recs[k.committed..]) else []
  }

  /** The record these bytes make: none if there are none. */
  function Record(bytes: seq<Byte>): seq<seq<Byte>> { if bytes == [] then [] else [bytes] }

  /** The largest value of a position type of the given width. */
  function MaxPosition(posBits: nat): nat { Pow2(posBits) - 1 }

  const METADATA_SIZE: nat := 16
  const CACHE_LINE_ALIGNED: nat := 128
  const MAX_ROUNDED_CAPACITY: nat := (SIZE_MAX - METADATA_SIZE - CACHE_LINE_ALIGNED) / 2

  /**
   `_validate_capacity`: a capacity is refused exactly when its rounding does not fit the position
   type or twice it does not fit the allocation size; otherwise it is rounded up to a power of two
   that fits below the position modulus.
   */
  method ValidateCapacity(capacity: nat, posBits: nat) returns (r: Option<nat>, ghost capBits: nat)
    requires capacity <= SIZE_MAX && capacity < Pow2(posBits) && posBits <= WORD_BITS
    ensures r.Some? ==> r.value == Pow2(capBits) && capBits < posBits && capacity <= r.value <= MAX_ROUNDED_CAPACITY
    ensures r.Some? ==> forall j: nat :: capacity <= Pow2(j) ==> r.value <= Pow2(j)
    ensures r.None? ==> forall j: nat :: capacity <= Pow2(j) ==> j >= posBits || Pow2(j) > MAX_ROUNDED_CAPACITY
    ensures r.None? <==> forall j: nat :: capacity <= Pow2(j) ==> j >= posBits || j > 62
  {
    forall j: nat ensures Pow2(j) > MAX_ROUNDED_CAPACITY <==> j > 62 { RoundedLimit(j); }
    var rounded;
    rounded, capBits := NextPowerOfTwo(capacity);
    WordConstants();
    if rounded > MaxPosition(posBits) {
      r := None;
      forall j: nat | capacity <= Pow2(j) ensures j >= posBits || Pow2(j) > MAX_ROUNDED_CAPACITY {
        if j < posBits { Pow2Strict(j, posBits); }
      }
    } else if rounded > MAX_ROUNDED_CAPACITY {
      r := None;
    } else {
      r := Some(rounded);
      if posBits < capBits { Pow2Strict(posBits, capBits); }
    }
  }

  /** The largest power of two whose double can be allocated is 2^62. */
  lemma RoundedLimit(j: nat)
    ensures Pow2(j) > MAX_ROUNDED_CAPACITY <==> j > 62
  {
    WordConstants();
    assert Pow2(63) == 2 * Pow2(62);
    hide Pow2;
    Pow2Order(j, 62);
    Pow2Order(63, j);
  }

  class BoundedSPSCQueue {
    const cfg: Config
    const storage: array<Byte>
    var atomicWriterPos: nat
    var writerPos: nat
    var readerPosCachePlusCapacity: nat
    var atomicReaderPos: nat
    var readerPos: nat
    var writerPosCache: nat
    ghost var ppc: ProducerPc
    ghost var cpc: ConsumerPc
    ghost var tape: Tape
    ghost var k: Marks
    ghost var inbox: Inbox

    ghost function View(): Ring
      reads this, storage
    {
      Ring(cfg, storage[..], atomicWriterPos, writerPos, readerPosCachePlusCapacity, atomicReaderPos,
           readerPos, writerPosCache, ppc, cpc, tape, k, inbox)
    }

    ghost predicate Valid()
      reads this, storage
    {
      Inv(View()) && !ppc.PReload? && !cpc.CReload?
    }

    /** A batch is `percent` of the capacity, rounded down. */
    constructor (capBits: nat, posBits: nat, percent: nat)
      requires capBits < posBits
      ensures Valid() && fresh(storage) && View() == Fresh(cfg)
      ensures cfg.capacity == Pow2(capBits) && cfg.modulus == Pow2(posBits)
      ensures 100 * cfg.batch <= cfg.capacity * percent < 100 * (cfg.batch + 1)
    {
      var capacity := Pow2(capBits);
      cfg := Config(capBits, posBits, capacity, capacity - 1, Pow2(posBits), capacity * percent / 100);
      storage := new Byte[2 * capacity](_ => 0);
      atomicWriterPos, writerPos, readerPosCachePlusCapacity := 0, 0, capacity;
      atomicReaderPos, readerPos, writerPosCache := 0, 0, 0;
      ppc, cpc, tape, k, inbox := PIdle, CIdle, Tape([], 0), Marks(0, 0, 0, 0, 0), Inbox([], []);
      new;
      FreshInv(cfg);
      assert storage[..] == Fresh(cfg).storage;
    }

    /** prepare_write: the offset of n contiguous free bytes, or null when the released space is too small. */
    method PrepareWrite(n: nat) returns (r: Option<nat>)
      requires Valid() && n < cfg.modulus
      modifies this
      ensures Valid() && Typed(old(View())) && View() == PrepareWriteCall(old(View()), n)
      ensures r.Some? ==> ppc == PReserved(n) && r.value == WriteOffset(View()) && r.value + n <= storage.Length
      ensures r.Some? <==> tape.end + n <= tape.Pos(k.published) + cfg.capacity
    {
      hide Inv, BitAnd, Mod;
      InvTyped(View());
      PrepareWriteExact(View(), n);
      KeepsReservation(View(), n, PReload(n));
      if SubMod(readerPosCachePlusCapacity, writerPos, cfg.modulus) < n {
        ppc := PReload(n);
        KeepsLoadReader(View());
        RefusedIffFull(View());
        readerPosCachePlusCapacity := Add(cfg, atomicReaderPos, cfg.capacity);
        k := k.(readerSeen := k.published);
        if SubMod(readerPosCachePlusCapacity, writerPos, cfg.modulus) < n {
          ppc := PRefused;
          return None;
        }
      }
      ppc := PReserved(n);
      r := Some(BitAnd(writerPos, cfg.mask));
      ReservationSafe(View());
    }

    /** The caller's copy of a record into the reserved bytes. */
    method Fill(bytes: seq<Byte>)
      requires Valid() && ppc.PReserved? && |bytes| <= ppc.n
      modifies storage
      ensures Valid() && View() == old(View()).(storage := storage[..])
      ensures WriteOffset(View()) + |bytes| <= storage.Length
      ensures storage[WriteOffset(View())..WriteOffset(View()) + |bytes|] == bytes
    {
      hide Inv, BitAnd, Mod;
      var off := BitAnd(writerPos, cfg.mask);
      ReservationSafe(View());
      for i := 0 to |bytes|
        invariant Valid() && View() == old(View()).(storage := storage[..])
        invariant off + |bytes| <= storage.Length
        invariant storage[off..off + i] == bytes[..i]
      {
        InvTyped(View());
        KeepsWriteByte(View(), i, bytes[i]);
        storage[off + i] := bytes[i];
      }
    }

    /** finish_write: the n bytes written become the newest finished record; none if n is 0. */
    method FinishWrite(n: nat)
      requires Valid() && ppc.PReserved? && n <= ppc.n
      modifies this
      ensures Valid()
      ensures WriteOffset(old(View())) + n <= storage.Length
      ensures Pending(tape, k) == old(Pending(tape, k))
      ensures Uncommitted(tape, k) ==
                old(Uncommitted(tape, k)) + Record(storage[WriteOffset(old(View()))..WriteOffset(old(View())) + n])
    {
      hide Inv, Pending, Uncommitted, BitAnd, Mod;
      ReservationSafe(View());
      FinishPending(View(), n);
      ghost var off := WriteOffset(View());
      ghost var rec := Rec(tape.end, storage[off..off + n]);
      writerPos := Add(cfg, writerPos, n);
      tape, ppc := if n == 0 then tape else Tape(tape.recs + [rec], tape.end + n), PIdle;
      assert View() == DoFinishWrite(old(View()), n);
    }

    /** commit_write: everything finished becomes pending. */
    method CommitWrite()
      requires Valid()
      modifies this
      ensures Valid() && View() == DoCommitWrite(old(View()))
      ensures Pending(tape, k) == old(Pending(tape, k)) + old(Uncommitted(tape, k)) && Uncommitted(tape, k) == []
    {
      hide Inv, Pending, Uncommitted, BitAnd, Mod;
      CommitPending(View());
      atomicWriterPos := writerPos;
      k := k.(committed := |tape.recs|);
      assert View() == DoCommitWrite(old(View()));
    }

    /** finish_and_commit_write: what was finished earlier and the n bytes written become pending. */
    method FinishAndCommitWrite(n: nat)
      requires Valid() && ppc.PReserved? && n <= ppc.n
      modifies this
      ensures Valid() && k.committed == |tape.recs|
      ensures WriteOffset(old(View())) + n <= storage.Length
      ensures Pending(tape, k) ==
                old(Pending(tape, k)) + (old(Uncommitted(tape, k)) +
                                         Record(storage[WriteOffset(old(View()))..WriteOffset(old(View())) + n]))
      ensures Uncommitted(tape, k) == []
    {
      hide Inv, Pending, Uncommitted, BitAnd, Mod;
      FinishWrite(n);
      CommitWrite();
    }

    /** prepare_read: the offset of the oldest pending record, or null when there is none. */
    method PrepareRead() returns (r: Option<nat>)
      requires Valid()
      modifies this
      ensures Valid() && View() == PrepareReadCall(old(View()))
      ensures Pending(tape, k) == old(Pending(tape, k))
      ensures r.None? <==> Pending(tape, k) == []
      ensures r.Some? ==>
                && cpc.CReading? && r.value == ReadOffset(View())
                && r.value + |Pending(tape, k)[0]| <= storage.Length
                && storage[r.value..r.value + |Pending(tape, k)[0]|] == Pending(tape, k)[0]
    {
      hide Inv, Pending, BitAnd, Mod;
      PrepareReadPending(View());
      inbox := inbox.(got := []);
      if writerPosCache == readerPos {
        cpc := CReload;
        // the load of the committed writer position
        writerPosCache, k := atomicWriterPos, k.(writerSeen := k.committed);
        if writerPosCache == readerPos {
          cpc := CEmpty;
          assert View() == PrepareReadCall(old(View()));
          return None;
        }
      }
      cpc := CReading;
      assert View() == PrepareReadCall(old(View()));
      r := Some(BitAnd(readerPos, cfg.mask));
    }

    /** finish_read of the record that prepare_read handed out. */
    method FinishRead(n: nat)
      requires Valid() && cpc.CReading?
      requires Pending(tape, k) != [] && n == |Pending(tape, k)[0]|
      modifies this
      ensures Valid() && Pending(tape, k) == old(Pending(tape, k))[1..]
      ensures inbox.log == old(inbox.log) + [old(Pending(tape, k))[0]]
    {
      hide Inv, Pending, BitAnd, Mod;
      ghost var rec := Pending(tape, k)[0];
      FinishReadPending(View());
      readerPos := Add(cfg, readerPos, n);
      cpc, k := CIdle, k.(read := k.read + 1);
      inbox := Inbox(inbox.log + [rec], []);
      assert View() == DoFinishRead(old(View()).(inbox := old(inbox).(got := rec)), n);
    }

    /** commit_read: publishes the read position after a full batch, or when drained as far as is known. */
    method CommitRead()
      requires Valid()
      modifies this
      ensures Valid() && Typed(old(View())) && View() == DoCommitRead(old(View()))
      ensures Pending(tape, k) == old(Pending(tape, k))
      ensures Pending(tape, k) == [] && k.committed == |tape.recs| ==> k.published == |tape.recs|
      ensures var full := tape.Pos(k.read) - tape.Pos(old(k.published)) >= cfg.batch;
              k == if full || k.read == k.writerSeen then old(k).(published := k.read) else old(k)
    {
      hide Inv, Pending, BitAnd, Mod;
      CommitReadPending(View());
      CommitReadExact(View());
      if SubMod(readerPos, atomicReaderPos, cfg.modulus) >= cfg.batch || writerPosCache == readerPos {
        atomicReaderPos, k := readerPos, k.(published := k.read);
        assert View() == DoCommitRead(old(View()));
      }
      assert View() == DoCommitRead(old(View()));
    }
  }

  // ---- What the steps do to the pending records ---------------------------------------------

  lemma InvOrdered(s: Ring)
    requires Inv(s)
    ensures Typed(s) && Ordered(s.k, |s.tape.recs|) && (s.cpc.CReading? ==> s.k.read < s.k.writerSeen)
  {
    hide Mod, BitAnd;
  }

  lemma FinishPending(s: Ring, n: nat)
    requires Inv(s) && s.ppc.PReserved? && n <= s.ppc.n
    ensures Typed(s) && WriteOffset(s) + n <= |s.storage|
    ensures var t := DoFinishWrite(s, n);
            && Inv(t) && Pending(t.tape, t.k) == Pending(s.tape, s.k)
            && Uncommitted(t.tape, t.k) ==
                 Uncommitted(s.tape, s.k) + Record(s.storage[WriteOffset(s)..WriteOffset(s) + n])
  {
    hide Inv, BitAnd, Mod;
    InvOrdered(s);
    ReservationSafe(s);
    KeepsFinishWrite(s, n);
    var recs, rec := s.tape.recs, Rec(s.tape.end, s.storage[WriteOffset(s)..WriteOffset(s) + n]);
    assert (recs + [rec])[s.k.read..s.k.committed] == recs[s.k.read..s.k.committed];
    assert (recs + [rec])[s.k.committed..] == recs[s.k.committed..] + [rec];
  }

  lemma CommitPending(s: Ring)
    requires Inv(s) && !s.ppc.PReload?
    ensures var t := DoCommitWrite(s);
            && Inv(t) && Pending(t.tape, t.k) == Pending(s.tape, s.k) + Uncommitted(s.tape, s.k)
            && Uncommitted(t.tape, t.k) == []
  {
    hide Inv, BitAnd, Mod;
    InvOrdered(s);
    KeepsCommitWrite(s);
    var recs := s.tape.recs;
    assert recs[s.k.read..] == recs[s.k.read..s.k.committed] + recs[s.k.committed..];
  }

  lemma PrepareReadPending(s: Ring)
    requires Inv(s) && !s.cpc.CReload?
    ensures var t := PrepareReadCall(s);
            && Inv(t) && Pending(t.tape, t.k) == Pending(s.tape, s.k) && !t.cpc.CReload?
            && (t.cpc.CReading? <==> Pending(s.tape, s.k) != []) && (t.cpc.CEmpty? <==> Pending(s.tape, s.k) == [])
            && (t.cpc.CReading? ==>
                  && ReadOffset(t) + |Pending(t.tape, t.k)[0]| <= |t.storage|
                  && t.storage[ReadOffset(t)..ReadOffset(t) + |Pending(t.tape, t.k)[0]|] == Pending(t.tape, t.k)[0])
  {
    hide Inv, BitAnd, Mod;
    KeepsCheckEmpty(s);
    KeepsLoadWriter(DoCheckEmpty(s));
    NullReadIffDrained(DoCheckEmpty(s));
    var t := PrepareReadCall(s);
    InvOrdered(t);
    if t.cpc.CReading? { OldestStored(t); }
  }

  lemma FinishReadPending(s: Ring)
    requires Inv(s) && s.cpc.CReading?
    ensures Pending(s.tape, s.k) != [] && Typed(s)
    ensures var rec := Pending(s.tape, s.k)[0];
            var t := DoFinishRead(s.(inbox := s.inbox.(got := rec)), |rec|);
            Inv(t) && Pending(t.tape, t.k) == Pending(s.tape, s.k)[1..]
  {
    hide Inv, BitAnd, Mod;
    InvOrdered(s);
    var rec := s.tape.recs[s.k.read].bytes;
    HoldsRecord(s);
    KeepsFinishRead(s.(inbox := s.inbox.(got := rec)), |rec|);
  }

  lemma HoldsRecord(s: Ring)
    requires Inv(s) && s.cpc.CReading?
    ensures Inv(s.(inbox := s.inbox.(got := s.tape.recs[s.k.read].bytes)))
  {
    hide Mod, BitAnd, Chained, AllStored;
  }

  lemma CommitReadPending(s: Ring)
    requires Inv(s)
    ensures Typed(s) && Inv(DoCommitRead(s)) && Pending(DoCommitRead(s).tape, DoCommitRead(s).k) == Pending(s.tape, s.k)
    ensures Pending(s.tape, s.k) == [] && s.k.committed == |s.tape.recs| ==> DoCommitRead(s).k.published == |s.tape.recs|
  {
    hide Inv, BitAnd, Mod;
    InvOrdered(s);
    KeepsCommitRead(s);
    if s.k.read == s.k.committed { DrainedPublishes(s); }
  }

  lemma DrainedPublishes(s: Ring)
    requires Inv(s) && s.k.read == s.k.committed
    ensures s.writerPosCache == s.readerPos
  {
    hide BitAnd;
    EmptinessExact(s);
  }

  lemma OldestStored(s: Ring)
    requires Inv(s) && s.k.read < s.k.committed
    ensures ReadOffset(s) + |s.tape.recs[s.k.read].bytes| <= |s.storage|
    ensures s.storage[ReadOffset(s)..ReadOffset(s) + |s.tape.recs[s.k.read].bytes|] == s.tape.recs[s.k.read].bytes
  {
    OffsetsExact(s);
    assert Stored(s.storage, s.cfg.capacity, s.tape.recs[s.k.read]);
  }
}
