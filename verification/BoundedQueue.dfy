/**
 The single-producer single-consumer byte ring of quill/include/quill/core/BoundedSPSCQueue.h,
 as a machine whose steps are the individual loads and stores of the two threads. Positions are
 the source's wrapping unsigned integers of any width; history fields record the unbounded
 positions and the records, and no step's behaviour depends on them except for the one stated
 obligation on the consumer: it advances by the length of the record it is reading.
 */
module BoundedQueue {
  import opened Bits

  type Byte = b: int | 0 <= b < 256

  /** Positions are `posBits` wide, the capacity is `2^capBits`, `batch` is `_bytes_per_batch`. */
  datatype Config = Config(capBits: nat, posBits: nat, capacity: nat, mask: nat, modulus: nat, batch: nat) {
    predicate Valid() {
      capBits < posBits && capacity == Pow2(capBits) == mask + 1 && modulus == Pow2(posBits)
    }
  }

  /** Valid configurations, with the two size facts the arithmetic needs. */
  predicate Sized(c: Config) {
    c.Valid() && 0 < c.capacity < c.modulus
  }

  datatype Rec = Rec(start: nat, bytes: seq<Byte>)

  datatype ProducerPc =
    | PIdle                 // no reservation
    | PRefused              // the last reservation returned null
    | PReload(n: nat)       // cached space was too small, about to load the reader position
    | PReserved(n: nat)     // n contiguous bytes may be written

  datatype ConsumerPc =
    | CIdle
    | CEmpty                // the last prepare_read returned null
    | CReload               // looks empty from the cache, about to load the writer position
    | CReading              // the record at the read position may be read

  /** History: all finished records and the end position of the last one. */
  datatype Tape = Tape(recs: seq<Rec>, end: nat) {
    /** The unbounded position in front of record i. */
    function Pos(i: nat): nat {
      if i < |recs| then recs[i].start else end
    }
  }

  /** History: for each published or cached position the number of records in front of it. */
  datatype Marks = Marks(
    read: nat,          // records consumed (_reader_pos)
    published: nat,     // records released to the producer (_atomic_reader_pos)
    readerSeen: nat,    // records the producer knows to be released (_reader_pos_cache_plus_capacity)
    committed: nat,     // records visible to the consumer (_atomic_writer_pos)
    writerSeen: nat)    // records the consumer knows to be committed (_writer_pos_cache)

  /** History: the records handed to the consumer, and the bytes of the current one read so far. */
  datatype Inbox = Inbox(log: seq<seq<Byte>>, got: seq<Byte>)

  datatype Ring = Ring(
    cfg: Config,
    storage: seq<Byte>,
    atomicWriterPos: nat,
    writerPos: nat,
    readerPosCachePlusCapacity: nat,
    atomicReaderPos: nat,
    readerPos: nat,
    writerPosCache: nat,
    ppc: ProducerPc,
    cpc: ConsumerPc,
    tape: Tape,
    k: Marks,
    inbox: Inbox)

  // ---- Steps -------------------------------------------------------------------------------

  /** Every position field holds a value of the position type. */
  predicate Typed(s: Ring) {
    var m := s.cfg.modulus;
    && Sized(s.cfg)
    && s.atomicWriterPos < m && s.writerPos < m && s.readerPosCachePlusCapacity < m
    && s.atomicReaderPos < m && s.readerPos < m && s.writerPosCache < m
  }

  /** Unsigned addition of the position type. */
  function Add(c: Config, a: nat, b: nat): nat
    requires Sized(c)
  {
    Mod(a + b, c.modulus)
  }

  function FreeBytes(s: Ring): nat
    requires Typed(s)
  {
    SubMod(s.readerPosCachePlusCapacity, s.writerPos, s.cfg.modulus)
  }

  function Lag(s: Ring): nat
    requires Typed(s)
  {
    SubMod(s.readerPos, s.atomicReaderPos, s.cfg.modulus)
  }

  function WriteOffset(s: Ring): nat { BitAnd(s.writerPos, s.cfg.mask) }

  function ReadOffset(s: Ring): nat { BitAnd(s.readerPos, s.cfg.mask) }

  datatype Step =
    | PrepareWrite(n: nat)         // cached check of prepare_write
    | LoadReader                   // second half of prepare_write
    | ReserveCached(n: nat)        // prepare_write_reserve_cached
    | WriteByte(i: nat, b: Byte)
    | FinishWrite(m: nat)
    | CommitWrite
    | CheckEmpty                   // cached check of empty()
    | LoadWriter                   // second half of empty()
    | ReadByte
    | FinishRead(m: nat)
    | CommitRead

  predicate Enabled(s: Ring, step: Step) {
    Typed(s) &&
    match step
    case PrepareWrite(n) => !s.ppc.PReload? && n < s.cfg.modulus
    case LoadReader => s.ppc.PReload?
    case ReserveCached(n) => !s.ppc.PReload? && n < s.cfg.modulus
    case WriteByte(i, b) => s.ppc.PReserved? && i < s.ppc.n && WriteOffset(s) + i < |s.storage|
    case FinishWrite(m) => s.ppc.PReserved? && m <= s.ppc.n && WriteOffset(s) + m <= |s.storage|
    case CommitWrite => !s.ppc.PReload?
    case CheckEmpty => !s.cpc.CReload?
    case LoadWriter => s.cpc.CReload?
    case ReadByte =>
      // the decoder reads inside the record it was handed
      s.cpc.CReading? && s.k.read < |s.tape.recs| && |s.inbox.got| < |s.tape.recs[s.k.read].bytes| &&
      ReadOffset(s) + |s.inbox.got| < |s.storage|
    case FinishRead(m) =>
      // the decoder consumes exactly the record the producer wrote
      s.cpc.CReading? && s.k.read < |s.tape.recs| && m == |s.inbox.got| == |s.tape.recs[s.k.read].bytes|
    case CommitRead => !s.cpc.CReload?
  }

  function AfterCheck(s: Ring, n: nat, failed: ProducerPc): ProducerPc
    requires Typed(s)
  {
    if FreeBytes(s) < n then failed else PReserved(n)
  }

  /** The load of the reader position in prepare_write, before the second check. */
  function Reloaded(s: Ring): Ring
    requires Typed(s)
  {
    s.(readerPosCachePlusCapacity := Add(s.cfg, s.atomicReaderPos, s.cfg.capacity),
       k := s.k.(readerSeen := s.k.published), ppc := PIdle)
  }

  function DoLoadReader(s: Ring): Ring
    requires Typed(s) && s.ppc.PReload?
  {
    var t := Reloaded(s);
    t.(ppc := AfterCheck(t, s.ppc.n, PRefused))
  }

  function DoWriteByte(s: Ring, i: nat, b: Byte): Ring
    requires Enabled(s, WriteByte(i, b))
  {
    s.(storage := s.storage[WriteOffset(s) + i := b])
  }

  function DoFinishWrite(s: Ring, m: nat): Ring
    requires Enabled(s, FinishWrite(m))
  {
    var rec := Rec(s.tape.end, s.storage[WriteOffset(s)..WriteOffset(s) + m]);
    s.(writerPos := Add(s.cfg, s.writerPos, m), ppc := PIdle,
       tape := if m == 0 then s.tape else Tape(s.tape.recs + [rec], s.tape.end + m))
  }

  function DoCommitWrite(s: Ring): Ring {
    s.(atomicWriterPos := s.writerPos, k := s.k.(committed := |s.tape.recs|))
  }

  function DoCheckEmpty(s: Ring): Ring {
    s.(cpc := if s.writerPosCache == s.readerPos then CReload else CReading, inbox := s.inbox.(got := []))
  }

  function DoLoadWriter(s: Ring): Ring {
    s.(writerPosCache := s.atomicWriterPos, k := s.k.(writerSeen := s.k.committed),
       cpc := if s.atomicWriterPos == s.readerPos then CEmpty else CReading)
  }

  function DoReadByte(s: Ring): Ring
    requires Enabled(s, ReadByte)
  {
    s.(inbox := s.inbox.(got := s.inbox.got + [s.storage[ReadOffset(s) + |s.inbox.got|]]))
  }

  function DoFinishRead(s: Ring, m: nat): Ring
    requires Typed(s)
  {
    s.(readerPos := Add(s.cfg, s.readerPos, m), cpc := CIdle, k := s.k.(read := s.k.read + 1),
       inbox := Inbox(s.inbox.log + [s.inbox.got], []))
  }

  function DoCommitRead(s: Ring): Ring
    requires Typed(s)
  {
    if Lag(s) >= s.cfg.batch || s.writerPosCache == s.readerPos
    then s.(atomicReaderPos := s.readerPos, k := s.k.(published := s.k.read))
    else s
  }

  function Apply(s: Ring, step: Step): Ring
    requires Enabled(s, step)
  {
    match step
    case PrepareWrite(n) => s.(ppc := AfterCheck(s, n, PReload(n)))
    case LoadReader => DoLoadReader(s)
    case ReserveCached(n) => s.(ppc := AfterCheck(s, n, PRefused))
    case WriteByte(i, b) => DoWriteByte(s, i, b)
    case FinishWrite(m) => DoFinishWrite(s, m)
    case CommitWrite => DoCommitWrite(s)
    case CheckEmpty => DoCheckEmpty(s)
    case LoadWriter => DoLoadWriter(s)
    case ReadByte => DoReadByte(s)
    case FinishRead(m) => DoFinishRead(s, m)
    case CommitRead => DoCommitRead(s)
  }

  /** The state built by the constructor; the storage is zeroed. */
  function Fresh(c: Config): Ring {
    Ring(c, seq(2 * c.capacity, _ => 0), 0, 0, c.capacity, 0, 0, 0, PIdle, CIdle,
         Tape([], 0), Marks(0, 0, 0, 0, 0), Inbox([], []))
  }

  // ---- Invariant ---------------------------------------------------------------------------

  /** Records are non-empty, adjacent and end at the writer position. */
  ghost predicate Chained(t: Tape) {
    && (forall i :: 0 <= i < |t.recs| ==> |t.recs[i].bytes| > 0 && t.recs[i].start + |t.recs[i].bytes| <= t.end)
    && (forall i, j :: 0 <= i && j == i + 1 < |t.recs| ==> t.recs[i].start + |t.recs[i].bytes| == t.recs[j].start)
    && (forall i, j :: 0 <= i < j < |t.recs| ==> t.recs[i].start + |t.recs[i].bytes| <= t.recs[j].start)
    && (|t.recs| > 0 ==> t.recs[|t.recs| - 1].start + |t.recs[|t.recs| - 1].bytes| == t.end)
  }

  /** A record is stored contiguously at its start position modulo the capacity. */
  ghost predicate Stored(storage: seq<Byte>, cap: nat, r: Rec)
    requires cap > 0
  {
    var off := Mod(r.start, cap);
    && off + |r.bytes| <= |storage|
    && storage[off..off + |r.bytes|] == r.bytes
  }

  ghost predicate AllStored(storage: seq<Byte>, cap: nat, t: Tape, from: nat)
    requires cap > 0
  {
    forall i :: from <= i < |t.recs| ==> Stored(storage, cap, t.recs[i])
  }

  /** What the consumer holds: the records read so far, and a prefix of the next. */
  ghost predicate Received(t: Tape, read: nat, seen: nat, b: Inbox) {
    && |b.log| == read <= |t.recs|
    && (forall i :: 0 <= i < read ==> b.log[i] == t.recs[i].bytes)
    && (b.got != [] ==> read < seen && read < |t.recs| && b.got <= t.recs[read].bytes)
  }

  /** The reservation, if any, stays within one capacity of the known reader position. */
  ghost predicate Reserved(c: Config, ppc: ProducerPc, t: Tape, readerSeen: nat) {
    && t.end + (if ppc.PReserved? then ppc.n else 0) <= t.Pos(readerSeen) + c.capacity
    && (ppc.PReload? ==> ppc.n < c.modulus)
  }

  ghost predicate Ordered(k: Marks, count: nat) {
    k.readerSeen <= k.published <= k.read <= k.writerSeen <= k.committed <= count
  }

  /** The concrete wrapping positions are the unbounded ones modulo 2^width. */
  ghost predicate Wrapped(s: Ring)
    requires s.cfg.modulus > 0
  {
    var m := s.cfg.modulus;
    && s.writerPos == Mod(s.tape.end, m)
    && s.atomicWriterPos == Mod(s.tape.Pos(s.k.committed), m)
    && s.readerPosCachePlusCapacity == Mod(s.tape.Pos(s.k.readerSeen) + s.cfg.capacity, m)
    && s.atomicReaderPos == Mod(s.tape.Pos(s.k.published), m)
    && s.readerPos == Mod(s.tape.Pos(s.k.read), m)
    && s.writerPosCache == Mod(s.tape.Pos(s.k.writerSeen), m)
  }

  ghost predicate Inv(s: Ring) {
    && Sized(s.cfg)
    && |s.storage| == 2 * s.cfg.capacity
    && Chained(s.tape)
    && Ordered(s.k, |s.tape.recs|)
    && Wrapped(s)
    && Reserved(s.cfg, s.ppc, s.tape, s.k.readerSeen)
    && AllStored(s.storage, s.cfg.capacity, s.tape, s.k.read)
    && Received(s.tape, s.k.read, s.k.writerSeen, s.inbox)
    && (s.cpc.CReading? ==> s.k.read < s.k.writerSeen)
  }

  lemma InvTyped(s: Ring)
    requires Inv(s)
    ensures Typed(s)
  {}

  lemma ConfigSized(c: Config)
    requires c.Valid()
    ensures Sized(c)
  {
    Pow2Strict(c.capBits, c.posBits);
  }

  /** Positions that the marks order lie within one capacity of each other. */
  lemma Window(s: Ring, i: nat, j: nat)
    requires Inv(s) && s.k.readerSeen <= i <= j <= |s.tape.recs|
    ensures 0 <= s.tape.Pos(j) - s.tape.Pos(i) <= s.cfg.capacity < s.cfg.modulus
    ensures s.tape.Pos(i) == s.tape.Pos(j) <==> i == j
  {
  }

  // ---- The wrapping arithmetic agrees with unbounded positions -------------------------------

  /** `_reader_pos_cache_plus_capacity - _writer_pos` is the space left behind the known reader. */
  lemma FreeBytesExact(s: Ring)
    requires Inv(s)
    ensures Typed(s) && FreeBytes(s) == s.tape.Pos(s.k.readerSeen) + s.cfg.capacity - s.tape.end
  {
    InvTyped(s);
    WrapDiff(s.tape.Pos(s.k.readerSeen) + s.cfg.capacity, s.tape.end, s.cfg.modulus);
  }

  /** Equality of wrapped reader and writer positions is emptiness. */
  lemma EmptinessExact(s: Ring)
    requires Inv(s)
    ensures s.writerPosCache == s.readerPos <==> s.k.writerSeen == s.k.read
    ensures s.atomicWriterPos == s.readerPos <==> s.k.committed == s.k.read
  {
    Window(s, s.k.read, s.k.writerSeen);
    Window(s, s.k.read, s.k.committed);
    WrapEq(s.tape.Pos(s.k.writerSeen), s.tape.Pos(s.k.read), s.cfg.modulus);
    WrapEq(s.tape.Pos(s.k.committed), s.tape.Pos(s.k.read), s.cfg.modulus);
  }

  /** The lag tested by commit_read is the number of bytes read but not yet released. */
  lemma LagExact(s: Ring)
    requires Inv(s)
    ensures Lag(s) == s.tape.Pos(s.k.read) - s.tape.Pos(s.k.published)
  {
    Window(s, s.k.published, s.k.read);
    WrapDiff(s.tape.Pos(s.k.read), s.tape.Pos(s.k.published), s.cfg.modulus);
  }

  lemma MaskExact(c: Config, x: nat)
    requires Sized(c)
    ensures BitAnd(Mod(x, c.modulus), c.mask) == Mod(x, c.capacity)
  {
    MaskWrapped(x, c.capBits, c.posBits);
  }

  /** Masked wrapped positions are the unbounded positions modulo the capacity. */
  lemma OffsetsExact(s: Ring)
    requires Inv(s)
    ensures WriteOffset(s) == Mod(s.tape.end, s.cfg.capacity)
    ensures ReadOffset(s) == Mod(s.tape.Pos(s.k.read), s.cfg.capacity)
  {
    MaskExact(s.cfg, s.tape.end);
    MaskExact(s.cfg, s.tape.Pos(s.k.read));
  }

  // ---- No overlap --------------------------------------------------------------------------

  /** Two ranges in front of each other inside one capacity never share a storage byte. */
  lemma {:induction false} RegionsDisjoint(s: nat, len: nat, w: nat, n: nat, cap: nat)
    requires cap > 0 && len > 0 && s + len <= w && w + n <= s + cap
    ensures Mod(s, cap) + len <= Mod(w, cap) || Mod(w, cap) + n <= Mod(s, cap)
  {
    if s >= cap { RegionsDisjoint(s - cap, len, w - cap, n, cap); }
  }

  ghost predicate Apart(off: nat, n: nat, cap: nat, r: Rec)
    requires cap > 0
  {
    Mod(r.start, cap) + |r.bytes| <= off || off + n <= Mod(r.start, cap)
  }

  /** Every unread record lies apart from the reserved range, which lies inside the storage. */
  lemma ReservationSafe(s: Ring)
    requires Inv(s) && s.ppc.PReserved?
    ensures WriteOffset(s) + s.ppc.n <= |s.storage|
    ensures forall i :: s.k.read <= i < |s.tape.recs| ==>
              Apart(WriteOffset(s), s.ppc.n, s.cfg.capacity, s.tape.recs[i])
  {
    OffsetsExact(s);
    forall i | s.k.read <= i < |s.tape.recs|
      ensures Apart(WriteOffset(s), s.ppc.n, s.cfg.capacity, s.tape.recs[i])
    {
      RegionsDisjoint(s.tape.recs[i].start, |s.tape.recs[i].bytes|, s.tape.end, s.ppc.n, s.cfg.capacity);
    }
  }

  // ---- Preservation, one lemma per kind of step ------------------------------------------------

  lemma FreshInv(c: Config)
    requires c.Valid()
    ensures Inv(Fresh(c))
  {
    ConfigSized(c);
  }

  lemma KeepsReservation(s: Ring, n: nat, failed: ProducerPc)
    requires Inv(s) && n < s.cfg.modulus
    requires failed == PReload(n) || failed == PRefused
    ensures Inv(s.(ppc := AfterCheck(s, n, failed)))
  {
    hide Mod, BitAnd, AllStored, Received;
    FreeBytesExact(s);
  }

  lemma KeepsReload(s: Ring)
    requires Inv(s) && s.ppc.PReload?
    ensures Inv(Reloaded(s))
  {
    hide Mod, BitAnd, AllStored, Received;
    WrapAdd(s.tape.Pos(s.k.published), s.cfg.capacity, s.cfg.modulus);
  }

  lemma KeepsLoadReader(s: Ring)
    requires Inv(s) && s.ppc.PReload?
    ensures Inv(DoLoadReader(s))
  {
    InvTyped(s);
    hide Mod, BitAnd, Chained, AllStored, Received, Wrapped;
    KeepsReload(s);
    KeepsReservation(Reloaded(s), s.ppc.n, PRefused);
  }

  lemma WriteKeepsStored(storage: seq<Byte>, cap: nat, t: Tape, from: nat, off: nat, n: nat, i: nat, b: Byte)
    requires cap > 0 && AllStored(storage, cap, t, from) && i < n && off + n <= |storage|
    requires forall r :: from <= r < |t.recs| ==> Apart(off, n, cap, t.recs[r])
    ensures AllStored(storage[off + i := b], cap, t, from)
  {
    forall r | from <= r < |t.recs| ensures Stored(storage[off + i := b], cap, t.recs[r]) {
    }
  }

  lemma KeepsWriteByte(s: Ring, i: nat, b: Byte)
    requires Inv(s) && Enabled(s, WriteByte(i, b))
    ensures Inv(DoWriteByte(s, i, b))
  {
    hide Mod, BitAnd, Chained, AllStored, Received;
    ReservationSafe(s);
    WriteKeepsStored(s.storage, s.cfg.capacity, s.tape, s.k.read, WriteOffset(s), s.ppc.n, i, b);
  }

  lemma ChainedAppend(t: Tape, bytes: seq<Byte>)
    requires Chained(t) && |bytes| > 0
    ensures var t' := Tape(t.recs + [Rec(t.end, bytes)], t.end + |bytes|);
            Chained(t') && forall i: nat :: i <= |t.recs| ==> t'.Pos(i) == t.Pos(i)
  {}

  lemma StoredAppend(storage: seq<Byte>, cap: nat, t: Tape, from: nat, m: nat)
    requires cap > 0 && AllStored(storage, cap, t, from) && Mod(t.end, cap) + m <= |storage|
    ensures var off := Mod(t.end, cap);
            AllStored(storage, cap, Tape(t.recs + [Rec(t.end, storage[off..off + m])], t.end + m), from)
  {}

  lemma ReceivedAppend(t: Tape, read: nat, seen: nat, b: Inbox, r: Rec, end: nat)
    requires Received(t, read, seen, b)
    ensures Received(Tape(t.recs + [r], end), read, seen, b)
  {}

  lemma WrappedFinishWrite(s: Ring, m: nat)
    requires Inv(s) && Enabled(s, FinishWrite(m))
    ensures Wrapped(DoFinishWrite(s, m))
  {
    hide Mod, BitAnd, AllStored, Received, Reserved;
    WrapAdd(s.tape.end, m, s.cfg.modulus);
    if m > 0 { ChainedAppend(s.tape, s.storage[WriteOffset(s)..WriteOffset(s) + m]); }
  }

  lemma KeepsFinishWrite(s: Ring, m: nat)
    requires Inv(s) && Enabled(s, FinishWrite(m))
    ensures Inv(DoFinishWrite(s, m))
  {
    hide Mod, BitAnd, Wrapped, Received, AllStored;
    WrappedFinishWrite(s, m);
    if m > 0 {
      var bytes := s.storage[WriteOffset(s)..WriteOffset(s) + m];
      OffsetsExact(s);
      ChainedAppend(s.tape, bytes);
      StoredAppend(s.storage, s.cfg.capacity, s.tape, s.k.read, m);
      ReceivedAppend(s.tape, s.k.read, s.k.writerSeen, s.inbox, Rec(s.tape.end, bytes), s.tape.end + m);
    }
  }

  lemma KeepsCommitWrite(s: Ring)
    requires Inv(s)
    ensures Inv(DoCommitWrite(s))
  {
    hide Mod, BitAnd, AllStored, Received, Chained;
  }

  lemma KeepsCheckEmpty(s: Ring)
    requires Inv(s)
    ensures Inv(DoCheckEmpty(s))
  {
    hide Mod, BitAnd, Chained, AllStored;
    EmptinessExact(s);
  }

  lemma KeepsLoadWriter(s: Ring)
    requires Inv(s)
    ensures Inv(DoLoadWriter(s))
  {
    hide Mod, BitAnd, Chained, AllStored;
    EmptinessExact(s);
  }

  lemma StoredByte(storage: seq<Byte>, cap: nat, r: Rec, j: nat)
    requires cap > 0 && Stored(storage, cap, r) && j < |r.bytes|
    ensures storage[Mod(r.start, cap) + j] == r.bytes[j]
  {
    var off := Mod(r.start, cap);
    assert storage[off + j] == storage[off..off + |r.bytes|][j];
  }

  lemma KeepsReadByte(s: Ring)
    requires Inv(s) && Enabled(s, ReadByte)
    ensures Inv(DoReadByte(s))
  {
    hide Mod, BitAnd, Chained;
    OffsetsExact(s);
    assert Stored(s.storage, s.cfg.capacity, s.tape.recs[s.k.read]);
    hide AllStored, Stored;
    StoredByte(s.storage, s.cfg.capacity, s.tape.recs[s.k.read], |s.inbox.got|);
  }

  lemma ReceivedNext(t: Tape, read: nat, seen: nat, b: Inbox)
    requires Received(t, read, seen, b) && read < |t.recs| && |b.got| == |t.recs[read].bytes| > 0
    ensures Received(t, read + 1, seen, Inbox(b.log + [b.got], []))
  {}

  lemma WrappedFinishRead(s: Ring, m: nat)
    requires Inv(s) && Enabled(s, FinishRead(m))
    ensures Wrapped(DoFinishRead(s, m))
  {
    hide Mod, BitAnd, AllStored, Reserved;
    WrapAdd(s.tape.Pos(s.k.read), m, s.cfg.modulus);
  }

  lemma KeepsFinishRead(s: Ring, m: nat)
    requires Inv(s) && Enabled(s, FinishRead(m))
    ensures Inv(DoFinishRead(s, m))
  {
    hide Mod, BitAnd, Wrapped, Received;
    WrappedFinishRead(s, m);
    ReceivedNext(s.tape, s.k.read, s.k.writerSeen, s.inbox);
  }

  lemma KeepsCommitRead(s: Ring)
    requires Inv(s)
    ensures Inv(DoCommitRead(s))
  {
    hide Mod, BitAnd, Chained, AllStored, Received;
  }

  /** Every step of either thread keeps the invariant. */
  lemma StepKeepsInv(s: Ring, step: Step)
    requires Inv(s) && Enabled(s, step)
    ensures Inv(Apply(s, step))
  {
    hide Inv;
    match step
    case PrepareWrite(n) => KeepsReservation(s, n, PReload(n));
    case LoadReader => KeepsLoadReader(s);
    case ReserveCached(n) => KeepsReservation(s, n, PRefused);
    case WriteByte(i, b) => KeepsWriteByte(s, i, b);
    case FinishWrite(m) => KeepsFinishWrite(s, m);
    case CommitWrite => KeepsCommitWrite(s);
    case CheckEmpty => KeepsCheckEmpty(s);
    case LoadWriter => KeepsLoadWriter(s);
    case ReadByte => KeepsReadByte(s);
    case FinishRead(m) => KeepsFinishRead(s, m);
    case CommitRead => KeepsCommitRead(s);
  }

  // ---- Whole runs ----------------------------------------------------------------------------

  /** A run: a fresh queue followed by any interleaving of enabled steps. */
  ghost predicate IsRun(c: Config, run: seq<Ring>, steps: seq<Step>) {
    && c.Valid()
    && |run| == |steps| + 1
    && run[0] == Fresh(c)
    && forall i :: 0 <= i < |steps| ==> Enabled(run[i], steps[i]) && run[i + 1] == Apply(run[i], steps[i])
  }

  function Payloads(recs: seq<Rec>): (p: seq<seq<Byte>>)
    ensures |p| == |recs|
  {
    seq(|recs|, i requires 0 <= i < |recs| => recs[i].bytes)
  }

  /**
   What the queue promises in one state: the consumer has received a prefix of the committed
   records, byte for byte, plus a prefix of the next one; every unread record is contiguous in
   the storage and outside the range the producer is writing.
   */
  ghost predicate Safe(s: Ring) {
    && s.cfg.capacity > 0
    && s.k.committed <= |s.tape.recs|
    && s.inbox.log <= Payloads(s.tape.recs[..s.k.committed])
    && (s.inbox.got != [] ==>
          |s.inbox.log| < s.k.committed && s.inbox.got <= s.tape.recs[|s.inbox.log|].bytes)
    && AllStored(s.storage, s.cfg.capacity, s.tape, |s.inbox.log|)
    && (s.ppc.PReserved? ==>
          && WriteOffset(s) + s.ppc.n <= |s.storage|
          && forall i :: |s.inbox.log| <= i < |s.tape.recs| ==>
               Apart(WriteOffset(s), s.ppc.n, s.cfg.capacity, s.tape.recs[i]))
  }

  lemma InvSafe(s: Ring)
    requires Inv(s)
    ensures Safe(s)
  {
    if s.ppc.PReserved? { ReservationSafe(s); }
  }

  lemma {:induction false} RunInv(c: Config, run: seq<Ring>, steps: seq<Step>, k: nat)
    requires IsRun(c, run, steps) && k < |run|
    ensures Inv(run[k])
  {
    hide Inv, Apply, Enabled;
    if k == 0 {
      FreshInv(c);
    } else {
      RunInv(c, run, steps, k - 1);
      StepKeepsInv(run[k - 1], steps[k - 1]);
    }
  }

  /** In every interleaving, every state of every run is safe. */
  lemma EveryRunIsFifo(c: Config, run: seq<Ring>, steps: seq<Step>)
    requires IsRun(c, run, steps)
    ensures forall k :: 0 <= k < |run| ==> Safe(run[k])
  {
    forall k | 0 <= k < |run| ensures Safe(run[k]) {
      RunInv(c, run, steps, k);
      InvSafe(run[k]);
    }
  }

  // ---- Exact refusals and progress -----------------------------------------------------------

  /** Neither thread ever waits for the other: the next step of a call under way is always open. */
  lemma CanStep(s: Ring, n: nat)
    requires Inv(s)
    ensures if s.ppc.PReload? then Enabled(s, LoadReader)
            else Enabled(s, CommitWrite) && (n < s.cfg.modulus ==> Enabled(s, PrepareWrite(n)) && Enabled(s, ReserveCached(n)))
    ensures s.ppc.PReserved? && n <= s.ppc.n ==> Enabled(s, FinishWrite(n))
    ensures s.ppc.PReserved? && n < s.ppc.n ==> forall b :: Enabled(s, WriteByte(n, b))
    ensures if s.cpc.CReload? then Enabled(s, LoadWriter) else Enabled(s, CheckEmpty) && Enabled(s, CommitRead)
    ensures s.cpc.CReading? ==>
              s.k.read < |s.tape.recs| && |s.inbox.got| <= |s.tape.recs[s.k.read].bytes| &&
              if |s.inbox.got| < |s.tape.recs[s.k.read].bytes| then Enabled(s, ReadByte) else Enabled(s, FinishRead(|s.inbox.got|))
  {
    hide BitAnd, Mod, AllStored;
    InvTyped(s);
    if s.ppc.PReserved? { ReservationSafe(s); }
    if s.cpc.CReading? { ReadFits(s); }
  }

  lemma ReadFits(s: Ring)
    requires Inv(s) && s.cpc.CReading?
    ensures s.k.read < |s.tape.recs| && ReadOffset(s) + |s.tape.recs[s.k.read].bytes| <= |s.storage|
  {
    hide BitAnd, Mod;
    OffsetsExact(s);
    assert Stored(s.storage, s.cfg.capacity, s.tape.recs[s.k.read]);
  }

  /** prepare_write returns null exactly when the released space is too small. */
  lemma RefusedIffFull(s: Ring)
    requires Inv(s) && s.ppc.PReload?
    ensures DoLoadReader(s).ppc ==
              if s.tape.Pos(s.k.published) + s.cfg.capacity < s.tape.end + s.ppc.n then PRefused else PReserved(s.ppc.n)
  {
    KeepsReload(s);
    FreeBytesExact(Reloaded(s));
  }

  /**
   commit_read releases everything read exactly after a full batch of bytes, or when the consumer has
   read all it knows of; otherwise the producer sees what it saw before.
   */
  lemma CommitReadExact(s: Ring)
    requires Inv(s)
    ensures Typed(s) && s.k.published <= s.k.read
    ensures var full := s.tape.Pos(s.k.read) - s.tape.Pos(s.k.published) >= s.cfg.batch;
            DoCommitRead(s).k == if full || s.k.read == s.k.writerSeen then s.k.(published := s.k.read) else s.k
    ensures DoCommitRead(s).atomicReaderPos == Mod(s.tape.Pos(DoCommitRead(s).k.published), s.cfg.modulus)
  {
    LagExact(s);
    EmptinessExact(s);
  }

  /** prepare_read returns null exactly when nothing committed is unread at the load. */
  lemma NullReadIffDrained(s: Ring)
    requires Inv(s)
    ensures DoLoadWriter(s).cpc == (if s.k.read == s.k.committed then CEmpty else CReading)
  {
    EmptinessExact(s);
  }

  /** prepare_write run without interference: the cached check, and the load when it fails. */
  function PrepareWriteCall(s: Ring, n: nat): Ring
    requires Enabled(s, PrepareWrite(n))
  {
    var t := s.(ppc := AfterCheck(s, n, PReload(n)));
    if t.ppc.PReload? then DoLoadReader(t) else t
  }

  /**
   prepare_write, from the cached position or after the load, grants exactly the requests that fit
   the released space; prepare_write_reserve_cached those that fit what the producer knows of it.
   */
  lemma PrepareWriteExact(s: Ring, n: nat)
    requires Inv(s) && !s.ppc.PReload? && n < s.cfg.modulus
    ensures Enabled(s, PrepareWrite(n)) && Enabled(s, ReserveCached(n))
    ensures var fits := s.tape.end + n <= s.tape.Pos(s.k.published) + s.cfg.capacity;
            PrepareWriteCall(s, n).ppc == if fits then PReserved(n) else PRefused
    ensures var known := s.tape.end + n <= s.tape.Pos(s.k.readerSeen) + s.cfg.capacity;
            Apply(s, ReserveCached(n)) == s.(ppc := if known then PReserved(n) else PRefused)
  {
    hide BitAnd, Mod, AllStored, Received;
    InvTyped(s);
    FreeBytesExact(s);
    Window(s, s.k.readerSeen, s.k.published);
    KeepsReservation(s, n, PReload(n));
    var t := s.(ppc := AfterCheck(s, n, PReload(n)));
    if t.ppc.PReload? { RefusedIffFull(t); }
  }

  /** prepare_read run without interference: the cached check, and the load when it looks empty. */
  function PrepareReadCall(s: Ring): Ring {
    var t := DoCheckEmpty(s);
    if t.cpc.CReload? then DoLoadWriter(t) else t
  }

  /**
   The producer never sticks: once the consumer has read every finished record and called
   commit_read, any write of at most the capacity is granted.
   */
  lemma DrainedQueueAcceptsAnyFit(s: Ring, n: nat)
    requires Inv(s) && s.k.read == |s.tape.recs|
    requires n <= s.cfg.capacity && !s.ppc.PReload?
    ensures Enabled(DoCommitRead(s), PrepareWrite(n)) && PrepareWriteCall(DoCommitRead(s), n).ppc == PReserved(n)
  {
    EmptinessExact(s);
    KeepsCommitRead(s);
    var t := DoCommitRead(s);
    var u := t.(ppc := AfterCheck(t, n, PReload(n)));
    KeepsReservation(t, n, PReload(n));
    if u.ppc.PReload? { RefusedIffFull(u); }
  }
}
