/**
 The double-buffered version lock of quill/include/quill/backend/RdtscClock.h: one writer publishes
 (wall time, tsc) pairs into two alternating slots, a reader loads version, tsc, time and re-checks
 the version. Every load and store is a step; the version word wraps at 2^32.
 */
module Clock {
  import opened Bits

  const VERSION_MODULUS: nat := 0x1_0000_0000

  datatype Base = Base(time: int, tsc: nat)

  datatype WriterPc =
    | WIdle
    | WTimeStored(next: Base)   // base_time of the other slot is written
    | WTscStored(next: Base)    // both fields of the other slot are written

  /** `ver` is the unwrapped version the reader loaded; `word` is what it saw. */
  datatype ReaderPc =
    | RIdle
    | RVersion(word: nat, ver: nat)
    | RTsc(word: nat, ver: nat, tsc: nat)
    | RBoth(word: nat, ver: nat, base: Base)
    | RZero                                    // unset clock, returned without a re-check
    | RReturned(base: Base, ver: nat)          // the re-check passed

  /** `published` lists every pair ever published; entry 0 is the zero-initialised slot. */
  datatype State = State(
    word: nat,
    slots: seq<Base>,
    w: WriterPc,
    r: ReaderPc,
    published: seq<Base>)
  {
    function Version(): int { |published| - 1 }
  }

  datatype Step =
    | StoreTime(next: Base)
    | StoreTsc
    | Publish
    | LoadVersion
    | LoadTsc
    | LoadTime
    | Recheck

  /** `version & (_base.size() - 1)`. */
  function Index(word: nat): nat { BitAnd(word, 1) }

  /** The slot the writer fills: `(version + 1) & 1` on the wrapped word. */
  function OtherIndex(word: nat): nat { Index(Mod(word + 1, VERSION_MODULUS)) }

  predicate Enabled(s: State, a: Step) {
    && |s.slots| == 2 && Index(s.word) < 2 && OtherIndex(s.word) < 2
    && match a
       case StoreTime(_) => s.w.WIdle?
       case StoreTsc => s.w.WTimeStored?
       case Publish => s.w.WTscStored?
       case LoadVersion => s.r.RIdle? || s.r.RZero? || s.r.RReturned?
       case LoadTsc => s.r.RVersion? && Index(s.r.word) < 2
       case LoadTime => s.r.RTsc? && Index(s.r.word) < 2
       case Recheck => s.r.RBoth?
  }

  function Apply(s: State, a: Step): State
    requires Enabled(s, a)
  {
    match a
    case StoreTime(next) =>
      var i := OtherIndex(s.word);
      s.(slots := s.slots[i := s.slots[i].(time := next.time)], w := WTimeStored(next))
    case StoreTsc =>
      var i := OtherIndex(s.word);
      s.(slots := s.slots[i := s.slots[i].(tsc := s.w.next.tsc)], w := WTscStored(s.w.next))
    case Publish =>
      s.(word := Mod(s.word + 1, VERSION_MODULUS), published := s.published + [s.w.next], w := WIdle)
    case LoadVersion => if s.published == [] then s else s.(r := RVersion(s.word, |s.published| - 1))
    case LoadTsc => s.(r := RTsc(s.r.word, s.r.ver, s.slots[Index(s.r.word)].tsc))
    case LoadTime =>
      var base := Base(s.slots[Index(s.r.word)].time, s.r.tsc);
      s.(r := if base == Base(0, 0) then RZero else RBoth(s.r.word, s.r.ver, base))
    case Recheck =>
      // on a mismatch the loop starts again
      s.(r := if s.r.word == s.word then RReturned(s.r.base, s.r.ver) else RIdle)
  }

  function Initial(): State {
    State(0, [Base(0, 0), Base(0, 0)], WIdle, RIdle, [Base(0, 0)])
  }

  // ---- Invariant -------------------------------------------------------------------------------

  ghost predicate WriterOk(s: State)
    requires |s.slots| == 2 && OtherIndex(s.word) < 2
  {
    var other := s.slots[OtherIndex(s.word)];
    && (s.w.WTimeStored? ==> other.time == s.w.next.time)
    && (s.w.WTscStored? ==> other == s.w.next)
  }

  /** A reader that loaded the current version has only seen the pair published under it. */
  ghost predicate ReaderOk(r: ReaderPc, published: seq<Base>) {
    match r
    case RIdle => true
    case RZero => true
    case RVersion(word, ver) => ver < |published| && word == Mod(ver, VERSION_MODULUS)
    case RTsc(word, ver, tsc) =>
      ver < |published| && word == Mod(ver, VERSION_MODULUS) && (ver + 1 == |published| ==> tsc == published[ver].tsc)
    case RBoth(word, ver, base) =>
      ver < |published| && word == Mod(ver, VERSION_MODULUS) && (ver + 1 == |published| ==> base == published[ver])
    case RReturned(_, _) => true
  }

  ghost predicate Inv(s: State) {
    && |s.slots| == 2 && |s.published| > 0
    && s.word == Mod(|s.published| - 1, VERSION_MODULUS)
    && {Index(s.word), OtherIndex(s.word)} == {0, 1}
    && s.slots[Index(s.word)] == s.published[|s.published| - 1]
    && WriterOk(s)
    && ReaderOk(s.r, s.published)
  }

  lemma VersionModulus()
    ensures Pow2(32) == VERSION_MODULUS && Pow2(1) == 2
  {
    Pow2ThirtyTwo();
  }

  /** Consecutive versions use different slots, also across the wrap of the version word. */
  lemma IndexesAlternate(ver: nat)
    ensures Index(Mod(ver, VERSION_MODULUS)) == Mod(ver, 2)
    ensures OtherIndex(Mod(ver, VERSION_MODULUS)) == Mod(ver + 1, 2)
    ensures Mod(ver, 2) + Mod(ver + 1, 2) == 1
  {
    VersionModulus();
    MaskWrapped(ver, 1, 32);
    MaskWrapped(ver + 1, 1, 32);
    WrapAdd(ver, 1, VERSION_MODULUS);
    Alternates(ver);
    hide Mod, BitAnd, Pow2;
  }

  lemma {:induction false} Alternates(ver: nat)
    ensures Mod(ver, 2) + Mod(ver + 1, 2) == 1
  {
    if ver >= 2 { Alternates(ver - 2); }
  }

  lemma InitialInv()
    ensures Inv(Initial())
  {
    hide Mod, BitAnd;
    IndexesAlternate(0);
    ModZero();
  }

  lemma ModZero()
    ensures Mod(0, VERSION_MODULUS) == 0
  {}

  lemma KeepsWriter(s: State, a: Step)
    requires Inv(s) && Enabled(s, a) && (a.StoreTime? || a.StoreTsc?)
    ensures Inv(Apply(s, a))
  {
    hide Mod, Index, OtherIndex, ReaderOk;
  }

  lemma KeepsPublish(s: State)
    requires Inv(s) && Enabled(s, Publish)
    ensures Inv(Apply(s, Publish))
  {
    hide Mod, BitAnd;
    IndexesAlternate(|s.published| - 1);
    IndexesAlternate(|s.published|);
    WrapAdd(|s.published| - 1, 1, VERSION_MODULUS);
    var t := Apply(s, Publish);
    assert Index(t.word) == OtherIndex(s.word);
  }

  /** Versions fewer than 2^32 apart are equal exactly when their words are. */
  lemma SameWordSameVersion(ver: nat, now: nat)
    requires ver <= now && now - ver < VERSION_MODULUS
    ensures Mod(ver, VERSION_MODULUS) == Mod(now, VERSION_MODULUS) <==> ver == now
  {
    WrapEq(now, ver, VERSION_MODULUS);
  }

  lemma KeepsReader(s: State, a: Step)
    requires Inv(s) && Enabled(s, a) && (a.LoadVersion? || a.LoadTsc? || a.LoadTime? || a.Recheck?)
    ensures Inv(Apply(s, a))
  {
    hide Mod, Index, OtherIndex;
  }

  lemma StepKeepsInv(s: State, a: Step)
    requires Inv(s) && Enabled(s, a)
    ensures Inv(Apply(s, a))
  {
    hide Inv, Apply, Enabled;
    match a
    case StoreTime(_) => KeepsWriter(s, a);
    case StoreTsc => KeepsWriter(s, a);
    case Publish => KeepsPublish(s);
    case LoadVersion => KeepsReader(s, a);
    case LoadTsc => KeepsReader(s, a);
    case LoadTime => KeepsReader(s, a);
    case Recheck => KeepsReader(s, a);
  }

  ghost predicate IsRun(run: seq<State>, steps: seq<Step>) {
    && |run| == |steps| + 1
    && run[0] == Initial()
    && forall i :: 0 <= i < |steps| ==> Enabled(run[i], steps[i]) && run[i + 1] == Apply(run[i], steps[i])
  }

  lemma {:induction false} RunInv(run: seq<State>, steps: seq<Step>, k: nat)
    requires IsRun(run, steps) && k < |run|
    ensures Inv(run[k])
  {
    hide Inv, Apply, Enabled;
    if k == 0 {
      InitialInv();
    } else {
      RunInv(run, steps, k - 1);
      StepKeepsInv(run[k - 1], steps[k - 1]);
    }
  }

  /**
   In every interleaving with fewer than 2^32 publications during the read, a value returned after
   the re-check comes from one published pair, which is the current one at the re-check.
   */
  lemma ReturnedPairIsCurrent(run: seq<State>, steps: seq<Step>, k: nat)
    requires IsRun(run, steps) && k < |steps| && steps[k].Recheck?
    requires run[k].r.RBoth? && run[k].Version() - run[k].r.ver < VERSION_MODULUS
    ensures run[k].published != []
    ensures run[k + 1].r.RReturned? ==>
              run[k + 1].r == RReturned(run[k].published[|run[k].published| - 1], run[k].Version())
    ensures run[k + 1].r.RReturned? <==> run[k].r.ver == run[k].Version()
  {
    hide Mod, BitAnd;
    RunInv(run, steps, k);
    SameWordSameVersion(run[k].r.ver, run[k].Version());
    assert run[k + 1] == Apply(run[k], steps[k]);
  }

  /** Without the bound, the re-check passes exactly when a multiple of 2^32 publications intervened. */
  lemma RecheckPassesIff(s: State)
    requires Inv(s) && s.r.RBoth?
    ensures Enabled(s, Recheck) && s.r.ver <= s.Version()
    ensures Apply(s, Recheck).r.RReturned? <==> Mod(s.Version() - s.r.ver, VERSION_MODULUS) == 0
  {
    hide Mod, Index, OtherIndex;
    EqualModIff(s.r.ver, s.Version(), VERSION_MODULUS);
  }

  lemma {:induction false} EqualModIff(a: nat, b: nat, m: nat)
    requires a <= b && m > 0
    ensures Mod(a, m) == Mod(b, m) <==> Mod(b - a, m) == 0
    decreases b
  {
    if b - a >= m {
      EqualModIff(a, b - m, m);
    } else {
      WrapEq(b, a, m);
    }
  }

  /** Writer and reader never wait for one another. */
  lemma CanStep(s: State, next: Base)
    requires Inv(s)
    ensures match s.w
            case WIdle => Enabled(s, StoreTime(next))
            case WTimeStored(_) => Enabled(s, StoreTsc)
            case WTscStored(_) => Enabled(s, Publish)
    ensures match s.r
            case RVersion(_, _) => Enabled(s, LoadTsc)
            case RTsc(_, _, _) => Enabled(s, LoadTime)
            case RBoth(_, _, _) => Enabled(s, Recheck)
            case _ => Enabled(s, LoadVersion)
  {
    hide Mod, BitAnd;
    IndexBounds(s);
    WordIndexes(s);
  }

  lemma WordIndexes(s: State)
    requires Inv(s)
    ensures s.r.RVersion? || s.r.RTsc? ==> Index(s.r.word) < 2
  {
    hide Mod, BitAnd;
    if s.r.RVersion? || s.r.RTsc? { IndexesAlternate(s.r.ver); }
  }

  /** The reader gives up for an unset clock exactly when both words it loaded are 0. */
  lemma UnsetIff(s: State)
    requires Inv(s) && Enabled(s, LoadTime)
    ensures Apply(s, LoadTime).r.RZero? <==> s.r.tsc == 0 && s.slots[Index(s.r.word)].time == 0
    ensures !Apply(s, LoadTime).r.RZero? ==>
              Apply(s, LoadTime).r == RBoth(s.r.word, s.r.ver, Base(s.slots[Index(s.r.word)].time, s.r.tsc))
  {
    hide Inv, Index, OtherIndex;
  }

  /** The steps of one turn of the reader, run without a publication in between. */
  function ReadCall(s: State): State
    requires Inv(s) && s.r.RIdle?
  {
    IndexBounds(s);
    var t := Apply(Apply(s, LoadVersion), LoadTsc);
    var u := Apply(t, LoadTime);
    if u.r.RZero? then u else Apply(u, Recheck)
  }

  /** Undisturbed, the reader returns the current pair, or finds the clock unset if that is what it is. */
  lemma UndisturbedRead(s: State)
    requires Inv(s) && s.r.RIdle?
    ensures s.published != []
    ensures var current := s.published[|s.published| - 1];
            ReadCall(s) == s.(r := if current == Base(0, 0) then RZero else RReturned(current, s.Version()))
  {
    hide Mod, Index, OtherIndex;
  }

  // ---- Rounding-free average -------------------------------------------------------------------

  /** `_fast_average`. */
  function FastAverage(x: nat, y: nat): nat {
    BitAnd(x, y) + BitXor(x, y) / 2
  }

  lemma {:induction false} SumByBits(x: nat, y: nat)
    ensures x + y == 2 * BitAnd(x, y) + BitXor(x, y)
    decreases x + y
  {
    if x + y == 0 {
    } else {
      SumByBits(x / 2, y / 2);
    }
  }

  /** The bit form is the exact average rounded down, so it lies between its arguments and fits their word. */
  lemma FastAverageExact(x: nat, y: nat)
    ensures FastAverage(x, y) == (x + y) / 2
    ensures x <= y ==> x <= FastAverage(x, y) <= y
  {
    hide BitAnd, BitXor;
    SumByBits(x, y);
  }

  // ---- The writer as an object -----------------------------------------------------------------

  /** One attempt of resync: tsc before, wall time, tsc after. */
  datatype Reading = Reading(beg: nat, wall: int, end: nat)

  const MAX_ATTEMPTS: nat := 4
  const WORD: nat := 0x1_0000_0000_0000_0000
  const MAX_INT64: int := 0x7FFF_FFFF_FFFF_FFFF

  predicate Tight(r: Reading, lag: nat)
    requires r.beg < WORD && r.end < WORD
  {
    SubMod(r.end, r.beg, WORD) <= lag
  }

  /** Below the lag, for a counter that did not pass its word; the constants are those of 64-bit words. */
  lemma TightExact(r: Reading, lag: nat)
    requires r.beg <= r.end < WORD
    ensures Tight(r, lag) <==> r.end - r.beg <= lag
    ensures WORD == Pow2(64) && MAX_INT64 == Pow2(63) - 1
  {
    WordConstants();
  }

  class RdtscClock {
    var version: nat
    var bases: seq<Base>
    var resyncIntervalTicks: int
    const resyncIntervalOriginal: int
    ghost var published: seq<Base>

    ghost function View(): State
      reads this
    {
      State(version, bases, WIdle, RIdle, published)
    }

    ghost predicate Valid()
      reads this
    {
      Inv(View()) && 0 <= resyncIntervalTicks <= MAX_INT64 && 0 <= resyncIntervalOriginal <= MAX_INT64
    }

    constructor (interval: int)
      requires 0 <= interval <= MAX_INT64
      ensures Valid() && View() == Initial() && resyncIntervalOriginal == interval
    {
      version, bases, published := 0, [Base(0, 0), Base(0, 0)], [Base(0, 0)];
      resyncIntervalTicks, resyncIntervalOriginal := interval, interval;
      new;
      InitialInv();
    }

    /**
     resync: the first of at most four attempts within the lag is published as one new pair;
     when none is, nothing is published and the interval is doubled unless that would overflow.
     */
    method Resync(readings: seq<Reading>, lag: nat) returns (ok: bool)
      requires Valid() && |readings| == 4
      requires forall i :: 0 <= i < |readings| ==> readings[i].beg < WORD && readings[i].end < WORD
      modifies this
      ensures Valid()
      ensures ok <==> exists i :: 0 <= i < |readings| && Tight(readings[i], lag)
      ensures ok ==> exists i :: 0 <= i < |readings| && Tight(readings[i], lag)
                                && (forall j :: 0 <= j < i ==> !Tight(readings[j], lag))
                                && published == old(published) + [Base(readings[i].wall, (readings[i].beg + readings[i].end) / 2)]
                                && resyncIntervalTicks == resyncIntervalOriginal
      ensures !ok ==> View() == old(View())
      ensures !ok ==> resyncIntervalTicks == if old(resyncIntervalTicks) <= MAX_INT64 / 2 then 2 * old(resyncIntervalTicks) else old(resyncIntervalTicks)
    {
      hide Inv, BitAnd, BitXor, Mod, FastAverage;
      for attempt := 0 to MAX_ATTEMPTS
        invariant View() == old(View()) && resyncIntervalTicks == old(resyncIntervalTicks) && Valid()
        invariant forall j :: 0 <= j < attempt ==> !Tight(readings[j], lag)
      {
        var r := readings[attempt];
        if SubMod(r.end, r.beg, WORD) <= lag {
          assert Tight(r, lag);
          var next := Base(r.wall, FastAverage(r.beg, r.end));
          FastAverageExact(r.beg, r.end);
          PublishesOne(View(), next);
          var i := OtherIndex(version);
          bases := bases[i := bases[i].(time := next.time)];
          bases := bases[i := bases[i].(tsc := next.tsc)];
          version, published := Mod(version + 1, VERSION_MODULUS), published + [next];
          resyncIntervalTicks := resyncIntervalOriginal;
          assert View() == PublishCall(old(View()), next);
          return true;
        }
      }
      if resyncIntervalTicks <= MAX_INT64 / 2 {
        resyncIntervalTicks := 2 * resyncIntervalTicks;
      }
      ok := false;
    }

    /** The pair in force. */
    ghost function Current(): Base
      reads this
      requires published != []
    {
      published[|published| - 1]
    }

    /**
     time_since_epoch, on the thread that resyncs: the time of the current pair plus the ticks since
     then, converted. Exactly when the interval has passed by the pair found first does it resync,
     and then it counts from the current pair afterwards.
     */
    method TimeSinceEpoch(tsc: nat, convert: int -> int, readings: seq<Reading>, lag: nat) returns (time: int)
      requires Valid() && tsc < WORD && |readings| == 4
      requires forall i :: 0 <= i < |readings| ==> readings[i].beg < WORD && readings[i].end < WORD
      requires forall i :: 0 <= i < |published| ==> published[i].tsc < WORD
      modifies this
      ensures Valid() && published != [] && Current().tsc < WORD
      ensures time == Current().time + convert(Signed(SubMod(tsc, Current().tsc, WORD)))
      ensures old(published) != [] && old(Current()).tsc < WORD
      ensures published != old(published) <==>
              && Signed(SubMod(tsc, old(Current()).tsc, WORD)) > old(resyncIntervalTicks)
              && exists i :: 0 <= i < |readings| && Tight(readings[i], lag)
    {
      hide BitAnd, Mod, Index, OtherIndex, Tight, Signed, SubMod;
      CurrentSlot(View());
      var base := bases[Index(version)];
      var diff := Signed(SubMod(tsc, base.tsc, WORD));
      if diff > resyncIntervalTicks {
        var ok := Resync(readings, lag);
        CurrentSlot(View());
        base := bases[Index(version)];
        diff := Signed(SubMod(tsc, base.tsc, WORD));
      }
      time := base.time + convert(diff);
    }
  }

  lemma CurrentSlot(s: State)
    requires Inv(s)
    ensures s.published != [] && |s.slots| == 2 && Index(s.word) < 2
    ensures s.slots[Index(s.word)] == s.published[|s.published| - 1]
  {
    hide BitAnd, Mod;
    IndexBounds(s);
  }

  /** A 64-bit difference read as a signed number. */
  function Signed(x: nat): int
    requires x < WORD
  {
    if x <= MAX_INT64 then x else x - WORD
  }

  /** Before the wrap at half a word, the signed difference of two counters is their difference. */
  lemma SignedDifference(a: nat, b: nat)
    requires a < WORD && b < WORD && -MAX_INT64 - 1 <= a - b <= MAX_INT64
    ensures Signed(SubMod(a, b, WORD)) == a - b
  {}

  /** The three stores of one publication, run without a reader in between. */
  function PublishCall(s: State, next: Base): State
    requires |s.slots| == 2 && OtherIndex(s.word) < 2
  {
    var i := OtherIndex(s.word);
    var t := s.slots[i := s.slots[i].(time := next.time)];
    s.(slots := t[i := t[i].(tsc := next.tsc)], word := Mod(s.word + 1, VERSION_MODULUS), published := s.published + [next])
  }

  lemma PublishesOne(s: State, next: Base)
    requires Inv(s) && s.w.WIdle?
    ensures |s.slots| == 2 && OtherIndex(s.word) < 2 && Inv(PublishCall(s, next))
  {
    hide Inv, BitAnd, Mod;
    IndexBounds(s);
    StepKeepsInv(s, StoreTime(next));
    var t := Apply(s, StoreTime(next));
    StepKeepsInv(t, StoreTsc);
    var u := Apply(t, StoreTsc);
    StepKeepsInv(u, Publish);
    assert Apply(u, Publish) == PublishCall(s, next);
  }

  lemma IndexBounds(s: State)
    requires Inv(s)
    ensures |s.slots| == 2 && Index(s.word) < 2 && OtherIndex(s.word) < 2
  {
    hide BitAnd, Mod, Index, OtherIndex;
    assert Index(s.word) in {0, 1} && OtherIndex(s.word) in {0, 1};
  }
}
