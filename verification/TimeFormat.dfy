/**
 The cached timestamp formatter of quill/include/quill/backend/StringFromTime.h: the preformatted
 string is patched in place and is proved equal to rendering every format part directly.
 */
module TimeFormat {
  import opened Decimals

  datatype FormatType = FH | FM | FS | FI | Fk | Fl | Fs

  datatype Part = Dyn(f: FormatType) | Static(format: string)

  datatype Zone = Gmt | Local

  /**
   The calendar the formatter runs on: the UTC offset in force at a time, and what strftime makes
   of a part that has no time-of-day modifier.
   */
  datatype Calendar = Calendar(zone: Zone, offset: nat -> int, render: (string, nat) -> string)

  const DAY: nat := 86400
  const HALF_DAY: nat := 43200
  const QUARTER_HOUR: nat := 900
  const UINT32: nat := 0x1_0000_0000

  // ---- Direct rendering ------------------------------------------------------------------------

  /** `{:02}` of a number below 100. */
  function ZeroPadded(n: nat): (s: string)
    requires n < 100
    ensures |s| == 2
  {
    [Digit(n / 10), Digit(n % 10)]
  }

  /** `{:2}` of a number below 100. */
  function SpacePadded(n: nat): (s: string)
    requires n < 100
    ensures |s| == 2
  {
    [if n < 10 then ' ' else Digit(n / 10), Digit(n % 10)]
  }

  function TwelveHour(hours: nat): nat {
    if hours == 0 then 12 else if hours > 12 then hours - 12 else hours
  }

  /** Seconds since local midnight. */
  function SecondOfDay(cal: Calendar, t: nat): (s: nat)
    ensures s < DAY
  {
    (t + cal.offset(t)) % DAY
  }

  function Hours(s: nat): nat { s / 3600 }
  function Minutes(s: nat): nat { (s - s / 3600 * 3600) / 60 }
  function Seconds(s: nat): nat { s - s / 3600 * 3600 - (s - s / 3600 * 3600) / 60 * 60 }

  function RenderType(f: FormatType, hours: nat, minutes: nat, seconds: nat, t: nat): (r: string)
    requires hours < 24 && minutes < 60 && seconds < 60
    ensures !f.Fs? ==> |r| == 2
  {
    match f
    case FH => ZeroPadded(hours)
    case FM => ZeroPadded(minutes)
    case FS => ZeroPadded(seconds)
    case FI => ZeroPadded(TwelveHour(hours))
    case Fk => SpacePadded(hours)
    case Fl => SpacePadded(TwelveHour(hours))
    case Fs => Decimal(t)
  }

  lemma ClockBounds(s: nat)
    requires s < DAY
    ensures Hours(s) < 24 && Minutes(s) < 60 && Seconds(s) < 60
  {}

  /** Hours, minutes and seconds make up the second of the day. */
  lemma ClockParts(s: nat)
    requires s < DAY
    ensures s == 3600 * Hours(s) + 60 * Minutes(s) + Seconds(s)
    ensures Hours(s) < 24 && Minutes(s) < 60 && Seconds(s) < 60
  {}

  /** Padded numbers denote their number; only the one-digit ones differ, by their padding. */
  lemma PaddedValue(n: nat)
    requires n < 100
    ensures ValueOf(ZeroPadded(n)) == n && ValueOf(SpacePadded(n)) == n
    ensures ZeroPadded(n)[0] == (if n < 10 then '0' else SpacePadded(n)[0]) && (SpacePadded(n)[0] == ' ' <==> n < 10)
    ensures ZeroPadded(n)[1] == SpacePadded(n)[1] && '0' <= ZeroPadded(n)[1] <= '9' && '0' <= ZeroPadded(n)[0] <= '9'
  {
    hide Digit, ValueOf;
    DigitValue(n / 10);
    DigitValue(n % 10);
    TwoCharacters(ZeroPadded(n));
    TwoCharacters(SpacePadded(n));
    SameDigit(n / 10, 0);
  }

  lemma SameDigit(m: nat, n: nat)
    requires m < 10 && n < 10
    ensures Digit(m) == Digit(n) <==> m == n
    ensures Digit(0) == '0'
  {
    hide Digit;
    DigitValue(m);
    DigitValue(n);
    DigitValue(0);
  }

  lemma TwoCharacters(s: string)
    requires |s| == 2
    ensures ValueOf(s) == 10 * ValueOf([s[0]]) + ValueOf([s[1]])
    ensures forall c :: ValueOf([c]) == if '0' <= c <= '9' then (c - '0') as nat else 0
  {
    assert s[..1] == [s[0]];
    forall c ensures ValueOf([c]) == if '0' <= c <= '9' then (c - '0') as nat else 0 {
      assert [c][..0] == "";
      assert ValueOf("") == 0;
    }
  }

  /** The hour on a clock face. */
  lemma TwelveHourExact(hours: nat)
    requires hours < 24
    ensures 1 <= TwelveHour(hours) <= 12 && TwelveHour(hours) % 12 == hours % 12
  {}

  /** What each modifier shows of the seconds since local midnight, and of the epoch. */
  lemma PieceMeans(cal: Calendar, f: FormatType, t: nat)
    ensures var x, shown := (t + cal.offset(t)) % 86400, ValueOf(Piece(cal, Dyn(f), t));
            match f
            case FH => shown == x / 3600
            case FM => shown == x / 60 % 60
            case FS => shown == x % 60
            case FI => 1 <= shown <= 12 && shown % 12 == x / 3600 % 12
            case Fk => shown == x / 3600
            case Fl => 1 <= shown <= 12 && shown % 12 == x / 3600 % 12
            case Fs => shown == t
    ensures var text := Piece(cal, Dyn(f), t);
            match f
            case Fk => |text| == 2 && (text[0] == ' ' <==> ValueOf(text) < 10)
            case Fl => |text| == 2 && (text[0] == ' ' <==> ValueOf(text) < 10)
            case Fs => text == Decimal(t)
            case _ => |text| == 2 && '0' <= text[0] <= '9'
  {
    hide ZeroPadded, SpacePadded, ValueOf, Decimal, Hours, Minutes, Seconds;
    var s := SecondOfDay(cal, t);
    ClockParts(s);
    assert s == 60 * (60 * Hours(s) + Minutes(s)) + Seconds(s);
    assert s / 60 == 60 * Hours(s) + Minutes(s) && s % 60 == Seconds(s) && s / 3600 == Hours(s);
    TwelveHourExact(Hours(s));
    PaddedValue(Hours(s));
    PaddedValue(Minutes(s));
    PaddedValue(Seconds(s));
    PaddedValue(TwelveHour(Hours(s)));
    DecimalRoundTrip(t);
  }

  /** One part rendered on its own, from scratch. */
  function Piece(cal: Calendar, p: Part, t: nat): string {
    match p
    case Static(format) => cal.render(format, t)
    case Dyn(f) =>
      var s := SecondOfDay(cal, t);
      ClockBounds(s);
      RenderType(f, Hours(s), Minutes(s), Seconds(s), t)
  }

  function Pieces(cal: Calendar, parts: seq<Part>, t: nat): (ps: seq<string>)
    ensures |ps| == |parts|
  {
    seq(|parts|, i requires 0 <= i < |parts| => Piece(cal, parts[i], t))
  }

  function Join(ps: seq<string>): string {
    if ps == [] then "" else Join(ps[..|ps| - 1]) + ps[|ps| - 1]
  }

  /** The specification: every part rendered directly. */
  function Direct(cal: Calendar, parts: seq<Part>, t: nat): string {
    Join(Pieces(cal, parts, t))
  }

  /** Where piece i starts. */
  function Start(ps: seq<string>, i: nat): nat
    requires i <= |ps|
  {
    |Join(ps[..i])|
  }

  lemma {:induction false} StartFits(ps: seq<string>, i: nat)
    requires i < |ps|
    ensures Start(ps, i) + |ps[i]| <= |Join(ps)|
    ensures Join(ps)[Start(ps, i)..Start(ps, i) + |ps[i]|] == ps[i]
    decreases |ps|
  {
    if i + 1 < |ps| {
      StartFits(ps[..|ps| - 1], i);
      assert ps[..|ps| - 1][..i] == ps[..i];
    }
  }

  /** Overwriting one piece in place by another of the same width. */
  lemma {:induction false} Patch(ps: seq<string>, i: nat, s: string)
    requires i < |ps| && |s| == |ps[i]|
    ensures Start(ps, i) + |s| <= |Join(ps)|
    ensures Join(ps[i := s]) == Join(ps)[..Start(ps, i)] + s + Join(ps)[Start(ps, i) + |s|..]
    decreases |ps|
  {
    var init := ps[..|ps| - 1];
    if i + 1 == |ps| {
      assert ps[i := s][..i] == init == ps[..i];
    } else {
      Patch(init, i, s);
      assert ps[i := s][..|ps| - 1] == init[i := s];
      assert init[..i] == ps[..i];
      StartFits(ps, i);
    }
  }

  /** Starts only depend on the widths in front. */
  lemma {:induction false} StartSame(ps: seq<string>, qs: seq<string>, i: nat)
    requires i <= |ps| == |qs| && forall j :: 0 <= j < i ==> |ps[j]| == |qs[j]|
    ensures Start(ps, i) == Start(qs, i)
  {
    if i == 0 {
    } else {
      StartSame(ps, qs, i - 1);
      assert ps[..i][..i - 1] == ps[..i - 1] && qs[..i][..i - 1] == qs[..i - 1];
    }
  }

  // ---- Recalculation periods -------------------------------------------------------------------

  /** `_next_quarter_hour_timestamp`. */
  function NextQuarterHour(t: nat): nat { t / QUARTER_HOUR * QUARTER_HOUR + QUARTER_HOUR }

  /** `_next_noon_or_midnight_timestamp`: one second after 11:59:59 or 23:59:59 of the day of t. */
  function NextNoonOrMidnight(t: nat): nat {
    var midnight := t / DAY * DAY;
    var hour := t % DAY / 3600;
    (if hour < 12 then midnight + 11 * 3600 + 59 * 60 + 59 else midnight + 23 * 3600 + 59 * 60 + 59) + 1
  }

  function NextRecalculation(cal: Calendar, t: nat): nat {
    if cal.zone.Local? then NextQuarterHour(t) else NextNoonOrMidnight(t)
  }

  function Period(cal: Calendar): nat { if cal.zone.Local? then QUARTER_HOUR else HALF_DAY }

  lemma NoonOrMidnightExact(t: nat)
    ensures NextNoonOrMidnight(t) == (t / HALF_DAY + 1) * HALF_DAY
  {
    var d, s := t / DAY, t % DAY;
    assert s / 3600 < 12 <==> s < HALF_DAY;
    if s < HALF_DAY {
      assert t / HALF_DAY == 2 * d;
    } else {
      assert t / HALF_DAY == 2 * d + 1;
    }
  }

  /** The next recalculation is the first time after t that lies in another period. */
  lemma NextRecalculationExact(cal: Calendar, t: nat)
    ensures t < NextRecalculation(cal, t) && Period(cal) == if cal.zone.Local? then 15 * 60 else 12 * 60 * 60
    ensures forall u: nat :: t <= u ==> (u < NextRecalculation(cal, t) <==> u / Period(cal) == t / Period(cal))
  {
    hide NextNoonOrMidnight;
    NoonOrMidnightExact(t);
  }

  predicate SamePeriod(cal: Calendar, t: nat, u: nat) { u / Period(cal) == t / Period(cal) }

  /** No local midnight lies between t and u. */
  predicate SameDay(cal: Calendar, t: nat, u: nat)
    requires t <= u
  {
    SecondOfDay(cal, t) + (u - t) < DAY
  }

  /**
   What the formatter assumes of the calendar: GMT has no offset; the offset is constant on each
   period; and so is every static part, as long as no local midnight intervenes.
   */
  ghost predicate Stable(cal: Calendar) {
    && (cal.zone.Gmt? ==> forall t: nat :: cal.offset(t) == 0)
    && (forall t: nat, u: nat :: t <= u && SamePeriod(cal, t, u) ==> cal.offset(t) == cal.offset(u))
    && (forall p: string, t: nat, u: nat :: t <= u && SamePeriod(cal, t, u) && SameDay(cal, t, u) ==>
          cal.render(p, t) == cal.render(p, u))
  }

  /** Within a period the time of day advances with the clock until midnight. */
  lemma SecondOfDayAdvances(cal: Calendar, t: nat, u: nat)
    requires Stable(cal) && t <= u && SamePeriod(cal, t, u)
    ensures SameDay(cal, t, u) ==> SecondOfDay(cal, u) == SecondOfDay(cal, t) + (u - t)
  {
    var x := t + cal.offset(t);
    assert u + cal.offset(u) == x + (u - t);
  }

  lemma DayRest(x: int, days: int, rest: int)
    requires x == DAY * days + rest && 0 <= rest < DAY
    ensures x % DAY == rest
  {}

  /** The second of the day, by whole quarter hours and what is left of one. */
  lemma QuarterSeconds(t: nat, o: int)
    requires o % QUARTER_HOUR == 0
    ensures (t + o) % DAY == 900 * ((t / 900 + o / 900) % 96) + t % 900
  {
    var n, r := t / 900 + o / 900, t % 900;
    assert o == 900 * (o / 900) && t == 900 * (t / 900) + r;
    var days, k := n / 96, n % 96;
    assert n == 96 * days + k;
    DayRest(t + o, days, 900 * k + r);
  }

  /** The second of the day, by half days and what is left of one. */
  lemma HalfDaySeconds(t: nat)
    ensures t % DAY == HALF_DAY * (t / HALF_DAY % 2) + t % HALF_DAY
  {
    var n, r := t / HALF_DAY, t % HALF_DAY;
    var days, k := n / 2, n % 2;
    assert t == HALF_DAY * n + r && n == 2 * days + k;
    DayRest(t, days, HALF_DAY * k + r);
  }

  /** Offsets of whole quarter hours keep midnight on period boundaries: the day never wraps inside one. */
  lemma AlignedNeverWraps(cal: Calendar, t: nat, u: nat)
    requires Stable(cal) && t <= u && SamePeriod(cal, t, u)
    requires cal.zone.Gmt? || cal.offset(t) % QUARTER_HOUR == 0
    ensures SameDay(cal, t, u)
  {
    if cal.zone.Gmt? {
      assert cal.offset(t) == 0;
      HalfDaySeconds(t);
      assert u - t == u % HALF_DAY - t % HALF_DAY;
    } else {
      QuarterSeconds(t, cal.offset(t));
      assert u - t == u % 900 - t % 900;
    }
  }

  // ---- Width of the epoch ----------------------------------------------------------------------

  /** `_decimal_width`. */
  method DecimalWidth(t: nat) returns (width: nat)
    ensures width == |Decimal(t)|
  {
    width := 1;
    var magnitude := t / 10;
    while magnitude != 0
      invariant magnitude >= 0
      invariant width + (if magnitude == 0 then 0 else |Decimal(magnitude)|) == |Decimal(t)|
      decreases magnitude
    {
      width := width + 1;
      magnitude := magnitude / 10;
    }
  }

  // ---- The cached formatter --------------------------------------------------------------------

  predicate HasDynamic(parts: seq<Part>) {
    exists i :: 0 <= i < |parts| && parts[i].Dyn?
  }

  predicate EpochBefore(parts: seq<Part>, n: nat) {
    exists i :: 0 <= i < n && i < |parts| && parts[i] == Dyn(Fs)
  }

  predicate HasEpoch(parts: seq<Part>) { EpochBefore(parts, |parts|) }

  /** The calendar assumption; a format without time of day also needs aligned offsets. */
  ghost predicate Supported(cal: Calendar, parts: seq<Part>) {
    && Stable(cal)
    && (HasDynamic(parts) || cal.zone.Gmt? || forall t: nat :: cal.offset(t) % QUARTER_HOUR == 0)
  }

  type Index = (nat, FormatType)

  /** The cached indexes record exactly the dynamic parts, each at its start; `of` names the parts. */
  ghost predicate Marked(parts: seq<Part>, ps: seq<string>, indexes: seq<Index>, of: seq<nat>, upTo: nat)
    requires |ps| == |parts| && upTo <= |parts|
  {
    && |of| == |indexes|
    && (forall j :: 0 <= j < |of| ==>
          of[j] < upTo && parts[of[j]] == Dyn(indexes[j].1) && indexes[j].0 == Start(ps, of[j]))
    && (forall i :: 0 <= i < upTo && parts[i].Dyn? ==> i in of)
  }

  /** Between two times of one period and day, static pieces agree and dynamic ones keep their width. */
  lemma PiecesAdvance(cal: Calendar, parts: seq<Part>, t: nat, u: nat)
    requires Stable(cal) && t <= u && SamePeriod(cal, t, u) && SameDay(cal, t, u)
    requires HasEpoch(parts) ==> |Decimal(t)| == |Decimal(u)|
    ensures forall i :: 0 <= i < |parts| ==>
              |Pieces(cal, parts, t)[i]| == |Pieces(cal, parts, u)[i]| &&
              (parts[i].Static? ==> Pieces(cal, parts, t)[i] == Pieces(cal, parts, u)[i])
  {
    hide Decimal, SecondOfDay;
    forall i | 0 <= i < |parts|
      ensures |Pieces(cal, parts, t)[i]| == |Pieces(cal, parts, u)[i]|
      ensures parts[i].Static? ==> Pieces(cal, parts, t)[i] == Pieces(cal, parts, u)[i]
    {
      PieceAdvance(cal, parts[i], t, u);
    }
  }

  lemma PieceAdvance(cal: Calendar, p: Part, t: nat, u: nat)
    requires Stable(cal) && t <= u && SamePeriod(cal, t, u) && SameDay(cal, t, u)
    requires p == Dyn(Fs) ==> |Decimal(t)| == |Decimal(u)|
    ensures |Piece(cal, p, t)| == |Piece(cal, p, u)|
    ensures p.Static? ==> Piece(cal, p, t) == Piece(cal, p, u)
  {
    hide Decimal, SecondOfDay, Period, ZeroPadded, SpacePadded;
  }

  class StringFromTime {
    const cal: Calendar
    const parts: seq<Part>
    var cachedIndexes: seq<Index>
    var preFormatted: string
    var nextRecalculation: nat
    var cachedTimestamp: nat
    var cachedSeconds: nat
    var prevHours: nat
    var prevMinutes: nat
    var prevSeconds: nat
    var epochWidth: nat
    ghost var partOf: seq<nat>

    /** The cache describes the cached timestamp. */
    ghost predicate Populated()
      reads this
    {
      var ps := Pieces(cal, parts, cachedTimestamp);
      && preFormatted == Join(ps)
      && Marked(parts, ps, cachedIndexes, partOf, |parts|)
      && cachedSeconds == SecondOfDay(cal, cachedTimestamp)
      && prevHours == Hours(cachedSeconds) && prevMinutes == Minutes(cachedSeconds) && prevSeconds == Seconds(cachedSeconds)
      && epochWidth == (if HasEpoch(parts) then |Decimal(cachedTimestamp)| else 0)
      && nextRecalculation == NextRecalculation(cal, cachedTimestamp)
    }

    ghost predicate Valid()
      reads this
    {
      && Supported(cal, parts)
      && (nextRecalculation == 0 || Populated())
      && (!HasEpoch(parts) ==> epochWidth == 0)
    }

    constructor (cal: Calendar, parts: seq<Part>)
      requires Supported(cal, parts)
      ensures Valid() && this.cal == cal && this.parts == parts
    {
      this.cal, this.parts := cal, parts;
      cachedIndexes, preFormatted, nextRecalculation, cachedTimestamp := [], "", 0, 0;
      cachedSeconds, prevHours, prevMinutes, prevSeconds, epochWidth := 0, 0, 0, 0, 0;
      partOf := [];
    }

    /** The fallback for times before the cached one: every part from scratch. */
    method RenderParts(t: nat) returns (r: string)
      ensures r == Direct(cal, parts, t)
    {
      hide Piece;
      r := "";
      ghost var ps := Pieces(cal, parts, t);
      for i := 0 to |parts|
        invariant r == Join(ps[..i])
      {
        assert ps[..i + 1][..i] == ps[..i];
        r := r + Piece(cal, parts[i], t);
      }
      assert ps[..|parts|] == ps;
    }

    /** `_populate_pre_formatted_string_and_cached_indexes`. */
    method Populate(t: nat)
      requires Valid()
      modifies this
      ensures cachedTimestamp == t
      ensures preFormatted == Join(Pieces(cal, parts, t))
      ensures Marked(parts, Pieces(cal, parts, t), cachedIndexes, partOf, |parts|)
      ensures cachedSeconds == SecondOfDay(cal, t)
      ensures prevHours == Hours(cachedSeconds) && prevMinutes == Minutes(cachedSeconds) && prevSeconds == Seconds(cachedSeconds)
      ensures epochWidth == (if HasEpoch(parts) then |Decimal(t)| else 0)
    {
      hide SecondOfDay, Piece, Decimal, Hours, Minutes, Seconds, Stable, Populated, Marked, Start, EpochBefore;
      preFormatted, cachedIndexes, partOf := "", [], [];
      cachedTimestamp, cachedSeconds := t, SecondOfDay(cal, t);
      prevHours, prevMinutes, prevSeconds := Hours(cachedSeconds), Minutes(cachedSeconds), Seconds(cachedSeconds);
      ghost var ps := Pieces(cal, parts, t);
      ghost var s, h, m, x := cachedSeconds, prevHours, prevMinutes, prevSeconds;
      NothingMarked(parts, ps);
      for i := 0 to |parts|
        invariant preFormatted == Join(ps[..i])
        invariant Marked(parts, ps, cachedIndexes, partOf, i)
        invariant cachedTimestamp == t && cachedSeconds == s && prevHours == h && prevMinutes == m && prevSeconds == x
        invariant EpochBefore(parts, i) ==> epochWidth == |Decimal(t)|
        invariant !HasEpoch(parts) ==> epochWidth == 0
      {
        AppendPart(i, t);
      }
      assert ps[..|parts|] == ps;
    }

    /** One turn of the populating loop: renders a part, and records where it starts if it is dynamic. */
    method AppendPart(i: nat, t: nat)
      requires i < |parts| && preFormatted == Join(Pieces(cal, parts, t)[..i])
      requires Marked(parts, Pieces(cal, parts, t), cachedIndexes, partOf, i)
      requires EpochBefore(parts, i) ==> epochWidth == |Decimal(t)|
      modifies this`preFormatted, this`cachedIndexes, this`partOf, this`epochWidth
      ensures preFormatted == Join(Pieces(cal, parts, t)[..i + 1])
      ensures Marked(parts, Pieces(cal, parts, t), cachedIndexes, partOf, i + 1)
      ensures EpochBefore(parts, i + 1) ==> epochWidth == |Decimal(t)|
      ensures !HasEpoch(parts) ==> epochWidth == old(epochWidth)
    {
      hide SecondOfDay, Piece, Decimal, Marked, Join, Start;
      ghost var ps := Pieces(cal, parts, t);
      var piece := Piece(cal, parts[i], t);
      PieceWidth(cal, parts[i], t);
      JoinNext(ps, i);
      preFormatted := preFormatted + piece;
      if parts[i].Dyn? {
        var width := if parts[i].f.Fs? then |piece| else 2;
        var index := (|preFormatted| - width, parts[i].f);
        MarkedNext(parts, ps, cachedIndexes, partOf, i, index);
        cachedIndexes, partOf := cachedIndexes + [index], partOf + [i];
        if parts[i].f.Fs? { epochWidth := |piece|; }
      } else {
        MarkedNext(parts, ps, cachedIndexes, partOf, i, (0, FH));
      }
    }

    /** The patching loop: every dynamic piece whose component changed is overwritten in place. */
    method PatchIndexes(ghost t: nat, u: nat, hours: nat, minutes: nat, seconds: nat,
                        hoursChanged: bool, minutesChanged: bool, secondsChanged: bool)
      requires preFormatted == Join(Pieces(cal, parts, t))
      requires Marked(parts, Pieces(cal, parts, t), cachedIndexes, partOf, |parts|)
      requires Advances(parts, Pieces(cal, parts, t), Pieces(cal, parts, u))
      requires hours == Hours(SecondOfDay(cal, u)) && minutes == Minutes(SecondOfDay(cal, u)) && seconds == Seconds(SecondOfDay(cal, u))
      requires hoursChanged == (hours != Hours(SecondOfDay(cal, t)))
      requires minutesChanged == (minutes != Minutes(SecondOfDay(cal, t)))
      requires secondsChanged == (seconds != Seconds(SecondOfDay(cal, t)))
      modifies this`preFormatted
      ensures preFormatted == Join(Pieces(cal, parts, u))
    {
      hide SecondOfDay, Piece, Decimal, Marked, Join, Start, Hours, Minutes, Seconds, RenderType, Advances, Patched;
      ghost var olds, news := Pieces(cal, parts, t), Pieces(cal, parts, u);
      ghost var qs := olds;
      PatchedNone(parts, olds, news, partOf);
      MarkedLength(parts, olds, cachedIndexes, partOf);
      ClockBounds(SecondOfDay(cal, u));
      for j := 0 to |cachedIndexes|
        invariant |qs| == |parts| && preFormatted == Join(qs)
        invariant Patched(parts, olds, news, qs, partOf, j)
      {
        MarkedAt(parts, olds, qs, news, cachedIndexes, partOf, j);
        var (at, f) := cachedIndexes[j];
        var piece := RenderType(f, hours, minutes, seconds, u);
        DynPiece(cal, f, u);
        ghost var p := partOf[j];
        if (match f
            case FH | FI | Fk | Fl => hoursChanged
            case FM => minutesChanged
            case FS => secondsChanged
            case Fs => true) {
          Patch(qs, p, piece);
          preFormatted := preFormatted[..at] + piece + preFormatted[at + |piece|..];
        } else {
          UnchangedPiece(cal, f, t, u);
          assert qs[p := piece] == qs;
        }
        PatchedNext(parts, olds, news, qs, partOf, j);
        qs := qs[p := piece];
      }
      PatchedAll(parts, olds, news, qs, cachedIndexes, partOf);
    }

    /** The end of the incremental path: finds the components that changed and patches them. */
    method PatchTime(ghost before: nat, t: nat)
      requires preFormatted == Join(Pieces(cal, parts, before))
      requires Marked(parts, Pieces(cal, parts, before), cachedIndexes, partOf, |parts|)
      requires Advances(parts, Pieces(cal, parts, before), Pieces(cal, parts, t))
      requires cachedSeconds == SecondOfDay(cal, t)
      requires var s := SecondOfDay(cal, before);
               prevHours == Hours(s) && prevMinutes == Minutes(s) && prevSeconds == Seconds(s)
      modifies this`preFormatted, this`prevHours, this`prevMinutes, this`prevSeconds
      ensures preFormatted == Join(Pieces(cal, parts, t))
      ensures Marked(parts, Pieces(cal, parts, t), cachedIndexes, partOf, |parts|)
      ensures prevHours == Hours(cachedSeconds) && prevMinutes == Minutes(cachedSeconds) && prevSeconds == Seconds(cachedSeconds)
    {
      hide SecondOfDay, Piece, Pieces, Join, Hours, Minutes, Seconds, Marked, Advances;
      var hours, minutes, seconds := Hours(cachedSeconds), Minutes(cachedSeconds), Seconds(cachedSeconds);
      var hoursChanged, minutesChanged, secondsChanged := hours != prevHours, minutes != prevMinutes, seconds != prevSeconds;
      prevHours, prevMinutes, prevSeconds := hours, minutes, seconds;
      PatchIndexes(before, t, hours, minutes, seconds, hoursChanged, minutesChanged, secondsChanged);
      MarkedAdvanced(cal, parts, before, t, cachedIndexes, partOf);
    }

    /** Populates anew and sets the next recalculation. */
    method Refresh(t: nat)
      requires Valid()
      modifies this
      ensures Populated() && cachedTimestamp == t && t < nextRecalculation
      ensures !HasEpoch(parts) ==> epochWidth == 0
    {
      hide SecondOfDay, Piece, Decimal, Join, Start, Hours, Minutes, Seconds, Stable, Period, NextRecalculation, Marked, HasEpoch;
      Populate(t);
      nextRecalculation := NextRecalculation(cal, t);
      NextRecalculationExact(cal, t);
    }

    /**
     `format_timestamp`: the same string as rendering every part directly, for any time at or after
     the epoch, also when time steps backwards. It calls itself at most once: only after clearing
     the recalculation time, and a call that finds it cleared does not recurse.
     */
    method FormatTimestamp(t: nat) returns (r: string)
      requires Valid()
      modifies this
      ensures Valid() && r == Direct(cal, parts, t)
      decreases if nextRecalculation == 0 then 0 else 1
    {
      hide SecondOfDay, Piece, Decimal, Join, Start, Hours, Minutes, Seconds, RenderType, Stable, Period, NextRecalculation, Marked, Advances, Pieces, HasEpoch, SamePeriod;
      if t < cachedTimestamp {
        r := RenderParts(t);
        return;
      }
      if t >= nextRecalculation {
        Refresh(t);
      }
      if |cachedIndexes| == 0 {
        StaticStays(cal, parts, cachedTimestamp, t, cachedIndexes, partOf);
        return preFormatted;
      }
      if cachedTimestamp == t {
        return preFormatted;
      }
      ghost var before := cachedTimestamp;
      InPeriod(cal, before, t);
      var diff := t - cachedTimestamp;
      cachedTimestamp := t;
      if epochWidth != 0 {
        var width := DecimalWidth(t);
        if width != epochWidth {
          nextRecalculation := 0;
          r := FormatTimestamp(t);
          return;
        }
      }
      cachedSeconds := (cachedSeconds + diff % UINT32) % UINT32;
      if cachedSeconds >= DAY {
        nextRecalculation := 0;
        r := FormatTimestamp(t);
        return;
      }
      Advanced(cal, parts, before, t);
      PatchTime(before, t);
      r := preFormatted;
    }
  }

  /** Times from the cached one up to the next recalculation share its period. */
  lemma InPeriod(cal: Calendar, t: nat, u: nat)
    requires t <= u < NextRecalculation(cal, t)
    ensures SamePeriod(cal, t, u) && u - t < DAY && NextRecalculation(cal, u) == NextRecalculation(cal, t)
  {
    hide NextNoonOrMidnight;
    NextRecalculationExact(cal, t);
    NoonOrMidnightExact(t);
    NoonOrMidnightExact(u);
  }

  /** A format without dynamic parts is the same throughout a period. */
  lemma StaticStays(cal: Calendar, parts: seq<Part>, t: nat, u: nat, indexes: seq<Index>, of: seq<nat>)
    requires Supported(cal, parts) && t <= u < NextRecalculation(cal, t)
    requires Marked(parts, Pieces(cal, parts, t), indexes, of, |parts|) && indexes == []
    ensures Join(Pieces(cal, parts, t)) == Direct(cal, parts, u)
  {
    hide SecondOfDay, Join, Start, NextRecalculation, Period, Decimal;
    InPeriod(cal, t, u);
    assert forall i :: 0 <= i < |parts| ==> parts[i].Static?;
    AlignedNeverWraps(cal, t, u);
    PiecesAdvance(cal, parts, t, u);
    assert Pieces(cal, parts, t) == Pieces(cal, parts, u);
  }

  /** The incremental path: the time of day advanced by the difference and every width stayed. */
  lemma Advanced(cal: Calendar, parts: seq<Part>, t: nat, u: nat)
    requires Supported(cal, parts) && t <= u && SamePeriod(cal, t, u)
    requires SecondOfDay(cal, t) + (u - t) < DAY
    requires HasEpoch(parts) ==> |Decimal(t)| == |Decimal(u)|
    ensures SecondOfDay(cal, u) == SecondOfDay(cal, t) + (u - t)
    ensures Advances(parts, Pieces(cal, parts, t), Pieces(cal, parts, u))
  {
    hide SecondOfDay, Decimal, Piece, Period, HasEpoch;
    SecondOfDayAdvances(cal, t, u);
    PiecesAdvance(cal, parts, t, u);
  }

  lemma MarkedAdvanced(cal: Calendar, parts: seq<Part>, t: nat, u: nat, indexes: seq<Index>, of: seq<nat>)
    requires Marked(parts, Pieces(cal, parts, t), indexes, of, |parts|)
    requires Advances(parts, Pieces(cal, parts, t), Pieces(cal, parts, u))
    ensures Marked(parts, Pieces(cal, parts, u), indexes, of, |parts|)
  {
    hide Piece, Start;
    forall j | 0 <= j < |of| ensures indexes[j].0 == Start(Pieces(cal, parts, u), of[j]) {
      StartSame(Pieces(cal, parts, t), Pieces(cal, parts, u), of[j]);
    }
  }

  /** Any sequence of times, in any order: each result is the direct rendering. */
  method FormatAll(cal: Calendar, parts: seq<Part>, times: seq<nat>) returns (out: seq<string>)
    requires Supported(cal, parts)
    ensures |out| == |times| && forall i :: 0 <= i < |times| ==> out[i] == Direct(cal, parts, times[i])
  {
    hide Supported, Direct;
    var f := new StringFromTime(cal, parts);
    out := [];
    for i := 0 to |times|
      invariant f.Valid() && fresh(f) && f.cal == cal && f.parts == parts
      invariant |out| == i && forall j :: 0 <= j < i ==> out[j] == Direct(cal, parts, times[j])
    {
      var r := f.FormatTimestamp(times[i]);
      out := out + [r];
    }
  }

  /** Corresponding pieces have the same width, and static ones are equal. */
  ghost predicate Advances(parts: seq<Part>, olds: seq<string>, news: seq<string>)
    requires |olds| == |news| == |parts|
  {
    forall i :: 0 <= i < |parts| ==> |olds[i]| == |news[i]| && (parts[i].Static? ==> olds[i] == news[i])
  }

  /** The first n dynamic pieces are new, the others still old. */
  ghost predicate Patched(parts: seq<Part>, olds: seq<string>, news: seq<string>, qs: seq<string>, of: seq<nat>, n: nat)
    requires |olds| == |news| == |qs| == |parts| && n <= |of|
  {
    forall i :: 0 <= i < |parts| ==>
      && |qs[i]| == |olds[i]| == |news[i]|
      && (qs[i] == olds[i] || qs[i] == news[i])
      && (parts[i].Static? || i in of[..n] ==> qs[i] == news[i])
  }

  lemma PatchedNone(parts: seq<Part>, olds: seq<string>, news: seq<string>, of: seq<nat>)
    requires |olds| == |news| == |parts| && Advances(parts, olds, news)
    ensures Patched(parts, olds, news, olds, of, 0)
  {}

  lemma PatchedNext(parts: seq<Part>, olds: seq<string>, news: seq<string>, qs: seq<string>, of: seq<nat>, j: nat)
    requires |olds| == |news| == |qs| == |parts| && j < |of| && of[j] < |parts|
    requires Patched(parts, olds, news, qs, of, j)
    ensures Patched(parts, olds, news, qs[of[j] := news[of[j]]], of, j + 1)
  {}

  lemma PatchedAll(parts: seq<Part>, olds: seq<string>, news: seq<string>, qs: seq<string>, indexes: seq<Index>, of: seq<nat>)
    requires |olds| == |news| == |qs| == |parts|
    requires Marked(parts, olds, indexes, of, |parts|) && Patched(parts, olds, news, qs, of, |of|)
    ensures qs == news
  {
    hide Start;
    assert of[..|of|] == of;
  }

  lemma MarkedLength(parts: seq<Part>, ps: seq<string>, indexes: seq<Index>, of: seq<nat>)
    requires |ps| == |parts| && Marked(parts, ps, indexes, of, |parts|)
    ensures |of| == |indexes|
  {
    hide Start;
  }

  lemma MarkedAt(parts: seq<Part>, olds: seq<string>, qs: seq<string>, news: seq<string>, indexes: seq<Index>, of: seq<nat>, j: nat)
    requires |olds| == |news| == |qs| == |parts| && j < |indexes|
    requires Marked(parts, olds, indexes, of, |parts|)
    requires |of| == |indexes| && Patched(parts, olds, news, qs, of, j)
    ensures of[j] < |parts| && parts[of[j]] == Dyn(indexes[j].1) && indexes[j].0 == Start(qs, of[j])
    ensures |qs[of[j]]| == |news[of[j]]| && (qs[of[j]] == olds[of[j]] || qs[of[j]] == news[of[j]])
  {
    hide Start;
    StartSame(olds, qs, of[j]);
  }

  lemma DynPiece(cal: Calendar, f: FormatType, u: nat)
    ensures var s := SecondOfDay(cal, u);
            && Hours(s) < 24 && Minutes(s) < 60 && Seconds(s) < 60
            && Piece(cal, Dyn(f), u) == RenderType(f, Hours(s), Minutes(s), Seconds(s), u)
  {
    hide SecondOfDay, RenderType, Hours, Minutes, Seconds;
    ClockBounds(SecondOfDay(cal, u));
  }

  lemma UnchangedPiece(cal: Calendar, f: FormatType, t: nat, u: nat)
    requires !f.Fs?
    requires f.FH? || f.FI? || f.Fk? || f.Fl? ==> Hours(SecondOfDay(cal, t)) == Hours(SecondOfDay(cal, u))
    requires f.FM? ==> Minutes(SecondOfDay(cal, t)) == Minutes(SecondOfDay(cal, u))
    requires f.FS? ==> Seconds(SecondOfDay(cal, t)) == Seconds(SecondOfDay(cal, u))
    ensures Piece(cal, Dyn(f), t) == Piece(cal, Dyn(f), u)
  {
    hide SecondOfDay, Hours, Minutes, Seconds, Decimal;
    ClockBounds(SecondOfDay(cal, t));
    ClockBounds(SecondOfDay(cal, u));
  }

  lemma NothingMarked(parts: seq<Part>, ps: seq<string>)
    requires |ps| == |parts|
    ensures Marked(parts, ps, [], [], 0) && Join(ps[..0]) == "" && !EpochBefore(parts, 0)
  {}

  lemma JoinNext(ps: seq<string>, i: nat)
    requires i < |ps|
    ensures Join(ps[..i + 1]) == Join(ps[..i]) + ps[i] && Start(ps, i) == |Join(ps[..i])|
  {
    assert ps[..i + 1][..i] == ps[..i];
  }

  lemma PieceWidth(cal: Calendar, p: Part, t: nat)
    ensures p.Dyn? && !p.f.Fs? ==> |Piece(cal, p, t)| == 2
    ensures p == Dyn(Fs) ==> Piece(cal, p, t) == Decimal(t)
  {
    hide SecondOfDay, Decimal, ZeroPadded, SpacePadded;
  }

  lemma MarkedNext(parts: seq<Part>, ps: seq<string>, indexes: seq<Index>, of: seq<nat>, i: nat, index: Index)
    requires |ps| == |parts| && i < |parts| && Marked(parts, ps, indexes, of, i)
    ensures parts[i].Static? ==> Marked(parts, ps, indexes, of, i + 1)
    ensures parts[i] == Dyn(index.1) && index.0 == Start(ps, i) ==> Marked(parts, ps, indexes + [index], of + [i], i + 1)
  {
    hide Start;
  }
}
