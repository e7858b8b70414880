/**
 How quill/include/quill/backend/StringFromTime.h cuts a timestamp format into static parts and
 time-of-day modifiers, and why rendering the parts one by one is rendering the format.
 */
module TimeParts {
  import opened Containers
  import opened Decimals
  import opened TimeFormat

  /** The modifiers that are patched in place; the others stay in static parts. */
  function ModifierOf(c: char): Option<FormatType> {
    match c
    case 'H' => Some(FH)
    case 'M' => Some(FM)
    case 'S' => Some(FS)
    case 'I' => Some(FI)
    case 'k' => Some(Fk)
    case 'l' => Some(Fl)
    case 's' => Some(Fs)
    case _ => None
  }

  function ModifierText(f: FormatType): string {
    match f
    case FH => "%H"
    case FM => "%M"
    case FS => "%S"
    case FI => "%I"
    case Fk => "%k"
    case Fl => "%l"
    case Fs => "%s"
  }

  function PartText(p: Part): string {
    match p
    case Dyn(f) => ModifierText(f)
    case Static(format) => format
  }

  // ---- How strftime reads a format -------------------------------------------------------------

  /** From left to right, a percent sign together with the character behind it. */
  function Tokens(s: string): seq<string> {
    if s == "" then []
    else if s[0] == '%' && |s| >= 2 then [s[..2]] + Tokens(s[2..])
    else [s[..1]] + Tokens(s[1..])
  }

  /** A token starts at p. */
  predicate Boundary(s: string, p: nat) {
    p == 0 || (s != "" && if s[0] == '%' && |s| >= 2 then p >= 2 && Boundary(s[2..], p - 2) else Boundary(s[1..], p - 1))
  }

  lemma ThreeInARow<T>(x: seq<T>, y: seq<T>, z: seq<T>)
    ensures x + (y + z) == (x + y) + z
  {}

  lemma {:induction false} TokensCut(s: string, p: nat)
    requires p <= |s| && Boundary(s, p)
    ensures Tokens(s) == Tokens(s[..p]) + Tokens(s[p..])
    decreases |s|
  {
    hide Tokens;
    if p == 0 {
      assert s[..0] == "" && s[0..] == s;
      NoParts([], s);
      assert [] + Tokens(s) == Tokens(s);
    } else {
      var n := if s[0] == '%' && |s| >= 2 then 2 else 1;
      TokensCut(s[n..], p - n);
      FirstToken(s, n);
      assert s[..p][n..] == s[n..][..p - n] && s[..p][..n] == s[..n] && s[n..][p - n..] == s[p..];
      FirstToken(s[..p], n);
    }
  }

  lemma FirstToken(s: string, n: nat)
    requires s != "" && n <= |s| && n == if s[0] == '%' && |s| >= 2 then 2 else 1
    ensures Tokens(s) == [s[..n]] + Tokens(s[n..])
  {}

  /** An odd number of percent signs stands in front. */
  predicate Escaped(s: string, p: nat)
    requires p <= |s|
  {
    p > 0 && s[p - 1] == '%' && !Escaped(s, p - 1)
  }

  lemma {:induction false} BoundaryStep(s: string, p: nat)
    requires p + 1 < |s|
    ensures Boundary(s, p + 1) <==> !(Boundary(s, p) && s[p] == '%')
    decreases |s|
  {
    var n := if s[0] == '%' && |s| >= 2 then 2 else 1;
    if p >= n {
      BoundaryStep(s[n..], p - n);
    } else if p + 1 == n {
      assert Boundary(s[n..], 0);
    }
  }

  /** Counting the percent signs in front tells whether a token starts here. */
  lemma {:induction false} BoundaryIff(s: string, p: nat)
    requires p < |s|
    ensures Boundary(s, p) <==> !Escaped(s, p)
  {
    if p == 0 {
    } else {
      BoundaryIff(s, p - 1);
      BoundaryStep(s, p - 1);
    }
  }

  /** `_is_escaped_percent`. */
  method IsEscapedPercent(s: string, percentPos: nat) returns (escaped: bool)
    requires percentPos <= |s|
    ensures escaped <==> Escaped(s, percentPos)
  {
    var preceding := 0;
    while percentPos > preceding && s[percentPos - preceding - 1] == '%'
      invariant preceding <= percentPos
      invariant Escaped(s, percentPos) <==> (Escaped(s, percentPos - preceding) == (preceding % 2 == 0))
      decreases percentPos - preceding
    {
      preceding := preceding + 1;
    }
    escaped := preceding % 2 != 0;
  }

  /** An unescaped modifier with this letter. */
  predicate ModifierAt(s: string, c: char, p: nat) {
    p + 1 < |s| && s[p] == '%' && s[p + 1] == c && !Escaped(s, p)
  }

  predicate DynamicAt(s: string, p: nat) {
    p + 1 < |s| && ModifierOf(s[p + 1]).Some? && ModifierAt(s, s[p + 1], p)
  }

  /** `_find_unescaped_modifier`: the first one, or none. */
  method FindUnescapedModifier(s: string, c: char) returns (r: Option<nat>)
    ensures r.Some? ==> ModifierAt(s, c, r.value) && forall q: nat :: q < r.value ==> !ModifierAt(s, c, q)
    ensures r.None? ==> forall q: nat :: !ModifierAt(s, c, q)
  {
    var pos := 0;
    while pos + 1 < |s|
      invariant forall q: nat :: q < pos ==> !ModifierAt(s, c, q)
    {
      if s[pos] == '%' && s[pos + 1] == c {
        var escaped := IsEscapedPercent(s, pos);
        if !escaped { return Some(pos); }
      }
      pos := pos + 1;
    }
    r := None;
  }

  const MODIFIERS: seq<char> := ['H', 'M', 'S', 'I', 'k', 'l', 's']

  lemma ModifierListed(c: char)
    ensures ModifierOf(c).Some? <==> c in MODIFIERS
  {
    assert c in MODIFIERS <==> exists i :: 0 <= i < 7 && MODIFIERS[i] == c;
  }

  /** `_split_timestamp_format_once`: where the first unescaped modifier of all starts. */
  method SplitOnce(s: string) returns (r: Option<nat>)
    ensures r.Some? ==> DynamicAt(s, r.value) && forall q: nat :: q < r.value ==> !DynamicAt(s, q)
    ensures r.None? ==> forall q: nat :: !DynamicAt(s, q)
  {
    hide ModifierOf;
    r := None;
    for i := 0 to |MODIFIERS|
      invariant r.Some? ==> exists k :: 0 <= k < i && ModifierAt(s, MODIFIERS[k], r.value)
      invariant forall k, q: nat :: 0 <= k < i && ModifierAt(s, MODIFIERS[k], q) ==> r.Some? && r.value <= q
    {
      var found := FindUnescapedModifier(s, MODIFIERS[i]);
      if found.Some? && (r.None? || found.value < r.value) { r := found; }
    }
    if r.Some? { ModifierListed(s[r.value + 1]); }
    forall q: nat | DynamicAt(s, q) ensures r.Some? && r.value <= q {
      ModifierListed(s[q + 1]);
      var k :| 0 <= k < |MODIFIERS| && MODIFIERS[k] == s[q + 1];
      assert ModifierAt(s, MODIFIERS[k], q);
    }
  }

  // ---- The parts -------------------------------------------------------------------------------

  function AllText(parts: seq<Part>): string {
    if parts == [] then "" else AllText(parts[..|parts| - 1]) + PartText(parts[|parts| - 1])
  }

  function AllTokens(parts: seq<Part>): seq<string> {
    if parts == [] then [] else AllTokens(parts[..|parts| - 1]) + Tokens(PartText(parts[|parts| - 1]))
  }

  /** A static part is not empty and has no unescaped modifier left in it. */
  ghost predicate WellCut(p: Part) {
    p.Static? ==> p.format != "" && forall q: nat :: !DynamicAt(p.format, q)
  }

  lemma PartsNext(parts: seq<Part>, p: Part)
    ensures AllText(parts + [p]) == AllText(parts) + PartText(p)
    ensures AllTokens(parts + [p]) == AllTokens(parts) + Tokens(PartText(p))
  {
    assert (parts + [p])[..|parts|] == parts;
  }

  /** Cutting in front of the first modifier, and behind it, cuts between tokens. */
  lemma CutAt(s: string, p: nat)
    requires DynamicAt(s, p) && forall q: nat :: q < p ==> !DynamicAt(s, q)
    ensures s == s[..p] + s[p..p + 2] + s[p + 2..] && s[p..p + 2] == ModifierText(ModifierOf(s[p + 1]).value)
    ensures Tokens(s) == Tokens(s[..p]) + Tokens(s[p..p + 2]) + Tokens(s[p + 2..])
    ensures forall q: nat :: !DynamicAt(s[..p], q)
  {
    hide ModifierOf, Tokens, ModifierText;
    BoundaryIff(s, p);
    TokensCut(s, p);
    assert Boundary(s[p..][2..], 0) && Boundary(s[p..], 2);
    TokensCut(s[p..], 2);
    assert s[p..][..2] == s[p..p + 2] && s[p..][2..] == s[p + 2..];
    assert Tokens(s[..p]) + (Tokens(s[p..p + 2]) + Tokens(s[p + 2..])) == Tokens(s[..p]) + Tokens(s[p..p + 2]) + Tokens(s[p + 2..]);
    DynamicFacts(s, p);
    assert s[p..p + 2] == ['%', s[p + 1]];
    forall q: nat ensures !DynamicAt(s[..p], q) {
      if q + 1 < p {
        EscapedPrefix(s, p, q);
        assert !DynamicAt(s, q);
      }
    }
  }

  lemma {:induction false} EscapedPrefix(s: string, p: nat, q: nat)
    requires q <= p <= |s|
    ensures Escaped(s[..p], q) == Escaped(s, q)
    decreases q
  {
    if q == 0 {
    } else {
      EscapedPrefix(s, p, q - 1);
    }
  }

  /**
   `_populate_initial_parts`: the parts spell the format, their tokens are its tokens, and every
   modifier that moves with the time of day is a part of its own.
   */
  method PopulateInitialParts(format: string) returns (parts: seq<Part>)
    ensures AllText(parts) == format
    ensures AllTokens(parts) == Tokens(format)
    ensures forall i :: 0 <= i < |parts| ==> WellCut(parts[i])
  {
    hide Tokens, AllText, AllTokens, ModifierOf, DynamicAt, PartText;
    parts := [];
    var rest := format;
    NoParts([], format);
    while true
      invariant AllText(parts) + rest == format && AllTokens(parts) + Tokens(rest) == Tokens(format)
      invariant forall i :: 0 <= i < |parts| ==> WellCut(parts[i])
      decreases |rest|
    {
      var at := SplitOnce(rest);
      if at.None? {
        NoParts(parts, rest);
        if rest != "" {
          PartsNext(parts, Static(rest));
          PartTexts(rest, FH);
          parts := parts + [Static(rest)];
        }
        break;
      }
      DynamicFacts(rest, at.value);
      CutAt(rest, at.value);
      var f := ModifierOf(rest[at.value + 1]).value;
      ghost var before := parts;
      if at.value > 0 {
        PartsNext(parts, Static(rest[..at.value]));
        PartTexts(rest[..at.value], FH);
        parts := parts + [Static(rest[..at.value])];
      } else {
        NoParts(before, rest);
      }
      ghost var middle := parts;
      PartsNext(parts, Dyn(f));
      PartTexts(rest, f);
      parts := parts + [Dyn(f)];
      Regroup(before, middle, parts, rest, at.value);
      rest := rest[at.value + 2..];
    }
  }

  lemma Regroup(before: seq<Part>, middle: seq<Part>, after: seq<Part>, s: string, p: nat)
    requires p + 2 <= |s| && s == s[..p] + s[p..p + 2] + s[p + 2..]
    requires Tokens(s) == Tokens(s[..p]) + Tokens(s[p..p + 2]) + Tokens(s[p + 2..])
    requires AllText(middle) == AllText(before) + s[..p] && AllTokens(middle) == AllTokens(before) + Tokens(s[..p])
    requires AllText(after) == AllText(middle) + s[p..p + 2] && AllTokens(after) == AllTokens(middle) + Tokens(s[p..p + 2])
    ensures AllText(after) + s[p + 2..] == AllText(before) + s
    ensures AllTokens(after) + Tokens(s[p + 2..]) == AllTokens(before) + Tokens(s)
  {
    hide Tokens, AllText, AllTokens;
    ThreeInARow(AllText(before), s[..p], s[p..p + 2]);
    ThreeInARow(AllText(before), s[..p] + s[p..p + 2], s[p + 2..]);
    ThreeInARow(AllTokens(before), Tokens(s[..p]), Tokens(s[p..p + 2]));
    ThreeInARow(AllTokens(before), Tokens(s[..p]) + Tokens(s[p..p + 2]), Tokens(s[p + 2..]));
  }

  lemma NoParts(parts: seq<Part>, format: string)
    ensures AllText([]) + format == format && AllTokens([]) + Tokens(format) == Tokens(format)
    ensures AllText(parts) + "" == AllText(parts) && Tokens("") == [] && AllTokens(parts) + [] == AllTokens(parts)
    ensures format[..0] == ""
  {}

  lemma PartTexts(s: string, f: FormatType)
    ensures PartText(Static(s)) == s && PartText(Dyn(f)) == ModifierText(f)
  {}

  lemma DynamicFacts(s: string, p: nat)
    requires DynamicAt(s, p)
    ensures p + 1 < |s| && ModifierOf(s[p + 1]).Some? && ModifierText(ModifierOf(s[p + 1]).value) == ['%', s[p + 1]]
  {}

  /** What strftime makes of tokens, each by itself. */
  function RenderTokens(render: string -> string, tokens: seq<string>): string {
    if tokens == [] then "" else render(tokens[0]) + RenderTokens(render, tokens[1..])
  }

  function RenderParts(render: string -> string, parts: seq<Part>): string {
    if parts == [] then "" else RenderParts(render, parts[..|parts| - 1]) + RenderTokens(render, Tokens(PartText(parts[|parts| - 1])))
  }

  lemma {:induction false} RenderConcat(render: string -> string, a: seq<string>, b: seq<string>)
    ensures RenderTokens(render, a + b) == RenderTokens(render, a) + RenderTokens(render, b)
  {
    if a == [] {
      assert a + b == b;
    } else {
      RenderConcat(render, a[1..], b);
      assert (a + b)[1..] == a[1..] + b && (a + b)[0] == a[0];
      var x, y := RenderTokens(render, a[1..]), RenderTokens(render, b);
      assert render(a[0]) + (x + y) == (render(a[0]) + x) + y;
    }
  }

  /** Rendering part by part is rendering the whole format, for any renderer that goes token by token. */
  lemma {:induction false} PartsRenderFormat(render: string -> string, parts: seq<Part>)
    ensures RenderParts(render, parts) == RenderTokens(render, AllTokens(parts))
  {
    hide Tokens, PartText, RenderTokens;
    if parts == [] {
      RenderNothing(render);
    } else {
      PartsRenderFormat(render, parts[..|parts| - 1]);
      RenderConcat(render, AllTokens(parts[..|parts| - 1]), Tokens(PartText(parts[|parts| - 1])));
    }
  }

  lemma RenderNothing(render: string -> string)
    ensures RenderTokens(render, []) == ""
  {}

  // ---- The whole format ------------------------------------------------------------------------

  /** A token on its own: a time-of-day modifier by the clock, anything else by strftime. */
  function TokenText(cal: Calendar, token: string, t: nat): string {
    if IsModifier(token) then Piece(cal, Dyn(ModifierOf(token[1]).value), t)
    else cal.render(token, t)
  }

  /** What a format means: its tokens, each on its own. */
  function RenderFormat(cal: Calendar, format: string, t: nat): string {
    RenderTokens(token => TokenText(cal, token, t), Tokens(format))
  }

  /** The letters of the modifiers; everything else is left to strftime. */
  lemma Letters(cal: Calendar, token: string, t: nat)
    ensures TokenText(cal, "%H", t) == Piece(cal, Dyn(FH), t) && TokenText(cal, "%M", t) == Piece(cal, Dyn(FM), t)
    ensures TokenText(cal, "%S", t) == Piece(cal, Dyn(FS), t) && TokenText(cal, "%I", t) == Piece(cal, Dyn(FI), t)
    ensures TokenText(cal, "%k", t) == Piece(cal, Dyn(Fk), t) && TokenText(cal, "%l", t) == Piece(cal, Dyn(Fl), t)
    ensures TokenText(cal, "%s", t) == Piece(cal, Dyn(Fs), t)
    ensures token !in ["%H", "%M", "%S", "%I", "%k", "%l", "%s"] ==> TokenText(cal, token, t) == cal.render(token, t)
  {
    hide Piece;
    if IsModifier(token) { assert token == ['%', token[1]]; }
  }

  /** A whole time of day, from its seconds. */
  lemma HoursMinutesSeconds(cal: Calendar, t: nat)
    requires forall u: nat :: cal.render(":", u) == ":"
    ensures var x := (t + cal.offset(t)) % 86400;
            exists h, m, s :: RenderFormat(cal, "%H:%M:%S", t) == h + ":" + m + ":" + s &&
              ValueOf(h) == x / 3600 && ValueOf(m) == x / 60 % 60 && ValueOf(s) == x % 60
  {
    ClockTokens();
    var h, m, s := Piece(cal, Dyn(FH), t), Piece(cal, Dyn(FM), t), Piece(cal, Dyn(FS), t);
    PieceMeans(cal, FH, t);
    PieceMeans(cal, FM, t);
    PieceMeans(cal, FS, t);
    Letters(cal, ":", t);
    hide TokenText, Piece, ValueOf, Tokens;
    FiveTokens(token => TokenText(cal, token, t), "%H", ":", "%M", ":", "%S");
  }

  lemma ClockTokens()
    ensures Tokens("%H:%M:%S") == ["%H", ":", "%M", ":", "%S"]
  {
    hide Tokens;
    var a, b, c, d, e := "%H:%M:%S", ":%M:%S", "%M:%S", ":%S", "%S";
    FirstToken(a, 2);
    assert a[..2] == "%H" && a[2..] == b;
    FirstToken(b, 1);
    assert b[..1] == ":" && b[1..] == c;
    FirstToken(c, 2);
    assert c[..2] == "%M" && c[2..] == d;
    FirstToken(d, 1);
    assert d[..1] == ":" && d[1..] == e;
    FirstToken(e, 2);
    assert e[..2] == "%S" && e[2..] == "";
    NoParts([], "");
  }

  lemma FiveTokens(render: string -> string, a: string, b: string, c: string, d: string, e: string)
    ensures RenderTokens(render, [a, b, c, d, e]) == render(a) + render(b) + render(c) + render(d) + render(e)
  {
    RenderConcat(render, [a], [b]);
    RenderConcat(render, [a, b], [c]);
    RenderConcat(render, [a, b, c], [d]);
    RenderConcat(render, [a, b, c, d], [e]);
    RenderOne(render, a);
    RenderOne(render, b);
    RenderOne(render, c);
    RenderOne(render, d);
    RenderOne(render, e);
    hide RenderTokens;
    assert [a] + [b] == [a, b] && [a, b] + [c] == [a, b, c];
    assert [a, b, c] + [d] == [a, b, c, d] && [a, b, c, d] + [e] == [a, b, c, d, e];
  }

  /** strftime goes through a format token by token. */
  ghost predicate TokenWise(cal: Calendar) {
    forall format: string, t: nat :: cal.render(format, t) == RenderTokens(token => cal.render(token, t), Tokens(format))
  }

  /** Every token stands somewhere at a boundary. */
  lemma {:induction false} TokenPlace(s: string, k: nat) returns (p: nat)
    requires k < |Tokens(s)|
    ensures p + |Tokens(s)[k]| <= |s| && Boundary(s, p) && s[p..p + |Tokens(s)[k]|] == Tokens(s)[k]
    decreases |s|
  {
    var n := if s[0] == '%' && |s| >= 2 then 2 else 1;
    if k == 0 {
      p := 0;
    } else {
      var q := TokenPlace(s[n..], k - 1);
      p := q + n;
      assert Tokens(s)[k] == Tokens(s[n..])[k - 1] && s[n..][q..q + |Tokens(s)[k]|] == s[p..p + |Tokens(s)[k]|];
    }
  }

  predicate IsModifier(token: string) {
    |token| == 2 && token[0] == '%' && ModifierOf(token[1]).Some?
  }

  /** A token that is a time-of-day modifier is an unescaped one. */
  lemma ModifierTokenIsDynamic(s: string, k: nat)
    requires k < |Tokens(s)| && IsModifier(Tokens(s)[k])
    ensures exists q: nat :: DynamicAt(s, q)
  {
    hide Tokens, ModifierOf;
    var p := TokenPlace(s, k);
    assert Tokens(s)[k] == [s[p], s[p + 1]];
    BoundaryIff(s, p);
    assert DynamicAt(s, p);
  }

  /** And the other way round. */
  lemma DynamicIsToken(s: string, p: nat)
    requires DynamicAt(s, p)
    ensures exists token :: token in Tokens(s) && IsModifier(token)
  {
    hide Tokens, ModifierOf;
    BoundaryIff(s, p);
    TokensCut(s, p);
    FirstToken(s[p..], 2);
    var token := s[p..][..2];
    assert token in [token] + Tokens(s[p..][2..]);
    assert token in Tokens(s) && IsModifier(token);
  }

  lemma {:induction false} TokenOfPart(parts: seq<Part>, token: string) returns (i: nat)
    requires token in AllTokens(parts)
    ensures i < |parts| && token in Tokens(PartText(parts[i]))
  {
    var n := |parts| - 1;
    if token in AllTokens(parts[..n]) { i := TokenOfPart(parts[..n], token); } else { i := n; }
  }

  /** A format with a time-of-day modifier is cut into parts of which one is dynamic. */
  lemma DynamicPart(format: string, parts: seq<Part>, p: nat)
    requires AllTokens(parts) == Tokens(format) && DynamicAt(format, p)
    requires forall i :: 0 <= i < |parts| ==> WellCut(parts[i])
    ensures HasDynamic(parts)
  {
    hide Tokens, DynamicAt, IsModifier;
    DynamicIsToken(format, p);
    var token :| token in Tokens(format) && IsModifier(token);
    var i := TokenOfPart(parts, token);
    if parts[i].Static? {
      var k :| 0 <= k < |Tokens(parts[i].format)| && Tokens(parts[i].format)[k] == token;
      ModifierTokenIsDynamic(parts[i].format, k);
    }
  }

  lemma {:induction false} SameTexts(a: string -> string, b: string -> string, tokens: seq<string>)
    requires forall k :: 0 <= k < |tokens| ==> a(tokens[k]) == b(tokens[k])
    ensures RenderTokens(a, tokens) == RenderTokens(b, tokens)
  {
    if tokens == [] {
    } else {
      SameTexts(a, b, tokens[1..]);
    }
  }

  /** A part rendered directly is its tokens rendered one by one. */
  lemma PieceIsTokens(cal: Calendar, p: Part, t: nat)
    requires TokenWise(cal) && WellCut(p)
    ensures Piece(cal, p, t) == RenderFormat(cal, PartText(p), t)
  {
    var render := token => TokenText(cal, token, t);
    match p
    case Static(format) =>
      forall k | 0 <= k < |Tokens(format)|
        ensures cal.render(Tokens(format)[k], t) == TokenText(cal, Tokens(format)[k], t)
      {
        if IsModifier(Tokens(format)[k]) { ModifierTokenIsDynamic(format, k); }
      }
      SameTexts(token => cal.render(token, t), render, Tokens(format));
    case Dyn(f) =>
      ModifierToken(f);
      RenderOne(render, ModifierText(f));
  }

  lemma ModifierToken(f: FormatType)
    ensures Tokens(ModifierText(f)) == [ModifierText(f)]
    ensures var text := ModifierText(f); |text| == 2 && text[0] == '%' && ModifierOf(text[1]) == Some(f)
  {
    FirstToken(ModifierText(f), 2);
    assert ModifierText(f)[..2] == ModifierText(f);
    NoParts([], "");
  }

  lemma RenderOne(render: string -> string, token: string)
    ensures RenderTokens(render, [token]) == render(token)
  {}

  /** The parts rendered directly are the format rendered token by token. */
  lemma {:induction false} DirectIsTokens(cal: Calendar, parts: seq<Part>, t: nat)
    requires TokenWise(cal) && forall i :: 0 <= i < |parts| ==> WellCut(parts[i])
    ensures Direct(cal, parts, t) == RenderTokens(token => TokenText(cal, token, t), AllTokens(parts))
  {
    hide TokenText, TokenWise, WellCut, Tokens, PartText, Piece;
    var render := token => TokenText(cal, token, t);
    if parts == [] {
    } else {
      var init, last := parts[..|parts| - 1], parts[|parts| - 1];
      DirectIsTokens(cal, init, t);
      PieceIsTokens(cal, last, t);
      assert Pieces(cal, parts, t)[..|parts| - 1] == Pieces(cal, init, t);
      RenderConcat(render, AllTokens(init), Tokens(PartText(last)));
    }
  }

  /**
   A formatter made for a format, and used at any times in any order: every result is the format
   rendered token by token at that time.
   */
  method FormatAllTimes(cal: Calendar, format: string, times: seq<nat>) returns (out: seq<string>)
    requires Stable(cal) && TokenWise(cal)
    requires cal.zone.Gmt? || (forall t: nat :: cal.offset(t) % QUARTER_HOUR == 0) || exists q: nat :: DynamicAt(format, q)
    ensures |out| == |times| && forall i :: 0 <= i < |times| ==> out[i] == RenderFormat(cal, format, times[i])
  {
    hide Stable, TokenWise, WellCut, DynamicAt, Direct, Tokens, AllTokens, TokenText, HasDynamic;
    var parts := PopulateInitialParts(format);
    if q: nat :| DynamicAt(format, q) { DynamicPart(format, parts, q); }
    out := FormatAll(cal, parts, times);
    forall i | 0 <= i < |times| ensures out[i] == RenderFormat(cal, format, times[i]) {
      DirectIsTokens(cal, parts, times[i]);
    }
  }
}
