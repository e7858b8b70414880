/**
 The mapped diagnostic context on the backend: quill/include/quill/backend/BackendMdcState.h and its
 use in quill/include/quill/backend/BackendWorker.h. Every log event carries the rendering of the
 set, erase and clear events that precede it in its own thread's queue.
 */
module Mdc {
  import opened Containers
  import opened Names

  // ---- The format pattern ----------------------------------------------------------------------

  datatype FormatParts = FormatParts(prefix: string, kvSep: string, fieldSep: string, suffix: string)

  predicate PlaceholderAt(s: string, i: nat) {
    i + 1 < |s| && s[i] == '{' && s[i + 1] == '}'
  }

  ghost predicate NoPlaceholder(s: string) {
    forall i: nat :: !PlaceholderAt(s, i)
  }

  /** std::string_view::find of "{}" from a position. */
  method Find(s: string, from: nat) returns (r: Option<nat>)
    requires from <= |s|
    ensures r.None? <==> forall i :: from <= i ==> !PlaceholderAt(s, i)
    ensures r.Some? ==> from <= r.value && PlaceholderAt(s, r.value) && forall i :: from <= i < r.value ==> !PlaceholderAt(s, i)
  {
    var i := from;
    while i + 1 < |s|
      invariant from <= i && forall k :: from <= k < i ==> !PlaceholderAt(s, k)
    {
      if s[i] == '{' && s[i + 1] == '}' {
        assert PlaceholderAt(s, i);
        return Some(i);
      }
      i := i + 1;
    }
    r := None;
  }

  /** A pattern is its prefix, two placeholders with the separator between, and a tail ending in the suffix. */
  ghost predicate Splits(pattern: string, p: FormatParts) {
    && |p.suffix| == 1
    && NoPlaceholder(p.prefix) && NoPlaceholder(p.kvSep) && NoPlaceholder(p.fieldSep + p.suffix)
    && pattern == p.prefix + "{}" + p.kvSep + "{}" + p.fieldSep + p.suffix
  }

  /** `_set_from_pattern`: succeeds exactly on the patterns with two placeholders and something after them. */
  method SetFromPattern(pattern: string) returns (r: Option<FormatParts>)
    ensures r.Some? ==> Splits(pattern, r.value)
    ensures r.None? ==> forall p :: !Splits(pattern, p)
  {
    var first := Find(pattern, 0);
    if first.None? {
      forall p ensures !Splits(pattern, p) { if Splits(pattern, p) { FirstAt(pattern, p); } }
      return None;
    }
    var second := Find(pattern, first.value + 2);
    if second.None? {
      forall p ensures !Splits(pattern, p) { if Splits(pattern, p) { TwoPlaceholders(pattern, p, first.value); } }
      return None;
    }
    var third := Find(pattern, second.value + 2);
    if third.Some? {
      forall p ensures !Splits(pattern, p) {
        if Splits(pattern, p) { TwoPlaceholders(pattern, p, first.value); }
      }
      return None;
    }
    var afterSecond := second.value + 2;
    if afterSecond >= |pattern| {
      forall p ensures !Splits(pattern, p) {
        if Splits(pattern, p) { TwoPlaceholders(pattern, p, first.value); }
      }
      return None;
    }
    var n := |pattern| - 1;
    r := Some(FormatParts(pattern[..first.value], pattern[first.value + 2..second.value],
                          pattern[afterSecond..n], pattern[n..]));
    SplitCut(pattern, first.value, second.value);
  }

  lemma FirstAt(pattern: string, p: FormatParts)
    requires Splits(pattern, p)
    ensures PlaceholderAt(pattern, |p.prefix|)
    ensures forall i: nat :: i < |p.prefix| ==> !PlaceholderAt(pattern, i)
  {
    forall i: nat | i < |p.prefix| ensures !PlaceholderAt(pattern, i) {
      assert !PlaceholderAt(p.prefix, i);
      assert pattern[i] == p.prefix[i] && pattern[i + 1] == (if i + 1 < |p.prefix| then p.prefix[i + 1] else '{');
    }
  }

  lemma TwoPlaceholders(pattern: string, p: FormatParts, first: nat)
    requires Splits(pattern, p) && PlaceholderAt(pattern, first) && forall i :: 0 <= i < first ==> !PlaceholderAt(pattern, i)
    ensures first == |p.prefix|
    ensures PlaceholderAt(pattern, first + 2 + |p.kvSep|)
    ensures forall i :: first + 2 <= i < first + 2 + |p.kvSep| ==> !PlaceholderAt(pattern, i)
    ensures forall i :: first + 2 + |p.kvSep| + 2 <= i ==> !PlaceholderAt(pattern, i)
    ensures first + 2 + |p.kvSep| + 2 < |pattern|
  {
    FirstAt(pattern, p);
    var at := first + 2;
    forall i | at <= i < at + |p.kvSep| ensures !PlaceholderAt(pattern, i) {
      var k := i - at;
      assert !PlaceholderAt(p.kvSep, k);
      assert pattern[i] == p.kvSep[k] && pattern[i + 1] == (if k + 1 < |p.kvSep| then p.kvSep[k + 1] else '{');
    }
    var tail := p.fieldSep + p.suffix;
    var end := at + |p.kvSep| + 2;
    forall i | end <= i ensures !PlaceholderAt(pattern, i) {
      var k := i - end;
      assert !PlaceholderAt(tail, k);
      if i + 1 < |pattern| { assert pattern[i] == tail[k] && pattern[i + 1] == tail[k + 1]; }
    }
  }

  lemma SplitCut(pattern: string, first: nat, second: nat)
    requires first + 2 <= second && second + 2 < |pattern| && PlaceholderAt(pattern, first) && PlaceholderAt(pattern, second)
    requires forall i :: 0 <= i < first ==> !PlaceholderAt(pattern, i)
    requires forall i :: first + 2 <= i < second ==> !PlaceholderAt(pattern, i)
    requires forall i :: second + 2 <= i ==> !PlaceholderAt(pattern, i)
    ensures Splits(pattern, FormatParts(pattern[..first], pattern[first + 2..second],
                                        pattern[second + 2..|pattern| - 1], pattern[|pattern| - 1..]))
  {
    var n := |pattern| - 1;
    var prefix, kv, tail := pattern[..first], pattern[first + 2..second], pattern[second + 2..];
    assert pattern[second + 2..n] + pattern[n..] == tail;
    forall i: nat ensures !PlaceholderAt(prefix, i) { assert !PlaceholderAt(pattern, i) || i >= first; }
    forall i: nat ensures !PlaceholderAt(kv, i) { assert !PlaceholderAt(pattern, first + 2 + i) || first + 2 + i >= second; }
    forall i: nat ensures !PlaceholderAt(tail, i) { assert !PlaceholderAt(pattern, second + 2 + i); }
    assert pattern[first..first + 2] == "{}" && pattern[second..second + 2] == "{}";
    assert pattern == prefix + pattern[first..first + 2] + kv + pattern[second..second + 2] + tail;
  }

  // ---- The fields ------------------------------------------------------------------------------

  datatype Field = Field(key: string, value: string)

  function Keys(fields: seq<Field>): (r: seq<string>)
    ensures |r| == |fields| && forall i :: 0 <= i < |fields| ==> r[i] == fields[i].key
  {
    seq(|fields|, i requires 0 <= i < |fields| => fields[i].key)
  }

  /** std::map as the sorted listing it iterates over. */
  ghost predicate Lists(fields: seq<Field>, m: map<string, string>) {
    && Sorted(Keys(fields))
    && (forall k :: k in m ==> k in Keys(fields))
    && (forall i :: 0 <= i < |fields| ==> fields[i].key in m && m[fields[i].key] == fields[i].value)
  }

  function SetField(fields: seq<Field>, f: Field): seq<Field> {
    var i := LowerBound(Keys(fields), f.key);
    if i < |fields| && fields[i].key == f.key then fields[i := f] else fields[..i] + [f] + fields[i..]
  }

  function EraseField(fields: seq<Field>, key: string): seq<Field> {
    var i := LowerBound(Keys(fields), key);
    if i < |fields| && fields[i].key == key then fields[..i] + fields[i + 1..] else fields
  }

  lemma SetMeans(fields: seq<Field>, m: map<string, string>, f: Field)
    requires Lists(fields, m)
    ensures Lists(SetField(fields, f), m[f.key := f.value])
  {
    hide LowerBound, Less, Sorted;
    var keys := Keys(fields);
    var next := SetField(fields, f);
    FoundIff(keys, f.key);
    if Found(keys, f.key) {
      assert Keys(next) == keys;
      forall i | 0 <= i < |next| && next[i].key == f.key ensures next[i] == f {
        SortedOnce(keys, LowerBound(keys, f.key), i);
      }
    } else {
      InsertSorted(keys, f.key);
      assert Keys(next) == Inserted(keys, f.key);
      InsertedFields(fields, LowerBound(keys, f.key), f);
    }
  }

  lemma InsertedFields(fields: seq<Field>, i: nat, f: Field)
    requires i <= |fields|
    ensures var s := fields[..i] + [f] + fields[i..];
            forall k :: 0 <= k < |s| ==> s[k] == f || exists j :: 0 <= j < |fields| && s[k] == fields[j]
  {
    var s := fields[..i] + [f] + fields[i..];
    forall k | 0 <= k < |s| ensures s[k] == f || exists j :: 0 <= j < |fields| && s[k] == fields[j] {
      if k < i { assert s[k] == fields[k]; } else if k > i { assert s[k] == fields[k - 1]; }
    }
  }

  lemma SortedOnce(keys: seq<string>, i: nat, j: nat)
    requires Sorted(keys) && i < |keys| && j < |keys|
    ensures keys[i] == keys[j] ==> i == j
  {
    hide Less;
    LessIrreflexive(keys[i]);
  }

  lemma EraseMeans(fields: seq<Field>, m: map<string, string>, key: string)
    requires Lists(fields, m)
    ensures Lists(EraseField(fields, key), m - {key})
  {
    hide LowerBound, Less, Sorted, Lists;
    var keys := Keys(fields);
    ListsFacts(fields, m);
    FoundIff(keys, key);
    if Found(keys, key) {
      var n := LowerBound(keys, key);
      EraseSorted(keys, key);
      assert Keys(fields[..n] + fields[n + 1..]) == Erased(keys, key);
      ErasedAt(fields, m, n);
    } else {
      assert key !in m;
      assert m - {key} == m;
    }
  }

  lemma ListsFacts(fields: seq<Field>, m: map<string, string>)
    requires Lists(fields, m)
    ensures Sorted(Keys(fields)) && forall k :: k in m ==> k in Keys(fields)
  {
    hide Sorted;
  }

  lemma ErasedAt(fields: seq<Field>, m: map<string, string>, n: nat)
    requires Lists(fields, m) && n < |fields|
    requires var rest := Keys(fields[..n] + fields[n + 1..]);
             Sorted(rest) && forall x :: x in rest <==> x in Keys(fields) && x != fields[n].key
    ensures Lists(fields[..n] + fields[n + 1..], m - {fields[n].key})
  {
    hide Less, Sorted;
    var next := fields[..n] + fields[n + 1..];
    forall i | 0 <= i < |next| ensures next[i].key != fields[n].key && next[i].key in m && m[next[i].key] == next[i].value {
      assert Keys(next)[i] in Keys(next);
      assert next[i] == fields[if i < n then i else i + 1];
    }
  }

  /** A map has only one sorted listing. */
  lemma {:induction false} ListsUnique(a: seq<Field>, b: seq<Field>, m: map<string, string>)
    requires Lists(a, m) && Lists(b, m)
    ensures a == b
    decreases |a|
  {
    hide Less, Sorted;
    if a == [] {
      assert m.Keys == {};
    } else {
      assert a[0].key in Keys(b);
      SameFirst(a, b, m);
      var key := a[0].key;
      TailLists(a, m);
      TailLists(b, m);
      ListsUnique(a[1..], b[1..], m - {key});
      assert a == [a[0]] + a[1..] && b == [b[0]] + b[1..];
    }
  }

  lemma SameFirst(a: seq<Field>, b: seq<Field>, m: map<string, string>)
    requires Lists(a, m) && Lists(b, m) && a != [] && b != []
    ensures a[0] == b[0]
  {
    hide Less;
    var i :| 0 <= i < |b| && Keys(b)[i] == a[0].key;
    var j :| 0 <= j < |a| && Keys(a)[j] == b[0].key;
    if i > 0 && j > 0 {
      LessTransitive(Keys(a)[0], Keys(a)[j], Keys(b)[i]);
      LessIrreflexive(a[0].key);
    }
  }

  lemma TailLists(a: seq<Field>, m: map<string, string>)
    requires Lists(a, m) && a != []
    ensures Lists(a[1..], m - {a[0].key})
  {
    hide Less;
    var keys := Keys(a);
    assert Keys(a[1..]) == keys[1..];
    forall i | 0 < i < |keys| ensures keys[i] != keys[0] { LessIrreflexive(keys[0]); }
  }

  // ---- Rendering -------------------------------------------------------------------------------

  function Body(parts: FormatParts, fields: seq<Field>): string {
    if fields == [] then ""
    else
      var f := fields[|fields| - 1];
      Body(parts, fields[..|fields| - 1]) + (if |fields| > 1 then parts.fieldSep else "") + f.key + parts.kvSep + f.value
  }

  /** Nothing at all without fields; otherwise the fields in key order between prefix and suffix. */
  function Render(parts: FormatParts, fields: seq<Field>): string {
    if fields == [] then "" else parts.prefix + Body(parts, fields) + parts.suffix
  }

  lemma BodyNext(parts: FormatParts, fields: seq<Field>, f: Field)
    ensures Body(parts, fields + [f]) == Body(parts, fields) + ((if fields != [] then parts.fieldSep else "") + (f.key + parts.kvSep + f.value))
  {
    assert (fields + [f])[..|fields|] == fields;
  }

  /** A field reads key, separator, value; fields follow one another in order with the field separator between. */
  lemma {:induction false} BodyExact(parts: FormatParts, a: seq<Field>, b: seq<Field>, f: Field)
    ensures Body(parts, []) == "" && Body(parts, [f]) == f.key + parts.kvSep + f.value
    ensures a != [] && b != [] ==> Body(parts, a + b) == Body(parts, a) + (parts.fieldSep + Body(parts, b))
    decreases |b|
  {
    BodyNext(parts, [], f);
    assert [] + [f] == [f] && Body(parts, []) == "";
    hide Body;
    if a != [] && b != [] {
      var init, last := b[..|b| - 1], b[|b| - 1];
      var text := last.key + parts.kvSep + last.value;
      assert b == init + [last] && a + b == (a + init) + [last];
      BodyNext(parts, a + init, last);
      BodyNext(parts, init, last);
      if init == [] {
        assert a + init == a;
        assert Body(parts, b) == text by { BodyExact(parts, [], [], last); }
      } else {
        BodyExact(parts, a, init, last);
        ThreeParts(Body(parts, a), parts.fieldSep, Body(parts, init), parts.fieldSep + text);
      }
    }
  }

  lemma ThreeParts(x: string, sep: string, y: string, z: string)
    ensures (x + (sep + y)) + z == x + (sep + (y + z))
  {}

  /** Without fields nothing is shown, not even prefix and suffix. */
  lemma RenderExact(parts: FormatParts, fields: seq<Field>)
    ensures Render(parts, []) == ""
    ensures fields != [] ==> Render(parts, fields) == parts.prefix + Body(parts, fields) + parts.suffix
  {}

  /** The text after i turns of the rendering loop. */
  function Shown(parts: FormatParts, fields: seq<Field>, i: nat): string
    requires i <= |fields|
  {
    parts.prefix + Body(parts, fields[..i]) + (if 0 < i < |fields| then parts.fieldSep else "")
  }

  lemma ShownEnds(parts: FormatParts, fields: seq<Field>)
    requires fields != []
    ensures Shown(parts, fields, 0) == parts.prefix
    ensures Shown(parts, fields, |fields|) + parts.suffix == Render(parts, fields)
  {
    assert fields[..|fields|] == fields;
  }

  lemma ShownStep(parts: FormatParts, fields: seq<Field>, i: nat)
    requires i < |fields|
    ensures var text := Shown(parts, fields, i) + fields[i].key + parts.kvSep + fields[i].value;
            Shown(parts, fields, i + 1) == if i + 1 != |fields| then text + parts.fieldSep else text
  {
    assert fields[..i + 1][..i] == fields[..i];
  }

  class BackendMdcState {
    const parts: FormatParts
    var fields: seq<Field>
    var formatted: string
    /** The map that the sorted listing stands for. */
    ghost var m: map<string, string>

    ghost predicate Valid()
      reads this
    {
      Lists(fields, m)
    }

    constructor (parts: FormatParts)
      ensures Valid() && this.parts == parts && m == map[] && formatted == ""
    {
      this.parts, fields, formatted, m := parts, [], "", map[];
    }

    method Set(key: string, value: string)
      requires Valid()
      modifies this`fields, this`m
      ensures Valid() && m == old(m)[key := value]
    {
      hide LowerBound, Lists;
      SetMeans(fields, m, Field(key, value));
      m := m[key := value];
      var i := LowerBound(Keys(fields), key);
      if i < |fields| && fields[i].key == key {
        fields := fields[i := Field(key, value)];
      } else {
        fields := fields[..i] + [Field(key, value)] + fields[i..];
      }
    }

    method Erase(key: string)
      requires Valid()
      modifies this`fields, this`m
      ensures Valid() && m == old(m) - {key}
    {
      hide LowerBound, Lists;
      EraseMeans(fields, m, key);
      m := m - {key};
      var i := LowerBound(Keys(fields), key);
      if i < |fields| && fields[i].key == key { fields := fields[..i] + fields[i + 1..]; }
    }

    method Empty() returns (empty: bool)
      requires Valid()
      ensures empty <==> m == map[]
    {
      NothingListed(parts, m);
      if fields != [] { assert Keys(fields)[0] == fields[0].key; }
      empty := fields == [];
    }

    method RebuildFormattedMdc()
      modifies this`formatted
      ensures formatted == Render(parts, fields)
    {
      hide Shown, Render;
      formatted := "";
      if fields == [] {
        NothingListed(parts, map[]);
        return;
      }
      ShownEnds(parts, fields);
      formatted := formatted + parts.prefix;
      var i := 0;
      while i != |fields|
        invariant i <= |fields| && formatted == Shown(parts, fields, i)
        decreases |fields| - i
      {
        ShownStep(parts, fields, i);
        formatted := formatted + fields[i].key;
        formatted := formatted + parts.kvSep;
        formatted := formatted + fields[i].value;
        i := i + 1;
        if i != |fields| { formatted := formatted + parts.fieldSep; }
      }
      formatted := formatted + parts.suffix;
    }
  }

  // ---- The stream of one thread ----------------------------------------------------------------

  /** Silent events are flushes, removal requests and metric samples: buffered, but without a context. */
  datatype Event = Set(fields: seq<Field>) | Erase(keys: seq<string>) | Clear | Log(ts: nat) | Silent(ts: nat)

  function SetAll(m: map<string, string>, fields: seq<Field>): map<string, string> {
    if fields == [] then m else SetAll(m, fields[..|fields| - 1])[fields[|fields| - 1].key := fields[|fields| - 1].value]
  }

  function EraseAll(m: map<string, string>, keys: seq<string>): map<string, string> {
    if keys == [] then m else EraseAll(m, keys[..|keys| - 1]) - {keys[|keys| - 1]}
  }

  function Next(before: map<string, string>, e: Event): map<string, string> {
    match e
    case Set(fields) => SetAll(before, fields)
    case Erase(keys) => EraseAll(before, keys)
    case Clear => map[]
    case Log(_) => before
    case Silent(_) => before
  }

  /** The context a thread has built up by its events so far. */
  function Context(events: seq<Event>): map<string, string> {
    if events == [] then map[] else Next(Context(events[..|events| - 1]), events[|events| - 1])
  }

  /** After a set event every key that is not among its fields is as it was. */
  lemma ContextKeepsOthers(events: seq<Event>, fields: seq<Field>, key: string)
    requires forall i :: 0 <= i < |fields| ==> fields[i].key != key
    ensures var before, after := Context(events), Context(events + [Set(fields)]);
            (key in after <==> key in before) && (key in after ==> after[key] == before[key])
  {
    hide SetAll;
    ContextNext(events, Set(fields));
    SetAllOther(Context(events), fields, key);
  }

  lemma {:induction false} SetAllOther(m: map<string, string>, fields: seq<Field>, key: string)
    requires forall i :: 0 <= i < |fields| ==> fields[i].key != key
    ensures (key in SetAll(m, fields) <==> key in m) && (key in m ==> SetAll(m, fields)[key] == m[key])
  {
    if fields == [] {
    } else {
      SetAllOther(m, fields[..|fields| - 1], key);
    }
  }

  /** After a set event each of its keys has the value given last. */
  lemma ContextTakesLast(events: seq<Event>, fields: seq<Field>, i: nat)
    requires i < |fields| && forall j :: i < j < |fields| ==> fields[j].key != fields[i].key
    ensures var after := Context(events + [Set(fields)]);
            fields[i].key in after && after[fields[i].key] == fields[i].value
  {
    hide SetAll;
    ContextNext(events, Set(fields));
    SetAllLast(Context(events), fields, i);
  }

  lemma {:induction false} SetAllLast(m: map<string, string>, fields: seq<Field>, i: nat)
    requires i < |fields| && forall j :: i < j < |fields| ==> fields[j].key != fields[i].key
    ensures fields[i].key in SetAll(m, fields) && SetAll(m, fields)[fields[i].key] == fields[i].value
  {
    var n := |fields| - 1;
    if i == n {
    } else {
      SetAllLast(m, fields[..n], i);
      assert fields[n].key != fields[i].key;
    }
  }

  /** After an erase event exactly its keys are gone; after a clear event everything is; other events change nothing. */
  lemma ContextAfterErase(events: seq<Event>, keys: seq<string>, ts: nat)
    ensures var before, after := Context(events), Context(events + [Erase(keys)]);
            forall key :: (key in after <==> key in before && key !in keys) && (key in after ==> after[key] == before[key])
    ensures Context([]) == map[] && Context(events + [Clear]) == map[]
    ensures Context(events + [Log(ts)]) == Context(events) == Context(events + [Silent(ts)])
  {
    ContextNext(events, Erase(keys));
    ContextNext(events, Clear);
    ContextNext(events, Log(ts));
    ContextNext(events, Silent(ts));
    EraseAllKeys(Context(events), keys);
  }

  lemma {:induction false} EraseAllKeys(m: map<string, string>, keys: seq<string>)
    ensures forall key :: (key in EraseAll(m, keys) <==> key in m && key !in keys) &&
              (key in EraseAll(m, keys) ==> EraseAll(m, keys)[key] == m[key])
  {
    if keys == [] {
    } else {
      var n := |keys| - 1;
      EraseAllKeys(m, keys[..n]);
      assert keys == keys[..n] + [keys[n]];
    }
  }

  /** What a log event following these events must show. */
  ghost predicate Shows(parts: FormatParts, events: seq<Event>, text: string) {
    exists fields :: Lists(fields, Context(events)) && text == Render(parts, fields)
  }

  /** The texts of all buffered events, in order, are right: a silent one carries none. */
  ghost predicate Right(parts: FormatParts, events: seq<Event>, texts: seq<string>) {
    if events == [] then texts == [] else
      var before := events[..|events| - 1];
      if events[|events| - 1].Log? then
        texts != [] && Shows(parts, before, texts[|texts| - 1]) && Right(parts, before, texts[..|texts| - 1])
      else if events[|events| - 1].Silent? then
        texts != [] && texts[|texts| - 1] == "" && Right(parts, before, texts[..|texts| - 1])
      else Right(parts, before, texts)
  }

  /** There is only one right answer. */
  lemma {:induction false} RightUnique(parts: FormatParts, events: seq<Event>, a: seq<string>, b: seq<string>)
    requires Right(parts, events, a) && Right(parts, events, b)
    ensures a == b
    decreases |events|
  {
    hide Lists, Render, Context;
    if events == [] {
    } else {
      var before := events[..|events| - 1];
      if events[|events| - 1].Log? {
        RightUnique(parts, before, a[..|a| - 1], b[..|b| - 1]);
        var f :| Lists(f, Context(before)) && a[|a| - 1] == Render(parts, f);
        var g :| Lists(g, Context(before)) && b[|b| - 1] == Render(parts, g);
        ListsUnique(f, g, Context(before));
        assert a == a[..|a| - 1] + [a[|a| - 1]] && b == b[..|b| - 1] + [b[|b| - 1]];
      } else if events[|events| - 1].Silent? {
        RightUnique(parts, before, a[..|a| - 1], b[..|b| - 1]);
        assert a == a[..|a| - 1] + [""] && b == b[..|b| - 1] + [""];
      } else {
        RightUnique(parts, before, a, b);
      }
    }
  }

  /** One more field set, or one more key erased. */
  lemma AppliedNext(m: map<string, string>, fields: seq<Field>, keys: seq<string>, i: nat)
    ensures i < |fields| ==> SetAll(m, fields[..i + 1]) == SetAll(m, fields[..i])[fields[i].key := fields[i].value]
    ensures i < |keys| ==> EraseAll(m, keys[..i + 1]) == EraseAll(m, keys[..i]) - {keys[i]}
  {
    if i < |fields| { assert fields[..i + 1][..i] == fields[..i]; }
    if i < |keys| { assert keys[..i + 1][..i] == keys[..i]; }
  }

  lemma RightNext(parts: FormatParts, events: seq<Event>, texts: seq<string>, e: Event)
    requires Right(parts, events, texts) && !e.Log? && !e.Silent?
    ensures Right(parts, events + [e], texts)
  {
    assert (events + [e])[..|events|] == events;
  }

  lemma RightLog(parts: FormatParts, events: seq<Event>, texts: seq<string>, ts: nat, fields: seq<Field>)
    requires Right(parts, events, texts) && Lists(fields, Context(events))
    ensures Right(parts, events + [Log(ts)], texts + [Render(parts, fields)])
  {
    assert (events + [Log(ts)])[..|events|] == events;
    assert (texts + [Render(parts, fields)])[..|texts|] == texts;
  }

  lemma RightSilent(parts: FormatParts, events: seq<Event>, shown: seq<string>, buffered: seq<string>, ts: nat)
    requires Right(parts, events, shown + buffered)
    ensures Right(parts, events + [Silent(ts)], shown + (buffered + [""]))
  {
    var texts := shown + (buffered + [""]);
    assert (events + [Silent(ts)])[..|events|] == events;
    assert texts[..|texts| - 1] == shown + buffered;
  }

  lemma ContextNext(events: seq<Event>, e: Event)
    ensures Context(events + [e]) == Next(Context(events), e)
  {
    assert (events + [e])[..|events|] == events;
  }

  // ---- One thread context on the backend -------------------------------------------------------

  /** A slot of the transit buffer; slots are reused, text and all. */
  datatype Slot = Slot(ts: nat, mdc: string)

  /** The slot i places behind the front of a ring. */
  function At(reader: nat, i: nat, capacity: nat): nat
    requires reader < capacity && i < capacity
    ensures At(reader, i, capacity) < capacity
  {
    if reader + i < capacity then reader + i else reader + i - capacity
  }

  /** The occupied slots carry these texts, and every free slot is blank. */
  ghost predicate Carries(slots: seq<Slot>, reader: nat, texts: seq<string>)
    requires reader < |slots|
  {
    && |texts| <= |slots|
    && (forall i :: 0 <= i < |slots| ==> slots[At(reader, i, |slots|)].mdc == if i < |texts| then texts[i] else "")
  }

  function Rotated(slots: seq<Slot>, reader: nat): (r: seq<Slot>)
    requires reader < |slots|
    ensures |r| == |slots| && forall i :: 0 <= i < |r| ==> r[i] == slots[At(reader, i, |slots|)]
  {
    seq(|slots|, i requires 0 <= i < |slots| => slots[At(reader, i, |slots|)])
  }

  function Blank(n: nat): (r: seq<Slot>)
    ensures |r| == n && forall i :: 0 <= i < n ==> r[i] == Slot(0, "")
  {
    seq(n, _ => Slot(0, ""))
  }

  class ThreadContext {
    const parts: FormatParts
    const initialCapacity: nat
    var state: BackendMdcState?
    var slots: seq<Slot>
    var reader: nat
    var size: nat
    var shrinkRequested: bool
    /** The events taken from the queue, the texts shown by processed log events, and those still buffered. */
    ghost var consumed: seq<Event>
    ghost var shown: seq<string>
    ghost var buffered: seq<string>

    ghost predicate StateValid()
      reads this, state
    {
      if state == null then Context(consumed) == map[]
      else
        && state.parts == parts && state.Valid() && state.m == Context(consumed)
        && state.formatted == Render(parts, state.fields)
    }

    ghost predicate Valid()
      reads this, state
    {
      && initialCapacity > 0
      && reader < |slots| && size == |buffered| && Carries(slots, reader, buffered)
      && Right(parts, consumed, shown + buffered)
      && StateValid()
    }

    constructor (parts: FormatParts, initialCapacity: nat)
      requires initialCapacity > 0
      ensures Valid() && consumed == [] && shown == [] && this.parts == parts && state == null
    {
      this.parts, this.initialCapacity := parts, initialCapacity;
      state, slots, reader, size, shrinkRequested := null, Blank(initialCapacity), 0, 0, false;
      consumed, shown, buffered := [], [], [];
    }

    /** `_apply_mdc_event` for a set event. */
    method ApplySet(fields: seq<Field>)
      requires StateValid()
      modifies this`state, this`consumed, state
      ensures StateValid() && consumed == old(consumed) + [Set(fields)] && (state == old(state) || fresh(state))
    {
      hide Lists, Render, Context, SetAll;
      ContextNext(consumed, Set(fields));
      if state == null {
        state := new BackendMdcState(parts);
        NothingListed(parts, map[]);
      }
      ghost var m := Context(consumed);
      NothingApplied(m, fields, []);
      for i := 0 to |fields|
        invariant state != null && (state == old(state) || fresh(state)) && state.parts == parts
        invariant consumed == old(consumed) && state.Valid() && state.m == SetAll(m, fields[..i])
      {
        AppliedNext(m, fields, [], i);
        state.Set(fields[i].key, fields[i].value);
      }
      assert fields[..|fields|] == fields;
      state.RebuildFormattedMdc();
      consumed := consumed + [Set(fields)];
    }

    /** `_apply_mdc_event` for an erase event: an emptied state is dropped. */
    method ApplyErase(keys: seq<string>)
      requires StateValid()
      modifies this`state, this`consumed, state
      ensures StateValid() && consumed == old(consumed) + [Erase(keys)] && (state == old(state) || state == null)
    {
      hide Lists, Render, Context, EraseAll;
      ContextNext(consumed, Erase(keys));
      ghost var m := Context(consumed);
      NothingApplied(m, [], keys);
      if state != null {
        for i := 0 to |keys|
          invariant state == old(state) && state != null && state.parts == parts
          invariant consumed == old(consumed) && state.Valid() && state.m == EraseAll(m, keys[..i])
        {
          AppliedNext(m, [], keys, i);
          state.Erase(keys[i]);
        }
        assert keys[..|keys|] == keys;
        var empty := state.Empty();
        if empty {
          state := null;
        } else {
          state.RebuildFormattedMdc();
        }
      } else {
        EraseFromNothing(keys);
      }
      consumed := consumed + [Erase(keys)];
    }

    /** `_apply_mdc_event` for a clear event. */
    method ApplyClear()
      requires StateValid()
      modifies this`state, this`consumed
      ensures StateValid() && consumed == old(consumed) + [Clear] && state == null
    {
      hide Lists, Render, Context;
      ContextNext(consumed, Clear);
      state := null;
      consumed := consumed + [Clear];
    }

    /** `_expand`: the buffered events move to the front of a larger ring, the new slots are blank. */
    method Expand()
      requires reader < |slots| && size == |buffered| == |slots| && Carries(slots, reader, buffered)
      modifies this`slots, this`reader
      ensures reader == 0 && |slots| == 2 * |old(slots)| && Carries(slots, reader, buffered)
    {
      var n := |slots|;
      RotatedCarries(slots, reader, buffered);
      slots := Rotated(slots, reader) + Blank(n);
      reader := 0;
    }

    /** `back`: makes room when the ring is full, unless that fails. */
    method Back(allocationFails: bool) returns (room: bool)
      requires Valid()
      modifies this`slots, this`reader
      ensures Valid() && (room <==> !(size == |old(slots)| && allocationFails))
      ensures room ==> size < |slots| == if size == |old(slots)| then 2 * size else |old(slots)|
      ensures !room || size < |old(slots)| ==> slots == old(slots) && reader == old(reader)
    {
      hide Right, Lists, Render, Context, Carries;
      CarriesFits(slots, reader, buffered);
      if size == |slots| {
        if allocationFails { return false; }
        Expand();
      }
      room := true;
    }

    /** `_set_transit_event_mdc`, then `push_back`: without a state the slot keeps its text, which is blank. */
    method PushLog(ts: nat)
      requires Valid() && size < |slots|
      modifies this`slots, this`size, this`consumed, this`buffered
      ensures Valid() && consumed == old(consumed) + [Log(ts)] && shown == old(shown) && size == old(size) + 1
    {
      hide Right, Lists, Render, Context, Carries;
      var w := At(reader, size, |slots|);
      ghost var text := if state == null then "" else state.formatted;
      var mdc := if state != null then state.formatted else slots[w].mdc;
      NothingListed(parts, map[]);
      ShownNext(parts, consumed, shown, buffered, ts, text, if state == null then [] else state.fields);
      ContextNext(consumed, Log(ts));
      Carried(slots, reader, buffered, text, ts);
      slots := slots[w := Slot(ts, mdc)];
      size := size + 1;
      consumed, buffered := consumed + [Log(ts)], buffered + [text];
    }

    /** A silent event takes a slot as it is, blank, since nothing renders a context into it. */
    method PushSilent(ts: nat)
      requires Valid() && size < |slots|
      modifies this`slots, this`size, this`consumed, this`buffered
      ensures Valid() && consumed == old(consumed) + [Silent(ts)] && shown == old(shown)
      ensures size == old(size) + 1 && buffered == old(buffered) + [""]
    {
      hide Right, Lists, Render, Context, Carries;
      var w := At(reader, size, |slots|);
      RightSilent(parts, consumed, shown, buffered, ts);
      ContextNext(consumed, Silent(ts));
      Carried(slots, reader, buffered, "", ts);
      slots := slots[w := slots[w].(ts := ts)];
      size := size + 1;
      consumed, buffered := consumed + [Silent(ts)], buffered + [""];
    }

    /**
     One event from the queue. The slot at the back is fetched first, which may fail when the ring
     has to grow; the header is written to it; an event past the cutoff stays in the queue, with
     nothing applied, unless its logger has a user clock. Only an event that is taken counts as consumed.
     */
    method TryDecode(e: Event, ts: nat, userClock: bool, cutoff: nat, allocationFails: bool) returns (taken: bool)
      requires Valid() && (e.Log? || e.Silent? ==> e.ts == ts)
      modifies this, state
      ensures Valid() && shown == old(shown)
      ensures consumed == if taken then old(consumed) + [e] else old(consumed)
      ensures taken <==> !(old(size) == |old(slots)| && allocationFails) && (userClock || ts <= cutoff)
      ensures state == old(state) || state == null || fresh(state)
    {
      hide Right, Lists, Render, Context, Carries;
      var room := Back(allocationFails);
      if !room { return false; }
      var w := At(reader, size, |slots|);
      Carried(slots, reader, buffered, "", ts);
      slots := slots[w := slots[w].(ts := ts)];
      if !userClock && ts > cutoff { return false; }
      if !e.Log? && !e.Silent? { RightNext(parts, consumed, shown + buffered, e); }
      match e {
        case Set(fields) => ApplySet(fields);
        case Erase(keys) => ApplyErase(keys);
        case Clear => ApplyClear();
        case Log(_) => PushLog(ts);
        case Silent(_) => PushSilent(ts);
      }
      taken := true;
    }

    /** Processing shows the text of the oldest buffered event, blanks the slot and frees it. */
    method ProcessFront() returns (text: string)
      requires Valid() && size > 0
      modifies this`slots, this`reader, this`size, this`shown, this`buffered
      ensures Valid() && consumed == old(consumed) && size == old(size) - 1
      ensures text == old(buffered)[0] && shown == old(shown) + [text]
    {
      hide Right, Lists, Render, Context, Carries;
      text := slots[reader].mdc;
      FrontCarries(slots, reader, buffered);
      slots := slots[reader := slots[reader].(mdc := "")];
      assert shown + buffered == (shown + [text]) + buffered[1..];
      reader := if reader + 1 < |slots| then reader + 1 else 0;
      size := size - 1;
      shown, buffered := shown + [text], buffered[1..];
    }

    method RequestShrink()
      requires Valid()
      modifies this`shrinkRequested
      ensures Valid() && shrinkRequested
    {
      shrinkRequested := true;
    }

    /** `try_shrink`: on request an empty ring that has grown is replaced by a blank one of the initial capacity. */
    method TryShrink()
      requires Valid()
      modifies this`slots, this`reader, this`shrinkRequested
      ensures Valid() && shrinkRequested == (old(shrinkRequested) && size > 0)
      ensures if old(shrinkRequested) && size == 0 && |old(slots)| > initialCapacity then |slots| == initialCapacity
              else slots == old(slots) && reader == old(reader)
    {
      if shrinkRequested && size == 0 {
        if |slots| > initialCapacity {
          slots, reader := Blank(initialCapacity), 0;
        }
        shrinkRequested := false;
      }
    }

    /**
     Whatever was decoded, rejected, retried, processed or reallocated in between: the texts shown
     so far are those of the first buffered events, a log event showing the context its predecessors built up.
     */
    lemma ShownIsRight(texts: seq<string>)
      requires Valid() && Right(parts, consumed, texts)
      ensures shown <= texts
    {
      hide Lists, Context, Carries;
      RightUnique(parts, consumed, shown + buffered, texts);
    }
  }

  // ---- One thread from its queue to the shown texts --------------------------------------------

  /** An event as it lies in the queue. */
  datatype Queued = Queued(event: Event, ts: nat, userClock: bool)

  function Events(queue: seq<Queued>): (r: seq<Event>)
    ensures |r| == |queue| && forall i :: 0 <= i < |r| ==> r[i] == queue[i].event
  {
    seq(|queue|, i requires 0 <= i < |queue| => queue[i].event)
  }

  /** What the backend does with one thread, in whatever order. */
  datatype Use =
    | Decode(cutoff: nat, allocationFails: bool)
    | Process
    | RequestShrink
    | TryShrink

  /**
   The whole life of a thread's context, over any interleaving of decoding attempts, which may be
   turned down and repeated, with processing and shrinking: the texts shown so far, followed by
   those still buffered, are exactly the right ones for the events taken from the queue, in order.
   */
  method LiveThread(parts: FormatParts, initialCapacity: nat, queue: seq<Queued>, uses: seq<Use>)
    returns (taken: nat, shown: seq<string>, left: nat)
    requires initialCapacity > 0
    requires forall i :: 0 <= i < |queue| ==> queue[i].event.Log? || queue[i].event.Silent? ==> queue[i].event.ts == queue[i].ts
    ensures taken <= |queue|
    ensures exists buffered :: |buffered| == left && Right(parts, Events(queue)[..taken], shown + buffered)
  {
    hide Right;
    var context := new ThreadContext(parts, initialCapacity);
    taken, shown := 0, [];
    for i := 0 to |uses|
      invariant fresh(context) && (context.state == null || fresh(context.state))
      invariant context.Valid() && context.parts == parts
      invariant taken <= |queue| && context.consumed == Events(queue)[..taken] && context.shown == shown
    {
      match uses[i] {
        case Decode(cutoff, allocationFails) =>
          if taken < |queue| {
            var head := queue[taken];
            var ok := context.TryDecode(head.event, head.ts, head.userClock, cutoff, allocationFails);
            if ok { taken := taken + 1; }
          }
        case Process =>
          if context.size > 0 {
            var text := context.ProcessFront();
            shown := shown + [text];
          }
        case RequestShrink => context.RequestShrink();
        case TryShrink => context.TryShrink();
      }
    }
    left := context.size;
    assert Right(parts, Events(queue)[..taken], shown + context.buffered);
  }

  lemma NothingApplied(m: map<string, string>, fields: seq<Field>, keys: seq<string>)
    ensures SetAll(m, fields[..0]) == m && EraseAll(m, keys[..0]) == m
  {}

  lemma {:induction false} EraseFromNothing(keys: seq<string>)
    ensures EraseAll(map[], keys) == map[]
  {
    if keys == [] {
    } else {
      EraseFromNothing(keys[..|keys| - 1]);
    }
  }

  lemma NothingListed(parts: FormatParts, m: map<string, string>)
    ensures Lists([], map[]) && Render(parts, []) == ""
    ensures Lists([], m) ==> m == map[]
  {
    assert Lists([], m) ==> m.Keys == {};
  }

  lemma Carried(slots: seq<Slot>, reader: nat, texts: seq<string>, text: string, ts: nat)
    requires reader < |slots| && Carries(slots, reader, texts) && |texts| < |slots|
    ensures slots[At(reader, |texts|, |slots|)].mdc == ""
    ensures var w := At(reader, |texts|, |slots|); Carries(slots[w := slots[w].(ts := ts)], reader, texts)
    ensures Carries(slots[At(reader, |texts|, |slots|) := Slot(ts, text)], reader, texts + [text])
  {}

  lemma FrontCarries(slots: seq<Slot>, reader: nat, texts: seq<string>)
    requires reader < |slots| && Carries(slots, reader, texts) && texts != []
    ensures slots[reader].mdc == texts[0]
    ensures Carries(slots[reader := slots[reader].(mdc := "")], if reader + 1 < |slots| then reader + 1 else 0, texts[1..])
  {
    hide At;
    var n := |slots|;
    var after := if reader + 1 < n then reader + 1 else 0;
    AtNext(reader, 0, n);
    var next := slots[reader := slots[reader].(mdc := "")];
    forall i | 0 <= i < n ensures next[At(after, i, n)].mdc == if i < |texts[1..]| then texts[1..][i] else "" {
      AtNext(reader, i, n);
    }
  }

  lemma AtNext(reader: nat, i: nat, n: nat)
    requires reader < n && i < n
    ensures At(reader, 0, n) == reader
    ensures var after := if reader + 1 < n then reader + 1 else 0;
            if i + 1 < n then At(after, i, n) == At(reader, i + 1, n) != reader else At(after, i, n) == reader
  {}

  lemma CarriesFits(slots: seq<Slot>, reader: nat, texts: seq<string>)
    requires reader < |slots| && Carries(slots, reader, texts)
    ensures |texts| <= |slots|
  {}

  lemma RotatedCarries(slots: seq<Slot>, reader: nat, texts: seq<string>)
    requires reader < |slots| == |texts| && Carries(slots, reader, texts)
    ensures Carries(Rotated(slots, reader) + Blank(|slots|), 0, texts)
  {}

  lemma ShownNext(parts: FormatParts, events: seq<Event>, shown: seq<string>, buffered: seq<string>, ts: nat, text: string, fields: seq<Field>)
    requires Right(parts, events, shown + buffered) && Lists(fields, Context(events)) && text == Render(parts, fields)
    ensures Right(parts, events + [Log(ts)], shown + (buffered + [text]))
  {
    hide Lists, Context, Render, Right;
    RightLog(parts, events, shown + buffered, ts, fields);
    assert (shown + buffered) + [text] == shown + (buffered + [text]);
  }
}
