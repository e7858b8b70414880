/**
 Named arguments in format templates: the rewriting in quill/include/quill/backend/BackendWorker.h
 that turns `{name:syntax}` into `{:syntax}` and makes a distinct key for every field.
 */
module NamedArgs {
  import opened Containers
  import opened Decimals

  // ---- Templates -------------------------------------------------------------------------------

  /** What a template is made of: plain characters, escaped braces, fields, and an unclosed rest. */
  datatype Piece = Char(c: char) | Escaped | Field(text: string) | Tail(text: string)

  predicate DoubledAt(t: string, pos: nat) {
    pos + 1 < |t| && t[pos] == '{' && t[pos + 1] == '{'
  }

  /** The closing brace of a field, nested fields skipped. */
  function Close(t: string, pos: nat, nested: nat): (r: Option<nat>)
    ensures r.Some? ==> pos <= r.value < |t| && t[r.value] == '}'
    decreases |t| - pos
  {
    if pos >= |t| then None
    else if DoubledAt(t, pos) then Close(t, pos + 2, nested)
    else if t[pos] == '{' then Close(t, pos + 1, nested + 1)
    else if t[pos] == '}' then (if nested == 0 then Some(pos) else Close(t, pos + 1, nested - 1))
    else Close(t, pos + 1, nested)
  }

  /** The text between two positions is made of whole tokens and its braces balance, from this depth to zero. */
  predicate Balanced(t: string, pos: nat, end: nat, nested: nat)
    requires end <= |t|
    decreases |t| - pos
  {
    if pos >= end then pos == end && nested == 0
    else if DoubledAt(t, pos) then Balanced(t, pos + 2, end, nested)
    else if t[pos] == '{' then Balanced(t, pos + 1, end, nested + 1)
    else if t[pos] == '}' then nested > 0 && Balanced(t, pos + 1, end, nested - 1)
    else Balanced(t, pos + 1, end, nested)
  }

  /** The closing brace is the one position with balanced text before it. */
  lemma {:induction false} CloseIff(t: string, pos: nat, nested: nat, r: nat)
    requires r < |t|
    ensures Close(t, pos, nested) == Some(r) <==> pos <= r && t[r] == '}' && Balanced(t, pos, r, nested)
    decreases |t| - pos
  {
    if pos < |t| {
      if DoubledAt(t, pos) {
        CloseIff(t, pos + 2, nested, r);
      } else if t[pos] == '{' {
        CloseIff(t, pos + 1, nested + 1, r);
      } else if t[pos] == '}' {
        if nested > 0 { CloseIff(t, pos + 1, nested - 1, r); }
      } else {
        CloseIff(t, pos + 1, nested, r);
      }
    }
  }

  function Parse(t: string, pos: nat): seq<Piece>
    decreases |t| - pos
  {
    if pos >= |t| then []
    else if t[pos] != '{' then [Char(t[pos])] + Parse(t, pos + 1)
    else if DoubledAt(t, pos) then [Escaped] + Parse(t, pos + 2)
    else
      match Close(t, pos + 1, 0)
      case None => [Tail(t[pos..])]
      case Some(r) => [Field(t[pos + 1..r])] + Parse(t, r + 1)
  }

  function PieceText(p: Piece): string {
    match p
    case Char(c) => [c]
    case Escaped => "{{"
    case Field(text) => "{" + text + "}"
    case Tail(text) => text
  }

  function Unparse(ps: seq<Piece>): string {
    if ps == [] then "" else PieceText(ps[0]) + Unparse(ps[1..])
  }

  lemma UnparseFirst(p: Piece, ps: seq<Piece>)
    ensures Unparse([p] + ps) == PieceText(p) + Unparse(ps)
  {
    assert ([p] + ps)[1..] == ps;
  }

  lemma FieldCut(t: string, pos: nat, r: nat)
    requires pos < r < |t| && t[pos] == '{' && t[r] == '}'
    ensures PieceText(Field(t[pos + 1..r])) + t[r + 1..] == t[pos..]
  {
    assert t[pos..] == "{" + t[pos + 1..r] + "}" + t[r + 1..];
  }

  /** Parsing loses nothing. */
  lemma {:induction false} ParseRoundTrip(t: string, pos: nat)
    requires pos <= |t|
    ensures Unparse(Parse(t, pos)) == t[pos..]
    decreases |t| - pos
  {
    hide Unparse, Close, PieceText;
    UnparseNothing();
    if pos == |t| {
    } else if t[pos] != '{' {
      ParseRoundTrip(t, pos + 1);
      UnparseFirst(Char(t[pos]), Parse(t, pos + 1));
      ShortCut(t, pos);
    } else if DoubledAt(t, pos) {
      ParseRoundTrip(t, pos + 2);
      UnparseFirst(Escaped, Parse(t, pos + 2));
      ShortCut(t, pos);
    } else if Close(t, pos + 1, 0).Some? {
      var r := Close(t, pos + 1, 0).value;
      ParseRoundTrip(t, r + 1);
      UnparseFirst(Field(t[pos + 1..r]), Parse(t, r + 1));
      FieldCut(t, pos, r);
    } else {
      UnparseFirst(Tail(t[pos..]), []);
      ShortCut(t, pos);
      assert [Tail(t[pos..])] + [] == [Tail(t[pos..])];
    }
  }

  lemma ShortCut(t: string, pos: nat)
    requires pos < |t|
    ensures PieceText(Char(t[pos])) + t[pos + 1..] == t[pos..]
    ensures DoubledAt(t, pos) ==> PieceText(Escaped) + t[pos + 2..] == t[pos..]
    ensures PieceText(Tail(t[pos..])) + "" == t[pos..]
  {
    assert t[pos..] == [t[pos]] + t[pos + 1..];
  }

  lemma UnparseNothing()
    ensures Unparse([]) == ""
  {}

  // ---- What the rewriting produces -------------------------------------------------------------

  /** The first colon splits a field's text into the argument's name and its syntax, colon included. */
  function ColonAt(text: string): (i: nat)
    ensures i <= |text| && (forall k :: 0 <= k < i ==> text[k] != ':') && (i < |text| ==> text[i] == ':')
  {
    if text == "" || text[0] == ':' then 0 else
      var i := ColonAt(text[1..]);
      assert forall k :: 0 < k < i + 1 ==> text[k] == text[1..][k - 1];
      i + 1
  }

  function NameOf(text: string): string { text[..ColonAt(text)] }
  function SyntaxOf(text: string): string { text[ColonAt(text)..] }

  /** Name and syntax make up the text of a field; the name ends in front of the first colon. */
  lemma FieldSplits(text: string)
    ensures NameOf(text) + SyntaxOf(text) == text
    ensures ':' !in NameOf(text) && (SyntaxOf(text) == "" || SyntaxOf(text)[0] == ':')
  {}

  /** Nested fields of a syntax lose their names. */
  function Blanked(ps: seq<Piece>): string {
    if ps == [] then "" else Blanked(ps[..|ps| - 1]) + (if ps[|ps| - 1].Field? then "{}" else PieceText(ps[|ps| - 1]))
  }

  function Normalized(syntax: string): string { Blanked(Parse(syntax, 0)) }

  /** The template without argument names. */
  function Rewritten(ps: seq<Piece>): string {
    if ps == [] then "" else
      var p := ps[|ps| - 1];
      Rewritten(ps[..|ps| - 1]) + (if p.Field? then "{" + Normalized(SyntaxOf(p.text)) + "}" else PieceText(p))
  }

  /** The texts of the fields, in order. */
  function Fields(ps: seq<Piece>): seq<string> {
    if ps == [] then [] else Fields(ps[..|ps| - 1]) + (if ps[|ps| - 1].Field? then [ps[|ps| - 1].text] else [])
  }

  datatype Key = Key(name: string, syntax: string)

  predicate Taken(keys: seq<Key>, name: string) {
    exists i :: 0 <= i < |keys| && keys[i].name == name
  }

  /** The names tried for an argument: its own, then with _1, _2 and so on. */
  function Candidate(name: string, k: nat): string {
    if k == 0 then name else name + "_" + Decimal(k)
  }

  lemma CandidateInjective(name: string, j: nat, k: nat)
    requires Candidate(name, j) == Candidate(name, k)
    ensures j == k
  {
    hide Decimal;
    if j > 0 && k > 0 {
      assert (name + "_" + Decimal(j))[|name| + 1..] == Decimal(j);
      assert (name + "_" + Decimal(k))[|name| + 1..] == Decimal(k);
      DecimalInjective(j, k);
    }
  }

  /** The key of an argument is its first candidate not taken by the keys before it. */
  ghost predicate FirstFree(before: seq<Key>, name: string, key: string) {
    exists k: nat :: k <= |before| && key == Candidate(name, k) && !Taken(before, key) && forall j: nat :: j < k ==> Taken(before, Candidate(name, j))
  }

  function Names(keys: seq<Key>): set<string> {
    set i | 0 <= i < |keys| :: keys[i].name
  }

  lemma {:induction false} FewNames(keys: seq<Key>)
    ensures |Names(keys)| <= |keys|
  {
    if keys == [] {
      assert Names(keys) == {};
    } else {
      var init, last := keys[..|keys| - 1], keys[|keys| - 1];
      FewNames(init);
      assert Names(keys) == Names(init) + {last.name};
    }
  }

  lemma SubsetSize(a: set<string>, b: set<string>)
    requires a <= b
    ensures |a| <= |b|
  {
    assert b == a + (b - a);
  }

  /** `_make_unique_named_arg_key`: at most one try more than there are keys. */
  method MakeUniqueKey(existing: seq<Key>, name: string) returns (key: string)
    ensures FirstFree(existing, name, key)
  {
    hide Candidate;
    key := name;
    var suffix := 1;
    ghost var tried: set<string> := {};
    FewNames(existing);
    CandidateIs(name, 0);
    while true
      invariant suffix >= 1 && key == Candidate(name, suffix - 1)
      invariant tried <= Names(existing) && |tried| == suffix - 1
      invariant forall x :: x in tried ==> exists j: nat :: j < suffix - 1 && x == Candidate(name, j)
      invariant forall j: nat :: j < suffix - 1 ==> Taken(existing, Candidate(name, j))
      decreases |existing| - (suffix - 1)
    {
      SubsetSize(tried, Names(existing));
      var taken := false;
      for i := 0 to |existing|
        invariant taken <==> exists k :: 0 <= k < i && existing[k].name == key
      {
        if existing[i].name == key {
          taken := true;
          break;
        }
      }
      if !taken { return; }
      ghost var k :| 0 <= k < |existing| && existing[k].name == key;
      if key in tried {
        var j: nat :| j < suffix - 1 && key == Candidate(name, j);
        CandidateInjective(name, j, suffix - 1);
      }
      assert existing[k].name in Names(existing);
      SubsetSize(tried + {key}, Names(existing));
      tried := tried + {key};
      CandidateIs(name, suffix);
      key := name + "_" + Decimal(suffix);
      suffix := suffix + 1;
    }
  }

  lemma CandidateIs(name: string, k: nat)
    ensures Candidate(name, 0) == name && (k > 0 ==> Candidate(name, k) == name + "_" + Decimal(k))
  {}

  // ---- The rewriting ---------------------------------------------------------------------------

  /** `_find_placeholder_closing_brace`. */
  method FindClosingBrace(t: string, from: nat) returns (r: Option<nat>)
    requires from <= |t|
    ensures r == Close(t, from, 0)
  {
    var nested := 0;
    var pos := from;
    while pos < |t|
      invariant from <= pos && Close(t, from, 0) == Close(t, pos, nested)
      decreases |t| - pos
    {
      if t[pos] == '{' {
        if pos + 1 < |t| && t[pos + 1] == '{' {
          pos := pos + 2;
          continue;
        }
        nested := nested + 1;
        pos := pos + 1;
        continue;
      }
      if t[pos] == '}' {
        if nested == 0 { return Some(pos); }
        nested := nested - 1;
      }
      pos := pos + 1;
    }
    r := None;
  }

  lemma BlankedNext(ps: seq<Piece>, p: Piece)
    ensures Blanked(ps + [p]) == Blanked(ps) + (if p.Field? then "{}" else PieceText(p))
  {
    assert (ps + [p])[..|ps|] == ps;
  }

  /** One turn of a scanning loop: the piece at a position, and where the next one starts. */
  lemma ParseStep(t: string, pos: nat, done: seq<Piece>)
    requires pos < |t|
    ensures t[pos] != '{' ==> done + Parse(t, pos) == (done + [Char(t[pos])]) + Parse(t, pos + 1)
    ensures DoubledAt(t, pos) ==> done + Parse(t, pos) == (done + [Escaped]) + Parse(t, pos + 2)
    ensures t[pos] == '{' && !DoubledAt(t, pos) ==>
              match Close(t, pos + 1, 0)
              case None => done + Parse(t, pos) == done + [Tail(t[pos..])]
              case Some(r) => done + Parse(t, pos) == (done + [Field(t[pos + 1..r])]) + Parse(t, r + 1)
  {
    hide Close;
    if t[pos] != '{' {
      assert done + ([Char(t[pos])] + Parse(t, pos + 1)) == (done + [Char(t[pos])]) + Parse(t, pos + 1);
    } else if DoubledAt(t, pos) {
      assert done + ([Escaped] + Parse(t, pos + 2)) == (done + [Escaped]) + Parse(t, pos + 2);
    } else {
      match Close(t, pos + 1, 0)
      case None =>
      case Some(r) =>
        assert done + ([Field(t[pos + 1..r])] + Parse(t, r + 1)) == (done + [Field(t[pos + 1..r])]) + Parse(t, r + 1);
    }
  }

  lemma ParseEnd(t: string, pos: nat, done: seq<Piece>)
    requires pos >= |t|
    ensures done + Parse(t, pos) == done
  {}

  /** `_normalize_named_arg_syntax`. */
  method NormalizeSyntax(syntax: string) returns (normalized: string)
    ensures normalized == Normalized(syntax)
  {
    hide Parse, Blanked, Close, PieceText;
    normalized := "";
    ghost var done: seq<Piece> := [];
    var pos := 0;
    NothingYet(syntax);
    while pos < |syntax|
      invariant normalized == Blanked(done) && Parse(syntax, 0) == done + Parse(syntax, pos)
      decreases |syntax| - pos
    {
      ParseStep(syntax, pos, done);
      if syntax[pos] != '{' {
        BlankedNext(done, Char(syntax[pos]));
        TextsOf(syntax[pos], "");
        normalized, done := normalized + [syntax[pos]], done + [Char(syntax[pos])];
        pos := pos + 1;
        continue;
      }
      if pos + 1 < |syntax| && syntax[pos + 1] == '{' {
        BlankedNext(done, Escaped);
        TextsOf('{', "");
        normalized, done := normalized + "{{", done + [Escaped];
        pos := pos + 2;
        continue;
      }
      var close := FindClosingBrace(syntax, pos + 1);
      if close.None? {
        BlankedNext(done, Tail(syntax[pos..]));
        TextsOf('{', syntax[pos..]);
        normalized, done := normalized + syntax[pos..], done + [Tail(syntax[pos..])];
        return;
      }
      BlankedNext(done, Field(syntax[pos + 1..close.value]));
      normalized, done := normalized + "{}", done + [Field(syntax[pos + 1..close.value])];
      pos := close.value + 1;
    }
    ParseEnd(syntax, pos, done);
  }

  lemma NothingYet(t: string)
    ensures [] + Parse(t, 0) == Parse(t, 0)
    ensures Blanked([]) == "" && Rewritten([]) == "" && KeysFor(Fields([]), [])
  {}

  lemma TextsOf(c: char, rest: string)
    ensures PieceText(Char(c)) == [c] && PieceText(Escaped) == "{{" && PieceText(Tail(rest)) == rest
  {}

  /** The keys made so far: one for each field, each the first free candidate for its argument. */
  ghost predicate KeysFor(fields: seq<string>, keys: seq<Key>) {
    && |keys| == |fields|
    && forall i :: 0 <= i < |keys| ==>
         keys[i].syntax == Normalized(SyntaxOf(fields[i])) && FirstFree(keys[..i], NameOf(fields[i]), keys[i].name)
  }

  /** So no two keys are the same. */
  lemma KeysDistinct(fields: seq<string>, keys: seq<Key>)
    requires KeysFor(fields, keys)
    ensures forall i, j :: 0 <= i < j < |keys| ==> keys[i].name != keys[j].name
  {
    hide Normalized, SyntaxOf, NameOf, Candidate;
    forall i, j | 0 <= i < j < |keys| ensures keys[i].name != keys[j].name {
      assert FirstFree(keys[..j], NameOf(fields[j]), keys[j].name);
      assert keys[..j][i] == keys[i];
    }
  }

  lemma KeysForNext(fields: seq<string>, keys: seq<Key>, text: string, key: Key)
    requires KeysFor(fields, keys) && key.syntax == Normalized(SyntaxOf(text)) && FirstFree(keys, NameOf(text), key.name)
    ensures KeysFor(fields + [text], keys + [key])
  {
    hide Normalized, SyntaxOf, NameOf, FirstFree;
    var fs, ks := fields + [text], keys + [key];
    forall i | 0 <= i < |ks| ensures ks[i].syntax == Normalized(SyntaxOf(fs[i])) && FirstFree(ks[..i], NameOf(fs[i]), ks[i].name) {
      assert ks[..i] == keys[..i];
      assert keys[..|keys|] == keys;
    }
  }

  lemma RewrittenNext(ps: seq<Piece>, p: Piece)
    ensures Rewritten(ps + [p]) == Rewritten(ps) + (if p.Field? then "{" + Normalized(SyntaxOf(p.text)) + "}" else PieceText(p))
    ensures Fields(ps + [p]) == if p.Field? then Fields(ps) + [p.text] else Fields(ps)
  {
    hide Normalized, SyntaxOf;
    assert (ps + [p])[..|ps|] == ps;
    assert Fields(ps) + [] == Fields(ps);
  }

  /**
   `_process_named_args_format_message`: the template keeps everything but the names, and there is
   one key per field, in order, no two alike.
   */
  method ProcessTemplate(t: string) returns (fmt: string, keys: seq<Key>)
    ensures fmt == Rewritten(Parse(t, 0))
    ensures KeysFor(Fields(Parse(t, 0)), keys)
    ensures forall i, j :: 0 <= i < j < |keys| ==> keys[i].name != keys[j].name
  {
    hide Parse, Rewritten, Fields, Close, KeysFor, FirstFree, PieceText, Normalized, Candidate, Taken, ColonAt;
    fmt, keys := "", [];
    ghost var done: seq<Piece> := [];
    var pos := 0;
    NothingYet(t);
    while pos < |t|
      invariant pos <= |t| && fmt == Rewritten(done) && KeysFor(Fields(done), keys) && Parse(t, 0) == done + Parse(t, pos)
      decreases |t| - pos
    {
      ParseStep(t, pos, done);
      if t[pos] != '{' {
        RewrittenNext(done, Char(t[pos]));
        TextsOf(t[pos], "");
        fmt, done := fmt + [t[pos]], done + [Char(t[pos])];
        pos := pos + 1;
        continue;
      }
      if pos + 1 < |t| && t[pos + 1] == '{' {
        RewrittenNext(done, Escaped);
        TextsOf('{', "");
        fmt, done := fmt + "{{", done + [Escaped];
        pos := pos + 2;
        continue;
      }
      var close := FindClosingBrace(t, pos + 1);
      if close.None? {
        RewrittenNext(done, Tail(t[pos..]));
        TextsOf('{', t[pos..]);
        fmt, done := fmt + t[pos..], done + [Tail(t[pos..])];
        pos := |t|;
        break;
      }
      var text := t[pos + 1..close.value];
      var colon := ColonAt(text);
      var syntax := NormalizeSyntax(text[colon..]);
      var name := MakeUniqueKey(keys, text[..colon]);
      RewrittenNext(done, Field(text));
      KeysForNext(Fields(done), keys, text, Key(name, syntax));
      fmt := fmt + ("{" + syntax + "}");
      keys, done := keys + [Key(name, syntax)], done + [Field(text)];
      pos := close.value + 1;
    }
    ParseEnd(t, |t|, done);
    KeysDistinct(Fields(Parse(t, 0)), keys);
  }

  // ---- What comes out of ordinary templates ----------------------------------------------------

  /** What the rewriting makes of a first piece. */
  lemma {:induction false} FirstRewritten(p: Piece, ps: seq<Piece>)
    ensures Rewritten([p] + ps) == (if p.Field? then "{" + Normalized(SyntaxOf(p.text)) + "}" else PieceText(p)) + Rewritten(ps)
    decreases |ps|
  {
    hide Normalized, SyntaxOf, PieceText, Rewritten;
    NothingMade();
    if ps == [] {
      assert [p] + ps == [] + [p];
      RewrittenNext([], p);
    } else {
      var init, last := ps[..|ps| - 1], ps[|ps| - 1];
      assert ps == init + [last] && [p] + ps == ([p] + init) + [last];
      FirstRewritten(p, init);
      RewrittenNext([p] + init, last);
      RewrittenNext(init, last);
      var x := if p.Field? then "{" + Normalized(SyntaxOf(p.text)) + "}" else PieceText(p);
      var z := if last.Field? then "{" + Normalized(SyntaxOf(last.text)) + "}" else PieceText(last);
      ThreeParts(x, Rewritten(init), z);
    }
  }

  lemma NothingMade()
    ensures Rewritten([]) == "" && Blanked([]) == "" && Fields([]) == []
  {}

  lemma {:induction false} FirstBlanked(p: Piece, ps: seq<Piece>)
    ensures Blanked([p] + ps) == (if p.Field? then "{}" else PieceText(p)) + Blanked(ps)
    decreases |ps|
  {
    hide PieceText, Blanked;
    NothingMade();
    if ps == [] {
      assert [p] + ps == [] + [p];
      BlankedNext([], p);
    } else {
      var init, last := ps[..|ps| - 1], ps[|ps| - 1];
      assert ps == init + [last] && [p] + ps == ([p] + init) + [last];
      FirstBlanked(p, init);
      BlankedNext([p] + init, last);
      BlankedNext(init, last);
      ThreeParts(if p.Field? then "{}" else PieceText(p), Blanked(init), if last.Field? then "{}" else PieceText(last));
    }
  }

  lemma {:induction false} FirstField(p: Piece, ps: seq<Piece>)
    ensures Fields([p] + ps) == (if p.Field? then [p.text] else []) + Fields(ps)
    decreases |ps|
  {
    if ps == [] {
      assert [p] + ps == [p] && [p][..0] == [];
    } else {
      var init, last := ps[..|ps| - 1], ps[|ps| - 1];
      assert ([p] + ps)[..|ps|] == [p] + init;
      FirstField(p, init);
    }
  }

  lemma FirstPiece(p: Piece, ps: seq<Piece>)
    ensures Rewritten([p] + ps) == (if p.Field? then "{" + Normalized(SyntaxOf(p.text)) + "}" else PieceText(p)) + Rewritten(ps)
    ensures Blanked([p] + ps) == (if p.Field? then "{}" else PieceText(p)) + Blanked(ps)
    ensures Fields([p] + ps) == (if p.Field? then [p.text] else []) + Fields(ps)
  {
    FirstRewritten(p, ps);
    FirstBlanked(p, ps);
    FirstField(p, ps);
  }

  lemma ParseChar(t: string, pos: nat)
    requires pos < |t| && t[pos] != '{'
    ensures Parse(t, pos) == [Char(t[pos])] + Parse(t, pos + 1) && PieceText(Char(t[pos])) == [t[pos]]
  {}

  /** Text without an opening brace is kept, by the rewriting and by the blanking. */
  lemma {:induction false} PlainText(t: string, pos: nat, end: nat)
    requires pos <= end <= |t| && '{' !in t[pos..end]
    ensures Rewritten(Parse(t, pos)) == t[pos..end] + Rewritten(Parse(t, end))
    ensures Blanked(Parse(t, pos)) == t[pos..end] + Blanked(Parse(t, end))
    ensures Fields(Parse(t, pos)) == Fields(Parse(t, end))
    decreases end - pos
  {
    hide Rewritten, Blanked, Fields, Parse, PieceText;
    if pos == end {
    } else {
      assert t[pos] == t[pos..end][0] && t[pos..end] == [t[pos]] + t[pos + 1..end];
      PlainText(t, pos + 1, end);
      ParseChar(t, pos);
      FirstPiece(Char(t[pos]), Parse(t, pos + 1));
      ThreeParts([t[pos]], t[pos + 1..end], Rewritten(Parse(t, end)));
      ThreeParts([t[pos]], t[pos + 1..end], Blanked(Parse(t, end)));
    }
  }

  lemma {:induction false} PlainClose(t: string, pos: nat, r: nat)
    requires pos <= r < |t| && t[r] == '}' && '{' !in t[pos..r] && '}' !in t[pos..r]
    ensures Close(t, pos, 0) == Some(r)
    decreases r - pos
  {
    if pos == r {
    } else {
      assert t[pos] == t[pos..r][0] && t[pos..r][1..] == t[pos + 1..r];
      PlainClose(t, pos + 1, r);
    }
  }

  /** A syntax without nested fields stays; a nested field keeps only its braces. */
  lemma NormalizedExact(text: string, name: string)
    requires '{' !in text && '{' !in name && '}' !in name
    ensures Normalized(text) == text
    ensures Normalized(text + "{" + name + "}") == text + "{}"
  {
    hide Parse, Blanked;
    PlainText(text, 0, |text|);
    assert text[0..|text|] == text;
    BlankedEnd(text);
    var t := text + "{" + name + "}";
    NestedAt(text, name);
    PlainText(t, 0, |text|);
    OneField(t, |text|, name);
    BlankedEnd(t);
  }

  lemma BlankedEnd(t: string)
    ensures Blanked(Parse(t, |t|)) == ""
  {}

  lemma NestedAt(text: string, name: string)
    ensures var t, n := text + "{" + name + "}", |text|;
            && |t| == n + |name| + 2 && t[0..n] == text && t[n] == '{' && t[|t| - 1] == '}' && t[n + 1..n + 1 + |name|] == name
  {}

  /** A field of plain text at a position. */
  lemma OneField(t: string, pos: nat, text: string)
    requires pos + |text| + 1 < |t| && t[pos] == '{' && t[pos + |text| + 1] == '}' && t[pos + 1..pos + 1 + |text|] == text
    requires '{' !in text && '}' !in text
    ensures Blanked(Parse(t, pos)) == "{}" + Blanked(Parse(t, pos + |text| + 2))
    ensures Rewritten(Parse(t, pos)) == "{" + Normalized(SyntaxOf(text)) + "}" + Rewritten(Parse(t, pos + |text| + 2))
    ensures Fields(Parse(t, pos)) == [text] + Fields(Parse(t, pos + |text| + 2))
  {
    hide Rewritten, Blanked, Fields, Normalized, SyntaxOf, Close;
    var r := pos + |text| + 1;
    PlainClose(t, pos + 1, r);
    if text != "" { assert t[pos + 1] == text[0]; }
    assert !DoubledAt(t, pos);
    FirstPiece(Field(text), Parse(t, r + 1));
  }

  /** Text followed by a field with a name and a syntax. */
  datatype Segment = Segment(text: string, name: string, syntax: string)

  predicate Ordinary(s: Segment) {
    && '{' !in s.text
    && '{' !in s.name && '}' !in s.name && ':' !in s.name
    && '{' !in s.syntax && '}' !in s.syntax && (s.syntax == "" || s.syntax[0] == ':')
  }

  function Template(segments: seq<Segment>): string {
    if segments == [] then "" else
      var s := segments[0];
      s.text + ("{" + (s.name + s.syntax) + "}") + Template(segments[1..])
  }

  function WithoutNames(segments: seq<Segment>): string {
    if segments == [] then "" else
      var s := segments[0];
      s.text + ("{" + s.syntax + "}") + WithoutNames(segments[1..])
  }

  lemma {:induction false} ColonIs(text: string, n: nat)
    requires n <= |text| && (forall i :: 0 <= i < n ==> text[i] != ':') && (n < |text| ==> text[n] == ':')
    ensures ColonAt(text) == n
  {
    if n == 0 {
    } else {
      ColonIs(text[1..], n - 1);
    }
  }

  lemma NameAndSyntax(s: Segment)
    requires Ordinary(s)
    ensures NameOf(s.name + s.syntax) == s.name && SyntaxOf(s.name + s.syntax) == s.syntax
  {
    var text := s.name + s.syntax;
    assert forall i :: 0 <= i < |s.name| ==> text[i] == s.name[i];
    ColonIs(text, |s.name|);
    assert text[..|s.name|] == s.name && text[|s.name|..] == s.syntax;
  }

  /** Every field of an ordinary template loses its name, keeps its syntax, and is listed for its key. */
  lemma {:induction false} TemplateRewritten(t: string, pos: nat, segments: seq<Segment>)
    requires pos <= |t| && t[pos..] == Template(segments)
    requires forall i :: 0 <= i < |segments| ==> Ordinary(segments[i])
    ensures Rewritten(Parse(t, pos)) == WithoutNames(segments)
    ensures |Fields(Parse(t, pos))| == |segments|
    ensures forall i :: 0 <= i < |segments| ==>
              NameOf(Fields(Parse(t, pos))[i]) == segments[i].name && SyntaxOf(Fields(Parse(t, pos))[i]) == segments[i].syntax
    decreases |segments|
  {
    hide Parse, Rewritten, Fields, NameOf, SyntaxOf, Normalized, Ordinary;
    if segments == [] {
      ParseEnd(t, pos, []);
      assert Parse(t, pos) == [] + Parse(t, pos);
      NothingMade();
    } else {
      SegmentRewritten(t, pos, segments[0], Template(segments[1..]));
      TemplateRewritten(t, pos + |segments[0].text| + |segments[0].name| + |segments[0].syntax| + 2, segments[1..]);
    }
  }

  lemma SegmentRewritten(t: string, pos: nat, s: Segment, rest: string)
    requires pos <= |t| && t[pos..] == s.text + ("{" + (s.name + s.syntax) + "}") + rest && Ordinary(s)
    ensures var next := pos + |s.text| + |s.name| + |s.syntax| + 2;
            && next <= |t| && t[next..] == rest
            && Rewritten(Parse(t, pos)) == s.text + ("{" + s.syntax + "}") + Rewritten(Parse(t, next))
            && Fields(Parse(t, pos)) == [s.name + s.syntax] + Fields(Parse(t, next))
            && NameOf(s.name + s.syntax) == s.name && SyntaxOf(s.name + s.syntax) == s.syntax
  {
    hide Parse, Rewritten, Fields, NameOf, SyntaxOf, Normalized;
    var brace := pos + |s.text|;
    var text := s.name + s.syntax;
    SegmentAt(t, pos, s.text, text, rest);
    PlainText(t, pos, brace);
    OneField(t, brace, text);
    NameAndSyntax(s);
    NormalizedExact(s.syntax, "");
    ThreeParts(s.text, "{" + s.syntax + "}", Rewritten(Parse(t, brace + |text| + 2)));
  }

  lemma ThreeParts(x: string, y: string, z: string)
    ensures x + (y + z) == x + y + z
  {}

  lemma SegmentAt(t: string, pos: nat, before: string, text: string, rest: string)
    requires pos <= |t| && t[pos..] == before + ("{" + text + "}") + rest
    ensures var brace := pos + |before|;
            && brace + |text| + 2 <= |t| && t[pos..brace] == before && t[brace] == '{'
            && t[brace + 1..brace + 1 + |text|] == text && t[brace + 1 + |text|] == '}' && t[brace + |text| + 2..] == rest
  {
    var u := t[pos..];
    assert forall i :: 0 <= i < |u| ==> t[pos + i] == u[i];
    assert u[|before|..] == "{" + text + "}" + rest;
  }
}
