/**
 The codec as it runs: lengths pushed into a cache that outlives the call, bytes written through an
 advancing position, and the record with its header and runtime metadata.
 */
module CodecObject {
  import opened Containers
  import opened Codec

  class SizeCache {
    var items: seq<nat>

    method Clear()
      modifies this
      ensures items == []
    {
      items := [];
    }

    method PushBack(value: nat) returns (r: nat)
      modifies this
      ensures items == old(items) + [value] && r == value
    {
      items := items + [value];
      r := value;
    }
  }

  /** What sizing an argument pushes. */
  function Pushed(a: Arg): seq<nat> {
    if a.CString? || a.CharArray? then [CachedLength(a)] else []
  }

  function AllPushed(args: seq<Arg>): seq<nat> {
    if args == [] then [] else AllPushed(args[..|args| - 1]) + Pushed(args[|args| - 1])
  }

  /** With only arithmetic values, pointers and strings nothing is cached, and the cache is not cleared. */
  predicate AllPlain(args: seq<Arg>) {
    forall i :: 0 <= i < |args| ==> args[i].Plain? || args[i].Str?
  }

  lemma {:induction false} PlainPushesNothing(args: seq<Arg>)
    requires AllPlain(args)
    ensures AllPushed(args) == []
  {
    if args == [] {
    } else {
      PlainPushesNothing(args[..|args| - 1]);
    }
  }

  lemma PushedNext(args: seq<Arg>, i: nat)
    requires i < |args|
    ensures AllPushed(args[..i + 1]) == AllPushed(args[..i]) + Pushed(args[i])
  {
    assert args[..i + 1][..i] == args[..i];
  }

  lemma {:induction false} PushedPrefix(args: seq<Arg>, i: nat)
    requires i <= |args|
    ensures AllPushed(args[..i]) <= AllPushed(args)
    decreases |args| - i
  {
    hide Pushed;
    if i == |args| {
      assert args[..i] == args;
    } else {
      PushedNext(args, i);
      PushedPrefix(args, i + 1);
    }
  }

  lemma {:induction false} SizeAppend(a: seq<Arg>, b: seq<Arg>)
    ensures TotalSize(a + b) == TotalSize(a) + TotalSize(b)
  {
    hide SizeOf;
    if a == [] {
      assert a + b == b;
    } else {
      SizeAppend(a[1..], b);
      assert (a + b)[1..] == a[1..] + b;
    }
  }

  lemma {:induction false} EncodedAppend(a: seq<Arg>, b: seq<Arg>)
    requires ValidArgs(a) && ValidArgs(b)
    ensures ValidArgs(a + b) && EncodedAll(a + b) == EncodedAll(a) + EncodedAll(b)
  {
    hide Encoded;
    if a == [] {
      assert a + b == b;
    } else {
      EncodedAppend(a[1..], b);
      assert (a + b)[1..] == a[1..] + b;
    }
  }

  lemma OneArg(a: Arg)
    ensures TotalSize([a]) == SizeOf(a)
    ensures ValidArg(a) ==> ValidArgs([a]) && EncodedAll([a]) == Encoded(a)
  {
    hide Encoded, SizeOf;
    assert TotalSize([a][1..]) == 0;
    assert EncodedAll([a][1..]) == [];
  }

  /** `Codec::compute_encoded_size`. */
  method ComputeEncodedSize(cache: SizeCache, a: Arg) returns (size: nat)
    requires ValidArg(a)
    modifies cache
    ensures size == SizeOf(a) && cache.items == old(cache.items) + Pushed(a)
  {
    match a {
      case Plain(bytes) => size := |bytes|;
      case Enum(bytes) => size := |bytes|;
      case CharArray(chars) => size := cache.PushBack(Clamp(Strnlen(chars) + 1));
      case CString(ptr) => size := cache.PushBack(Clamp(PtrLength(ptr) + 1));
      case Str(chars) => size := 4 + Clamp(|chars|);
    }
  }

  /** `compute_encoded_size_and_cache_string_lengths`, whatever an earlier record left in the cache. */
  method ComputeAllSizes(cache: SizeCache, args: seq<Arg>) returns (total: nat)
    requires ValidArgs(args)
    modifies cache
    ensures total == TotalSize(args) == |EncodedAll(args)|
    ensures AllPlain(args) || cache.items == AllPushed(args)
  {
    hide SizeOf, Encoded, ValidArg, Pushed;
    if !AllPlain(args) { cache.Clear(); }
    ghost var stale := cache.items;
    total := 0;
    for i := 0 to |args|
      invariant total == TotalSize(args[..i])
      invariant cache.items == stale + AllPushed(args[..i])
    {
      var size := ComputeEncodedSize(cache, args[i]);
      PushedNext(args, i);
      assert args[..i + 1] == args[..i] + [args[i]];
      SizeAppend(args[..i], [args[i]]);
      OneArg(args[i]);
      total := total + size;
    }
    assert args[..|args|] == args;
    TotalSizeExact(args);
  }

  /** The buffer changed exactly by these bytes at this position. */
  predicate Wrote(before: seq<Byte>, after: seq<Byte>, pos: nat, bytes: seq<Byte>) {
    pos + |bytes| <= |before| && after == before[..pos] + bytes + before[pos + |bytes|..]
  }

  lemma WroteTwice(a: seq<Byte>, b: seq<Byte>, c: seq<Byte>, pos: nat, x: seq<Byte>, y: seq<Byte>)
    requires Wrote(a, b, pos, x) && Wrote(b, c, pos + |x|, y)
    ensures Wrote(a, c, pos, x + y)
  {
    assert b[..pos + |x|] == a[..pos] + x;
    assert b[pos + |x| + |y|..] == a[pos + |x| + |y|..];
  }

  method MemCopy(buffer: array<Byte>, pos: nat, bytes: seq<Byte>)
    requires pos + |bytes| <= buffer.Length
    modifies buffer
    ensures Wrote(old(buffer[..]), buffer[..], pos, bytes)
  {
    forall i | 0 <= i < |bytes| { buffer[pos + i] := bytes[i]; }
  }

  /** Writes text and a terminator behind it. */
  method WriteTerminated(buffer: array<Byte>, pos: nat, text: seq<Byte>)
    requires pos + |text| + 1 <= buffer.Length
    modifies buffer
    ensures Wrote(old(buffer[..]), buffer[..], pos, text + [0])
  {
    hide Wrote;
    ghost var before := buffer[..];
    MemCopy(buffer, pos, text);
    ghost var middle := buffer[..];
    MemCopy(buffer, pos + |text|, [0]);
    WroteTwice(before, middle, buffer[..], pos, text, [0]);
  }

  /** `Codec::encode` of a char array; a length past its end means it has no terminator of its own. */
  method EncodeCharArray(buffer: array<Byte>, pos: nat, len: nat, chars: seq<Byte>)
    requires chars != [] && len == CachedLength(CharArray(chars)) && pos + len <= buffer.Length
    modifies buffer
    ensures Wrote(old(buffer[..]), buffer[..], pos, Encoded(CharArray(chars)))
  {
    hide Strnlen, Wrote;
    if len > |chars| {
      assert len == |chars| + 1;
      WriteTerminated(buffer, pos, chars);
    } else {
      MemCopy(buffer, pos, chars[..len]);
    }
  }

  /** `Codec::encode` of a C string, and the hybrid path's own copy of it. */
  method EncodeCString(buffer: array<Byte>, pos: nat, len: nat, ptr: Ptr)
    requires ValidArg(CString(ptr)) && len == CachedLength(CString(ptr)) && pos + len <= buffer.Length
    modifies buffer
    ensures Wrote(old(buffer[..]), buffer[..], pos, Encoded(CString(ptr)))
  {
    hide Strnlen, Wrote;
    var text := [];
    if ptr.Memory? { text := ptr.bytes[..len - 1]; }
    WriteTerminated(buffer, pos, text);
  }

  method EncodeString(buffer: array<Byte>, pos: nat, chars: seq<Byte>)
    requires pos + SizeOf(Str(chars)) <= buffer.Length
    modifies buffer
    ensures Wrote(old(buffer[..]), buffer[..], pos, Encoded(Str(chars)))
  {
    hide Wrote, Uint32Bytes;
    ghost var before := buffer[..];
    var len := Clamp(|chars|);
    MemCopy(buffer, pos, Uint32Bytes(len));
    ghost var middle := buffer[..];
    MemCopy(buffer, pos + 4, chars[..len]);
    WroteTwice(before, middle, buffer[..], pos, Uint32Bytes(len), chars[..len]);
  }

  /** `Codec::encode`: a char array or C string takes its length from the cache. */
  method EncodeArg(buffer: array<Byte>, pos: nat, cache: SizeCache, index: nat, a: Arg) returns (next: nat, nextIndex: nat)
    requires ValidArg(a) && pos + SizeOf(a) <= buffer.Length
    requires a.CString? || a.CharArray? ==> index < |cache.items| && cache.items[index] == CachedLength(a)
    modifies buffer
    ensures next == pos + SizeOf(a) && nextIndex == index + |Pushed(a)|
    ensures Wrote(old(buffer[..]), buffer[..], pos, Encoded(a))
  {
    hide Wrote, CachedLength;
    nextIndex := index;
    match a {
      case Plain(bytes) =>
        MemCopy(buffer, pos, bytes);
        next := pos + |bytes|;
      case Enum(bytes) =>
        MemCopy(buffer, pos, bytes);
        next := pos + |bytes|;
      case CharArray(chars) =>
        var len := cache.items[nextIndex];
        nextIndex := nextIndex + 1;
        EncodeCharArray(buffer, pos, len, chars);
        next := pos + len;
      case CString(ptr) =>
        var len := cache.items[nextIndex];
        nextIndex := nextIndex + 1;
        EncodeCString(buffer, pos, len, ptr);
        next := pos + len;
      case Str(chars) =>
        EncodeString(buffer, pos, chars);
        next := pos + 4 + Clamp(|chars|);
    }
  }

  /** One turn of the encoding loop adds one argument's bytes and uses one argument's cache entry. */
  lemma EncodeTurn(args: seq<Arg>, i: nat, items: seq<nat>)
    requires ValidArgs(args) && i < |args| && (AllPushed(args) == [] || items == AllPushed(args))
    ensures ValidArg(args[i]) && ValidArgs(args[..i]) && ValidArgs(args[..i + 1])
    ensures TotalSize(args[..i + 1]) == TotalSize(args[..i]) + SizeOf(args[i]) <= TotalSize(args)
    ensures EncodedAll(args[..i + 1]) == EncodedAll(args[..i]) + Encoded(args[i])
    ensures |EncodedAll(args[..i])| == TotalSize(args[..i])
    ensures |AllPushed(args[..i + 1])| == |AllPushed(args[..i])| + |Pushed(args[i])|
    ensures args[i].CString? || args[i].CharArray? ==>
              var n := |AllPushed(args[..i])|; n < |items| && items[n] == CachedLength(args[i])
  {
    hide SizeOf, Encoded, ValidArg, AllPushed, EncodedAll, TotalSize;
    assert args[..i + 1] == args[..i] + [args[i]];
    assert args == args[..i + 1] + args[i + 1..];
    SizeAppend(args[..i], [args[i]]);
    SizeAppend(args[..i + 1], args[i + 1..]);
    OneArg(args[i]);
    EncodedAppend(args[..i], [args[i]]);
    TotalSizeExact(args[..i]);
    PushedNext(args, i);
    PushedPrefix(args, i + 1);
  }

  lemma NothingEncoded(args: seq<Arg>, b: seq<Byte>, pos: nat)
    ensures pos <= |b| ==> Wrote(b, b, pos, [])
    ensures TotalSize(args[..0]) == 0 && EncodedAll(args[..0]) == [] && AllPushed(args[..0]) == []
    ensures args[..|args|] == args
  {}

  /** `detail::encode`: the arguments one after the other, each taking its own entry of the cache. */
  method EncodeArgs(buffer: array<Byte>, pos: nat, cache: SizeCache, args: seq<Arg>) returns (next: nat)
    requires ValidArgs(args) && pos + TotalSize(args) <= buffer.Length
    requires AllPushed(args) == [] || cache.items == AllPushed(args)
    modifies buffer
    ensures next == pos + TotalSize(args)
    ensures Wrote(old(buffer[..]), buffer[..], pos, EncodedAll(args))
  {
    hide SizeOf, Encoded, ValidArg, Wrote, EncodedAll, TotalSize, AllPushed, Pushed;
    next := pos;
    var index := 0;
    ghost var before := buffer[..];
    NothingEncoded(args, before, pos);
    for i := 0 to |args|
      invariant next == pos + TotalSize(args[..i]) && index == |AllPushed(args[..i])|
      invariant Wrote(before, buffer[..], pos, EncodedAll(args[..i]))
    {
      ghost var middle := buffer[..];
      EncodeTurn(args, i, cache.items);
      next, index := EncodeArg(buffer, next, cache, index, args[i]);
      WroteTwice(before, middle, buffer[..], pos, EncodedAll(args[..i]), Encoded(args[i]));
    }
  }

  // ---- Decoding from a buffer ------------------------------------------------------------------

  /** `safe_strnlen` of terminated text in the buffer. */
  method FindTerminator(buffer: array<Byte>, pos: nat) returns (end: nat)
    requires pos <= buffer.Length && Strnlen(buffer[pos..]) < |buffer[pos..]|
    ensures pos <= end < buffer.Length && end - pos == Strnlen(buffer[pos..])
  {
    ghost var b := buffer[pos..];
    end := pos;
    while buffer[end] != 0
      invariant pos <= end < buffer.Length && end - pos <= Strnlen(b)
      decreases buffer.Length - end
    {
      assert b[end - pos] == buffer[end];
      end := end + 1;
    }
    assert b[end - pos] == 0;
  }

  /** `Codec::decode_arg`, where a complete argument is present. */
  method DecodeArg(buffer: array<Byte>, pos: nat, kind: Kind) returns (v: Value, next: nat)
    requires pos <= buffer.Length && DecodeOne(kind, buffer[pos..]).Some?
    ensures pos <= next <= buffer.Length && DecodeOne(kind, buffer[pos..]) == Some((v, next - pos))
  {
    hide Uint32Of, Strnlen;
    ghost var b := buffer[pos..];
    match kind {
      case FixedKind(n) =>
        v, next := Raw(buffer[pos..pos + n]), pos + n;
        assert b[..n] == buffer[pos..pos + n];
      case TextKind =>
        var end := FindTerminator(buffer, pos);
        v, next := Text(buffer[pos..end]), end + 1;
        assert b[..end - pos] == buffer[pos..end];
      case StrKind =>
        assert b[..4] == buffer[pos..pos + 4];
        var n := Uint32Of(buffer[pos..pos + 4]);
        v, next := Text(buffer[pos + 4..pos + 4 + n]), pos + 4 + n;
        assert b[4..] == buffer[pos + 4..];
        assert b[4..4 + n] == b[4..][..n] == buffer[pos + 4..pos + 4 + n];
    }
  }

  /** Values decoded so far put before what the rest decodes to. */
  function Joined(values: seq<Value>, r: Option<(seq<Value>, seq<Byte>)>): Option<(seq<Value>, seq<Byte>)> {
    if r.None? then None else Some((values + r.value.0, r.value.1))
  }

  /** `decode_and_store_args`. */
  method DecodeArgs(buffer: array<Byte>, pos: nat, kinds: seq<Kind>) returns (values: seq<Value>, next: nat)
    requires pos <= buffer.Length && DecodeAll(kinds, buffer[pos..]).Some?
    ensures pos <= next <= buffer.Length && DecodeAll(kinds, buffer[pos..]) == Some((values, buffer[next..]))
  {
    hide DecodeOne, DecodeAll, Joined;
    values, next := [], pos;
    JoinedFacts([], Raw([]), DecodeAll(kinds, buffer[pos..]));
    assert kinds[0..] == kinds;
    for i := 0 to |kinds|
      invariant pos <= next <= buffer.Length
      invariant DecodeAll(kinds[i..], buffer[next..]).Some?
      invariant DecodeAll(kinds, buffer[pos..]) == Joined(values, DecodeAll(kinds[i..], buffer[next..]))
    {
      ghost var from := next;
      DecodeNext(kinds[i..], buffer[from..]);
      var v, after := DecodeArg(buffer, next, kinds[i]);
      assert kinds[i..][1..] == kinds[i + 1..];
      assert buffer[from..][after - from..] == buffer[after..];
      JoinedFacts(values, v, DecodeAll(kinds[i + 1..], buffer[after..]));
      values, next := values + [v], after;
    }
    DecodeNothing(kinds, buffer[next..]);
    JoinedFacts(values, Raw([]), Some(([], buffer[next..])));
  }

  lemma DecodeNothing(kinds: seq<Kind>, b: seq<Byte>)
    ensures DecodeAll(kinds[|kinds|..], b) == Some(([], b))
  {}

  lemma JoinedFacts(values: seq<Value>, v: Value, r: Option<(seq<Value>, seq<Byte>)>)
    ensures Joined([], r) == r
    ensures r.Some? && r.value.0 == [] ==> Joined(values, r) == Some((values, r.value.1))
    ensures Joined(values, Joined([v], r)) == Joined(values + [v], r)
  {
    if r.Some? {
      assert [] + r.value.0 == r.value.0;
      assert r.value.0 == [] ==> values + r.value.0 == values;
      assert values + ([v] + r.value.0) == (values + [v]) + r.value.0;
    }
  }

  lemma DecodeNext(kinds: seq<Kind>, b: seq<Byte>)
    requires kinds != [] && DecodeAll(kinds, b).Some?
    ensures DecodeOne(kinds[0], b).Some? && DecodeOne(kinds[0], b).value.1 <= |b|
    ensures var (v, n) := DecodeOne(kinds[0], b).value;
            DecodeAll(kinds[1..], b[n..]).Some? && DecodeAll(kinds, b) == Joined([v], DecodeAll(kinds[1..], b[n..]))
  {
    hide DecodeOne;
  }

  // ---- Records ---------------------------------------------------------------------------------

  /** The four words in front of every record. */
  datatype Header = Header(timestamp: seq<Byte>, metadata: seq<Byte>, logger: seq<Byte>, decoder: seq<Byte>)

  /** A C string that is copied in some events and passed by address in others. */
  datatype Name = Name(ptr: Ptr, address: seq<Byte>)

  datatype Event = LogEvent | DeepCopy | ShallowCopy | HybridCopy

  datatype Metadata = Metadata(fmt: Name, file: Name, func: Name, tags: Name, line: seq<Byte>, level: seq<Byte>)

  predicate ValidName(n: Name) { ValidArg(CString(n.ptr)) && |n.address| == 8 }

  predicate ValidRecord(h: Header, m: Metadata, args: seq<Arg>) {
    && |h.timestamp| == |h.metadata| == |h.logger| == |h.decoder| == 8
    && ValidName(m.fmt) && ValidName(m.file) && ValidName(m.func) && ValidName(m.tags) && |m.line| == 4 && |m.level| == 1
    && ValidArgs(args)
  }

  function HeaderArgs(h: Header): seq<Arg> {
    [Plain(h.timestamp), Plain(h.metadata), Plain(h.logger), Plain(h.decoder)]
  }

  /** What each kind of record carries before its format arguments. */
  function MetaArgs(event: Event, m: Metadata): seq<Arg> {
    match event
    case LogEvent => []
    case DeepCopy =>
      [CString(m.fmt.ptr), CString(m.file.ptr), CString(m.func.ptr), CString(m.tags.ptr), Plain(m.line), Enum(m.level)]
    case ShallowCopy =>
      [Plain(m.fmt.address), Plain(m.file.address), Plain(m.func.address), Plain(m.tags.address), Plain(m.line), Enum(m.level)]
    case HybridCopy =>
      [CString(m.fmt.ptr), Plain(m.file.address), Plain(m.func.address), CString(m.tags.ptr), Plain(m.line), Enum(m.level)]
  }

  function RecordArgs(h: Header, event: Event, m: Metadata, args: seq<Arg>): seq<Arg> {
    HeaderArgs(h) + MetaArgs(event, m) + args
  }

  lemma RecordValid(h: Header, event: Event, m: Metadata, args: seq<Arg>)
    requires ValidRecord(h, m, args)
    ensures ValidArgs(HeaderArgs(h)) && ValidArgs(MetaArgs(event, m)) && ValidArgs(RecordArgs(h, event, m, args))
    ensures AllPlain(HeaderArgs(h)) && TotalSize(HeaderArgs(h)) == 32
    ensures TotalSize(RecordArgs(h, event, m, args)) == 32 + TotalSize(MetaArgs(event, m)) + TotalSize(args)
    ensures EncodedAll(RecordArgs(h, event, m, args)) == EncodedAll(HeaderArgs(h)) + EncodedAll(MetaArgs(event, m)) + EncodedAll(args)
  {
    hide ValidArgs, AllPlain, TotalSize, EncodedAll, HeaderArgs, MetaArgs;
    PartsValid(h, event, m);
    HeaderSize(h);
    SizeAppend(HeaderArgs(h) + MetaArgs(event, m), args);
    SizeAppend(HeaderArgs(h), MetaArgs(event, m));
    EncodedAppend(HeaderArgs(h), MetaArgs(event, m));
    EncodedAppend(HeaderArgs(h) + MetaArgs(event, m), args);
  }

  lemma PartsValid(h: Header, event: Event, m: Metadata)
    requires ValidName(m.fmt) && ValidName(m.file) && ValidName(m.func) && ValidName(m.tags)
    ensures ValidArgs(HeaderArgs(h)) && AllPlain(HeaderArgs(h)) && ValidArgs(MetaArgs(event, m))
  {}

  lemma {:induction false} HeaderSize(h: Header)
    requires |h.timestamp| == |h.metadata| == |h.logger| == |h.decoder| == 8
    ensures TotalSize(HeaderArgs(h)) == 32
  {
    OneArg(Plain(h.timestamp));
    OneArg(Plain(h.metadata));
    OneArg(Plain(h.logger));
    OneArg(Plain(h.decoder));
    SizeAppend([Plain(h.timestamp)], [Plain(h.metadata)]);
    SizeAppend([Plain(h.logger)], [Plain(h.decoder)]);
    SizeAppend([Plain(h.timestamp)] + [Plain(h.metadata)], [Plain(h.logger)] + [Plain(h.decoder)]);
    assert HeaderArgs(h) == ([Plain(h.timestamp)] + [Plain(h.metadata)]) + ([Plain(h.logger)] + [Plain(h.decoder)]);
  }

  lemma HeaderBytes(h: Header)
    ensures ValidArgs(HeaderArgs(h)) && EncodedAll(HeaderArgs(h)) == h.timestamp + h.metadata + h.logger + h.decoder
  {
    hide EncodedAll, ValidArgs;
    OneArg(Plain(h.timestamp));
    OneArg(Plain(h.metadata));
    OneArg(Plain(h.logger));
    OneArg(Plain(h.decoder));
    EncodedAppend([Plain(h.timestamp)], [Plain(h.metadata)]);
    EncodedAppend([Plain(h.timestamp)] + [Plain(h.metadata)], [Plain(h.logger)]);
    EncodedAppend([Plain(h.timestamp)] + [Plain(h.metadata)] + [Plain(h.logger)], [Plain(h.decoder)]);
    assert HeaderArgs(h) == [Plain(h.timestamp)] + [Plain(h.metadata)] + [Plain(h.logger)] + [Plain(h.decoder)];
  }

  /** `_encode_header`: four words. */
  method EncodeHeader(buffer: array<Byte>, pos: nat, h: Header) returns (next: nat)
    requires |h.timestamp| == |h.metadata| == |h.logger| == |h.decoder| == 8 && pos + 32 <= buffer.Length
    modifies buffer
    ensures next == pos + 32 && ValidArgs(HeaderArgs(h))
    ensures Wrote(old(buffer[..]), buffer[..], pos, EncodedAll(HeaderArgs(h)))
  {
    hide Wrote, EncodedAll, HeaderArgs, ValidArgs;
    HeaderBytes(h);
    ghost var b0 := buffer[..];
    MemCopy(buffer, pos, h.timestamp);
    ghost var b1 := buffer[..];
    MemCopy(buffer, pos + 8, h.metadata);
    ghost var b2 := buffer[..];
    WroteTwice(b0, b1, b2, pos, h.timestamp, h.metadata);
    MemCopy(buffer, pos + 16, h.logger);
    ghost var b3 := buffer[..];
    WroteTwice(b0, b2, b3, pos, h.timestamp + h.metadata, h.logger);
    MemCopy(buffer, pos + 24, h.decoder);
    WroteTwice(b0, b3, buffer[..], pos, h.timestamp + h.metadata + h.logger, h.decoder);
    next := pos + 32;
  }

  /** The hybrid path's metadata, whose two text lengths are kept in locals instead of the cache. */
  method EncodeHybrid(buffer: array<Byte>, pos: nat, cache: SizeCache, m: Metadata, fmtLen: nat, tagsLen: nat) returns (next: nat)
    requires ValidName(m.fmt) && ValidName(m.file) && ValidName(m.func) && ValidName(m.tags) && |m.line| == 4 && |m.level| == 1
    requires fmtLen == CachedLength(CString(m.fmt.ptr)) && tagsLen == CachedLength(CString(m.tags.ptr))
    requires pos + TotalSize(MetaArgs(HybridCopy, m)) <= buffer.Length
    modifies buffer
    ensures next == pos + TotalSize(MetaArgs(HybridCopy, m)) && ValidArgs(MetaArgs(HybridCopy, m))
    ensures Wrote(old(buffer[..]), buffer[..], pos, EncodedAll(MetaArgs(HybridCopy, m)))
  {
    hide Wrote, EncodedAll, TotalSize, ValidArgs, Encoded, CachedLength, ValidArg, AllPushed, MetaArgs;
    var fmt, names, tags, tail := CString(m.fmt.ptr), [Plain(m.file.address), Plain(m.func.address)], CString(m.tags.ptr), [Plain(m.line), Enum(m.level)];
    HybridParts(m);
    ghost var b0 := buffer[..];
    EncodeCString(buffer, pos, fmtLen, m.fmt.ptr);
    next := pos + fmtLen;
    ghost var b1 := buffer[..];
    next := EncodeArgs(buffer, next, cache, names);
    ghost var b2 := buffer[..];
    WroteTwice(b0, b1, b2, pos, Encoded(fmt), EncodedAll(names));
    EncodeCString(buffer, next, tagsLen, m.tags.ptr);
    next := next + tagsLen;
    ghost var b3 := buffer[..];
    WroteTwice(b0, b2, b3, pos, Encoded(fmt) + EncodedAll(names), Encoded(tags));
    next := EncodeArgs(buffer, next, cache, tail);
    WroteTwice(b0, b3, buffer[..], pos, Encoded(fmt) + EncodedAll(names) + Encoded(tags), EncodedAll(tail));
  }

  lemma HybridParts(m: Metadata)
    requires ValidName(m.fmt) && ValidName(m.file) && ValidName(m.func) && ValidName(m.tags) && |m.line| == 4 && |m.level| == 1
    ensures var fmt, names, tags, tail := CString(m.fmt.ptr), [Plain(m.file.address), Plain(m.func.address)], CString(m.tags.ptr), [Plain(m.line), Enum(m.level)];
            && ValidArg(fmt) && ValidArg(tags) && ValidArgs(names) && ValidArgs(tail) && ValidArgs(MetaArgs(HybridCopy, m))
            && |Encoded(fmt)| == CachedLength(fmt) && |Encoded(tags)| == CachedLength(tags)
            && |EncodedAll(names)| == TotalSize(names) == 16 && TotalSize(tail) == 5
            && AllPushed(names) == [] && AllPushed(tail) == []
            && TotalSize(MetaArgs(HybridCopy, m)) == CachedLength(fmt) + 16 + CachedLength(tags) + 5
            && EncodedAll(MetaArgs(HybridCopy, m)) == Encoded(fmt) + EncodedAll(names) + Encoded(tags) + EncodedAll(tail)
  {
    hide Encoded, CachedLength;
    var fmt, names, tags, tail := CString(m.fmt.ptr), [Plain(m.file.address), Plain(m.func.address)], CString(m.tags.ptr), [Plain(m.line), Enum(m.level)];
    SizeExact(fmt);
    SizeExact(tags);
    PairFacts(Plain(m.file.address), Plain(m.func.address));
    PairFacts(Plain(m.line), Enum(m.level));
    HybridConcat(fmt, names, tags, tail);
    assert MetaArgs(HybridCopy, m) == [fmt] + names + [tags] + tail;
  }

  lemma PairFacts(a: Arg, b: Arg)
    requires (a.Plain? || a.Enum?) && (b.Plain? || b.Enum?)
    ensures ValidArgs([a, b]) && TotalSize([a, b]) == SizeOf(a) + SizeOf(b) == |EncodedAll([a, b])| && AllPushed([a, b]) == []
  {
    OneArg(a);
    OneArg(b);
    SizeAppend([a], [b]);
    assert [a] + [b] == [a, b];
    TotalSizeExact([a, b]);
    assert AllPushed([a]) == [] by { assert [a][..0] == []; }
    assert [a, b][..1] == [a];
  }

  lemma HybridConcat(fmt: Arg, names: seq<Arg>, tags: Arg, tail: seq<Arg>)
    requires ValidArg(fmt) && ValidArg(tags) && ValidArgs(names) && ValidArgs(tail)
    ensures ValidArgs([fmt] + names + [tags] + tail)
    ensures EncodedAll([fmt] + names + [tags] + tail) == Encoded(fmt) + EncodedAll(names) + Encoded(tags) + EncodedAll(tail)
    ensures TotalSize([fmt] + names + [tags] + tail) == SizeOf(fmt) + TotalSize(names) + SizeOf(tags) + TotalSize(tail)
  {
    hide Encoded, SizeOf, TotalSize, EncodedAll, ValidArg;
    OneArg(fmt);
    OneArg(tags);
    EncodedAppend([fmt], names);
    EncodedAppend([fmt] + names, [tags]);
    EncodedAppend([fmt] + names + [tags], tail);
    SizeAppend([fmt], names);
    SizeAppend([fmt] + names, [tags]);
    SizeAppend([fmt] + names + [tags], tail);
  }

  /**
   `log_statement` and `log_statement_runtime_metadata`: whatever an earlier record left in the
   cache, the size asked for is the number of bytes written, and the bytes are those of the record.
   */
  method LogRecord(cache: SizeCache, buffer: array<Byte>, pos: nat, h: Header, event: Event, m: Metadata, args: seq<Arg>)
    returns (total: nat, next: nat)
    requires ValidRecord(h, m, args) && pos + TotalSize(RecordArgs(h, event, m, args)) <= buffer.Length
    modifies cache, buffer
    ensures next == pos + total && total == TotalSize(RecordArgs(h, event, m, args))
    ensures ValidArgs(RecordArgs(h, event, m, args))
    ensures Wrote(old(buffer[..]), buffer[..], pos, EncodedAll(RecordArgs(h, event, m, args)))
  {
    hide Wrote, EncodedAll, TotalSize, ValidArgs, AllPushed, MetaArgs, HeaderArgs, RecordArgs, CachedLength, AllPlain;
    RecordValid(h, event, m, args);
    ghost var before := buffer[..];
    if event.HybridCopy? {
      var fmtLen, tagsLen := Clamp(PtrLength(m.fmt.ptr) + 1), Clamp(PtrLength(m.tags.ptr) + 1);
      HybridLengths(m);
      var size := ComputeAllSizes(cache, args);
      CacheFits(cache.items, args);
      total := 32 + fmtLen + 16 + tagsLen + 4 + 1 + size;
      next := EncodeHeader(buffer, pos, h);
      ghost var b1 := buffer[..];
      next := EncodeHybrid(buffer, next, cache, m, fmtLen, tagsLen);
      ghost var b2 := buffer[..];
      TotalSizeExact(HeaderArgs(h));
      TotalSizeExact(MetaArgs(event, m));
      WroteTwice(before, b1, b2, pos, EncodedAll(HeaderArgs(h)), EncodedAll(MetaArgs(event, m)));
      next := EncodeArgs(buffer, next, cache, args);
      WroteTwice(before, b2, buffer[..], pos, EncodedAll(HeaderArgs(h)) + EncodedAll(MetaArgs(event, m)), EncodedAll(args));
    } else {
      var all := MetaArgs(event, m) + args;
      EncodedAppend(MetaArgs(event, m), args);
      SizeAppend(MetaArgs(event, m), args);
      var size := ComputeAllSizes(cache, all);
      CacheFits(cache.items, all);
      total := 32 + size;
      next := EncodeHeader(buffer, pos, h);
      ghost var b1 := buffer[..];
      TotalSizeExact(HeaderArgs(h));
      next := EncodeArgs(buffer, next, cache, all);
      WroteTwice(before, b1, buffer[..], pos, EncodedAll(HeaderArgs(h)), EncodedAll(all));
      assert EncodedAll(HeaderArgs(h)) + EncodedAll(all) == EncodedAll(HeaderArgs(h)) + EncodedAll(MetaArgs(event, m)) + EncodedAll(args);
    }
  }

  lemma CacheFits(items: seq<nat>, args: seq<Arg>)
    requires AllPlain(args) || items == AllPushed(args)
    ensures AllPushed(args) == [] || items == AllPushed(args)
  {
    hide AllPushed;
    if AllPlain(args) { PlainPushesNothing(args); }
  }

  lemma HybridLengths(m: Metadata)
    requires ValidName(m.fmt) && ValidName(m.file) && ValidName(m.func) && ValidName(m.tags) && |m.line| == 4 && |m.level| == 1
    ensures Clamp(PtrLength(m.fmt.ptr) + 1) == CachedLength(CString(m.fmt.ptr))
    ensures Clamp(PtrLength(m.tags.ptr) + 1) == CachedLength(CString(m.tags.ptr))
    ensures TotalSize(MetaArgs(HybridCopy, m)) == CachedLength(CString(m.fmt.ptr)) + 16 + CachedLength(CString(m.tags.ptr)) + 5
  {
    hide MetaArgs, TotalSize;
    HybridParts(m);
  }

  /** What a record means: its header words, then the metadata its event carries, by text or by address. */
  lemma RecordMeans(h: Header, event: Event, m: Metadata)
    requires ValidArgs(HeaderArgs(h)) && ValidArgs(MetaArgs(event, m))
    requires ValidName(m.fmt) && ValidName(m.file) && ValidName(m.func) && ValidName(m.tags)
    ensures Meanings(HeaderArgs(h)) == [Raw(h.timestamp), Raw(h.metadata), Raw(h.logger), Raw(h.decoder)]
    ensures event.LogEvent? ==> Meanings(MetaArgs(event, m)) == []
    ensures !event.LogEvent? ==>
              Meanings(MetaArgs(event, m)) ==
              [if event.ShallowCopy? then Raw(m.fmt.address) else Meaning(CString(m.fmt.ptr)),
               if event.DeepCopy? then Meaning(CString(m.file.ptr)) else Raw(m.file.address),
               if event.DeepCopy? then Meaning(CString(m.func.ptr)) else Raw(m.func.address),
               if event.ShallowCopy? then Raw(m.tags.address) else Meaning(CString(m.tags.ptr)),
               Raw(m.line), Raw(m.level)]
  {
    hide ValidArgs, Meaning;
    MeaningsAt(HeaderArgs(h));
    MeaningsAt(MetaArgs(event, m));
    PlainMeans(h.timestamp);
    PlainMeans(h.metadata);
    PlainMeans(h.logger);
    PlainMeans(h.decoder);
    PlainMeans(m.fmt.address);
    PlainMeans(m.file.address);
    PlainMeans(m.func.address);
    PlainMeans(m.tags.address);
    PlainMeans(m.line);
    PlainMeans(m.level);
  }

  lemma PlainMeans(bytes: seq<Byte>)
    ensures Meaning(Plain(bytes)) == Raw(bytes) && Meaning(Enum(bytes)) == Raw(bytes)
  {}

  lemma {:induction false} MeaningsAt(args: seq<Arg>)
    requires ValidArgs(args)
    ensures |Meanings(args)| == |args| && forall i :: 0 <= i < |args| ==> ValidArg(args[i]) && Meanings(args)[i] == Meaning(args[i])
  {
    if args == [] {
    } else {
      MeaningsAt(args[1..]);
    }
  }

  /** The types the backend decodes before the format arguments, by event. */
  function MetaKinds(event: Event): seq<Kind> {
    match event
    case LogEvent => []
    case DeepCopy => [TextKind, TextKind, TextKind, TextKind, FixedKind(4), FixedKind(1)]
    case ShallowCopy => [FixedKind(8), FixedKind(8), FixedKind(8), FixedKind(8), FixedKind(4), FixedKind(1)]
    case HybridCopy => [TextKind, FixedKind(8), FixedKind(8), TextKind, FixedKind(4), FixedKind(1)]
  }

  lemma {:induction false} KindsAt(args: seq<Arg>)
    ensures |Kinds(args)| == |args| && forall i :: 0 <= i < |args| ==> Kinds(args)[i] == KindOf(args[i])
  {
    if args == [] {
    } else {
      KindsAt(args[1..]);
    }
  }

  lemma MetaKindsAgree(event: Event, m: Metadata)
    requires ValidName(m.fmt) && ValidName(m.file) && ValidName(m.func) && ValidName(m.tags) && |m.line| == 4 && |m.level| == 1
    ensures MetaKinds(event) == Kinds(MetaArgs(event, m)) && AllTerminated(MetaArgs(event, m))
  {
    hide Kinds;
    KindsAt(MetaArgs(event, m));
  }

  lemma HeaderKindsAgree(h: Header)
    requires |h.timestamp| == |h.metadata| == |h.logger| == |h.decoder| == 8
    ensures Kinds(HeaderArgs(h)) == [FixedKind(8), FixedKind(8), FixedKind(8), FixedKind(8)] && AllTerminated(HeaderArgs(h))
  {
    hide Kinds;
    KindsAt(HeaderArgs(h));
  }

  /** One stage of reading a record: these arguments come back and the position moves past them. */
  method DecodeStage(buffer: array<Byte>, pos: nat, kinds: seq<Kind>, ghost args: seq<Arg>, ghost rest: seq<Byte>)
    returns (values: seq<Value>, next: nat)
    requires ValidArgs(args) && AllTerminated(args) && kinds == Kinds(args)
    requires pos <= buffer.Length && buffer[pos..] == EncodedAll(args) + rest
    ensures pos <= next <= buffer.Length && next == pos + TotalSize(args)
    ensures values == Meanings(args) && buffer[next..] == rest
  {
    hide DecodeAll, EncodedAll, TotalSize, Kinds, Meanings, ValidArgs, AllTerminated;
    RoundTrip(args, rest);
    TotalSizeExact(args);
    values, next := DecodeArgs(buffer, pos, kinds);
  }

  /** Reading a record: the header words, the runtime metadata of the event, the arguments. */
  method DecodeRecord(buffer: array<Byte>, pos: nat, event: Event, kinds: seq<Kind>,
                      ghost h: Header, ghost m: Metadata, ghost args: seq<Arg>, ghost rest: seq<Byte>)
    returns (words: seq<Value>, metadata: seq<Value>, values: seq<Value>, next: nat)
    requires ValidRecord(h, m, args) && AllTerminated(args) && kinds == Kinds(args) && ValidArgs(RecordArgs(h, event, m, args))
    requires pos <= buffer.Length && buffer[pos..] == EncodedAll(RecordArgs(h, event, m, args)) + rest
    ensures ValidArgs(MetaArgs(event, m)) && ValidArgs(HeaderArgs(h))
    ensures words == Meanings(HeaderArgs(h)) && metadata == Meanings(MetaArgs(event, m)) && values == Meanings(args)
    ensures next == pos + TotalSize(RecordArgs(h, event, m, args)) <= buffer.Length && buffer[next..] == rest
  {
    hide EncodedAll, TotalSize, Kinds, Meanings, ValidArgs, AllTerminated, MetaArgs, HeaderArgs, MetaKinds, RecordArgs, AllPlain;
    RecordValid(h, event, m, args);
    HeaderKindsAgree(h);
    MetaKindsAgree(event, m);
    ghost var tail := EncodedAll(MetaArgs(event, m)) + (EncodedAll(args) + rest);
    words, next := DecodeStage(buffer, pos, [FixedKind(8), FixedKind(8), FixedKind(8), FixedKind(8)], HeaderArgs(h), tail);
    metadata, next := DecodeStage(buffer, next, MetaKinds(event), MetaArgs(event, m), EncodedAll(args) + rest);
    values, next := DecodeStage(buffer, next, kinds, args, rest);
  }

}
