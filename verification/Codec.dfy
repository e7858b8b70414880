/**
 The argument codec of quill/include/quill/core/Codec.h and the record layout of
 quill/include/quill/Logger.h: sizing, encoding and decoding agree, whatever the size cache held before.
 */
module Codec {
  import opened Containers

  type Byte = x: int | 0 <= x < 256

  /** A char pointer: null, or memory with a terminator in it. */
  datatype Ptr = Null | Memory(bytes: seq<Byte>)

  /** An argument by its codec. Enumerations are copied like arithmetic types but do not count as plain. */
  datatype Arg =
    | Plain(bytes: seq<Byte>)
    | Enum(bytes: seq<Byte>)
    | CString(ptr: Ptr)
    | CharArray(chars: seq<Byte>)
    | Str(chars: seq<Byte>)

  /** What the decoder knows of an argument: its type. */
  datatype Kind = FixedKind(size: nat) | TextKind | StrKind

  datatype Value = Raw(bytes: seq<Byte>) | Text(chars: seq<Byte>)

  /** The largest length the clamp lets through: UINT32_MAX - 1. */
  const MAX_LENGTH: nat := 0xffff_fffe

  /** Raw char pointers must be terminated; a char array has at least one element. */
  predicate ValidArg(a: Arg) {
    match a
    case CString(Memory(bytes)) => 0 in bytes
    case CharArray(chars) => chars != []
    case _ => true
  }

  predicate ValidArgs(args: seq<Arg>) {
    forall i :: 0 <= i < |args| ==> ValidArg(args[i])
  }

  /** The number of bytes before the first terminator. */
  function Strnlen(s: seq<Byte>): (n: nat)
    ensures n <= |s|
    ensures forall i :: 0 <= i < n ==> s[i] != 0
    ensures n < |s| ==> s[n] == 0
    ensures n < |s| <==> 0 in s
  {
    if s == [] || s[0] == 0 then 0 else
      var n := Strnlen(s[1..]);
      assert s == [s[0]] + s[1..];
      n + 1
  }

  function Clamp(n: nat): nat { if n > MAX_LENGTH then MAX_LENGTH else n }

  function PtrLength(p: Ptr): nat { if p.Null? then 0 else Strnlen(p.bytes) }

  /** The length that goes through the size cache, terminator included. */
  function CachedLength(a: Arg): (n: nat)
    requires a.CString? || a.CharArray?
    ensures n > 0
  {
    if a.CString? then Clamp(PtrLength(a.ptr) + 1) else Clamp(Strnlen(a.chars) + 1)
  }

  function SizeOf(a: Arg): nat {
    match a
    case Plain(bytes) => |bytes|
    case Enum(bytes) => |bytes|
    case CString(_) => CachedLength(a)
    case CharArray(_) => CachedLength(a)
    case Str(chars) => 4 + Clamp(|chars|)
  }

  function Uint32Bytes(n: nat): (b: seq<Byte>)
    requires n < 0x1_0000_0000
    ensures |b| == 4
  {
    [n % 256, n / 256 % 256, n / 256 / 256 % 256, n / 256 / 256 / 256]
  }

  function Uint32Of(b: seq<Byte>): nat
    requires |b| == 4
  {
    var b0: int, b1: int, b2: int, b3: int := b[0], b[1], b[2], b[3];
    b0 + 256 * b1 + 65536 * b2 + 16777216 * b3
  }

  lemma Uint32RoundTrip(n: nat)
    requires n < 0x1_0000_0000
    ensures Uint32Of(Uint32Bytes(n)) == n
  {
    var a := n / 256;
    var b := a / 256;
    assert n == 256 * a + n % 256 && a == 256 * b + a % 256 && b == 256 * (b / 256) + b % 256;
  }

  /** What encoding puts into the buffer. */
  function Encoded(a: Arg): seq<Byte>
    requires ValidArg(a)
  {
    match a
    case Plain(bytes) => bytes
    case Enum(bytes) => bytes
    case CString(ptr) => (if ptr.Null? then [] else ptr.bytes[..CachedLength(a) - 1]) + [0]
    case CharArray(chars) => if CachedLength(a) > |chars| then chars + [0] else chars[..CachedLength(a)]
    case Str(chars) => Uint32Bytes(Clamp(|chars|)) + chars[..Clamp(|chars|)]
  }

  function EncodedAll(args: seq<Arg>): seq<Byte>
    requires ValidArgs(args)
  {
    if args == [] then [] else Encoded(args[0]) + EncodedAll(args[1..])
  }

  function TotalSize(args: seq<Arg>): nat {
    if args == [] then 0 else SizeOf(args[0]) + TotalSize(args[1..])
  }

  /** The computed size is the number of bytes written. */
  lemma SizeExact(a: Arg)
    requires ValidArg(a)
    ensures |Encoded(a)| == SizeOf(a)
  {}

  lemma {:induction false} TotalSizeExact(args: seq<Arg>)
    requires ValidArgs(args)
    ensures |EncodedAll(args)| == TotalSize(args)
  {
    if args == [] {
    } else {
      SizeExact(args[0]);
      TotalSizeExact(args[1..]);
    }
  }

  // ---- Decoding --------------------------------------------------------------------------------

  function KindOf(a: Arg): Kind {
    match a
    case Plain(bytes) => FixedKind(|bytes|)
    case Enum(bytes) => FixedKind(|bytes|)
    case CString(_) => TextKind
    case CharArray(_) => TextKind
    case Str(_) => StrKind
  }

  function Kinds(args: seq<Arg>): seq<Kind> {
    if args == [] then [] else [KindOf(args[0])] + Kinds(args[1..])
  }

  /** The value and the number of bytes consumed; None when the bytes run out. */
  function DecodeOne(kind: Kind, b: seq<Byte>): (r: Option<(Value, nat)>)
    ensures r.Some? ==> r.value.1 <= |b|
  {
    match kind
    case FixedKind(n) => if n <= |b| then Some((Raw(b[..n]), n)) else None
    case TextKind =>
      var n := Strnlen(b);
      if n < |b| then Some((Text(b[..n]), n + 1)) else None
    case StrKind =>
      if |b| < 4 then None else
        var n := Uint32Of(b[..4]);
        if 4 + n <= |b| then Some((Text(b[4..4 + n]), 4 + n)) else None
  }

  function DecodeAll(kinds: seq<Kind>, b: seq<Byte>): Option<(seq<Value>, seq<Byte>)> {
    if kinds == [] then Some(([], b)) else
      match DecodeOne(kinds[0], b)
      case None => None
      case Some((v, n)) =>
        match DecodeAll(kinds[1..], b[n..])
        case None => None
        case Some((vs, rest)) => Some(([v] + vs, rest))
  }

  /** What the caller meant: text up to its terminator, null as empty, cut only at the 32-bit limit. */
  function Meaning(a: Arg): Value
    requires ValidArg(a)
  {
    match a
    case Plain(bytes) => Raw(bytes)
    case Enum(bytes) => Raw(bytes)
    case CString(Null) => Text([])
    case CString(Memory(bytes)) => Text(bytes[..CachedLength(a) - 1])
    case CharArray(chars) => Text(chars[..Strnlen(chars)])
    case Str(chars) => Text(chars[..Clamp(|chars|)])
  }

  function Meanings(args: seq<Arg>): seq<Value>
    requires ValidArgs(args)
  {
    if args == [] then [] else [Meaning(args[0])] + Meanings(args[1..])
  }

  /** A char array is written with its terminator unless its text is at the 32-bit limit. */
  predicate Terminated(a: Arg) {
    a.CharArray? ==> Strnlen(a.chars) + 1 <= MAX_LENGTH
  }

  /** Below the 32-bit limit nothing is cut: strings whole, other text up to its terminator. */
  lemma MeaningExact(a: Arg)
    requires ValidArg(a)
    ensures a.Str? && |a.chars| < 0xffff_ffff ==> Meaning(a) == Text(a.chars)
    ensures a.CharArray? && Strnlen(a.chars) + 1 < 0xffff_ffff ==> Meaning(a) == Text(a.chars[..Strnlen(a.chars)]) && Terminated(a)
    ensures a.CharArray? && Strnlen(a.chars) + 1 >= 0xffff_ffff ==> !Terminated(a)
    ensures a.CString? && a.ptr.Memory? && Strnlen(a.ptr.bytes) + 1 < 0xffff_ffff ==>
              Meaning(a) == Text(a.ptr.bytes[..Strnlen(a.ptr.bytes)])
    ensures a == CString(Null) ==> Meaning(a) == Text([])
    ensures a.Plain? || a.Enum? ==> Meaning(a) == Raw(a.bytes)
  {
    if a.Str? && |a.chars| < 0xffff_ffff { assert a.chars[..|a.chars|] == a.chars; }
  }

  lemma StrnlenIs(s: seq<Byte>, n: nat)
    requires n < |s| && s[n] == 0 && forall i :: 0 <= i < n ==> s[i] != 0
    ensures Strnlen(s) == n
  {}

  /** Encoded text: no terminator but the last byte. */
  lemma TextEncoding(a: Arg)
    requires ValidArg(a) && (a.CString? || a.CharArray?) && Terminated(a)
    ensures Meaning(a).Text? && Encoded(a) == Meaning(a).chars + [0]
    ensures forall i :: 0 <= i < |Meaning(a).chars| ==> Meaning(a).chars[i] != 0
  {}

  /** Decoding what was encoded gives the meaning back and consumes exactly the encoded bytes. */
  lemma OneRoundTrip(a: Arg, rest: seq<Byte>)
    requires ValidArg(a) && Terminated(a)
    ensures DecodeOne(KindOf(a), Encoded(a) + rest) == Some((Meaning(a), |Encoded(a)|))
  {
    hide Strnlen, Uint32Bytes, Uint32Of;
    var b := Encoded(a) + rest;
    match a
    case Plain(bytes) => assert b[..|bytes|] == bytes;
    case Enum(bytes) => assert b[..|bytes|] == bytes;
    case Str(chars) => StrRoundTrip(chars, rest);
    case _ =>
      hide Encoded, Meaning, CachedLength;
      TextEncoding(a);
      TextRoundTrip(Meaning(a).chars, rest);
  }

  lemma TextRoundTrip(chars: seq<Byte>, rest: seq<Byte>)
    requires forall i :: 0 <= i < |chars| ==> chars[i] != 0
    ensures DecodeOne(TextKind, (chars + [0]) + rest) == Some((Text(chars), |chars| + 1))
  {
    hide Strnlen;
    var b := (chars + [0]) + rest;
    StrnlenIs(b, |chars|);
    assert b[..|chars|] == chars;
  }

  lemma StrRoundTrip(chars: seq<Byte>, rest: seq<Byte>)
    ensures var n := Clamp(|chars|);
            DecodeOne(StrKind, (Uint32Bytes(n) + chars[..n]) + rest) == Some((Text(chars[..n]), 4 + n))
  {
    hide Uint32Of, Uint32Bytes;
    var n := Clamp(|chars|);
    var b := (Uint32Bytes(n) + chars[..n]) + rest;
    Uint32RoundTrip(n);
    assert b[..4] == Uint32Bytes(n);
    assert b[4..4 + n] == chars[..n];
  }

  /** A char array at the limit is written without a terminator: decoding runs on into what follows. */
  lemma UnterminatedRunsOn(a: Arg, rest: seq<Byte>)
    requires ValidArg(a) && !Terminated(a)
    ensures var r := DecodeOne(KindOf(a), Encoded(a) + rest); r.Some? ==> r.value.1 > |Encoded(a)|
  {
    hide Strnlen;
  }

  /** So an argument comes back, leaving what follows, exactly when its text is below the limit. */
  lemma RoundTripIff(a: Arg)
    requires ValidArg(a)
    ensures Terminated(a) <==>
            forall rest: seq<Byte> :: DecodeOne(KindOf(a), Encoded(a) + rest) == Some((Meaning(a), |Encoded(a)|))
  {
    hide DecodeOne, Encoded, Terminated, Meaning;
    if Terminated(a) {
      forall rest: seq<Byte> ensures DecodeOne(KindOf(a), Encoded(a) + rest) == Some((Meaning(a), |Encoded(a)|)) {
        OneRoundTrip(a, rest);
      }
    } else {
      UnterminatedRunsOn(a, []);
      assert DecodeOne(KindOf(a), Encoded(a) + []) != Some((Meaning(a), |Encoded(a)|));
    }
  }

  /** Such an argument: as many characters as the largest length, none of them a terminator. */
  lemma ArrayAtLimitFails(a: Arg)
    requires a == CharArray(seq(MAX_LENGTH, _ => 65))
    ensures ValidArg(a) && DecodeOne(KindOf(a), Encoded(a) + []) != Some((Meaning(a), |Encoded(a)|))
  {
    hide DecodeOne, Encoded, Meaning;
    assert a.chars[0] == 65;
    UnterminatedRunsOn(a, []);
  }

  predicate AllTerminated(args: seq<Arg>) {
    forall i :: 0 <= i < |args| ==> Terminated(args[i])
  }

  /** A whole argument list comes back, and what follows it is left alone. */
  lemma {:induction false} RoundTrip(args: seq<Arg>, rest: seq<Byte>)
    requires ValidArgs(args) && AllTerminated(args)
    ensures DecodeAll(Kinds(args), EncodedAll(args) + rest) == Some((Meanings(args), rest))
    decreases |args|
  {
    hide DecodeOne, Encoded, Meaning, Terminated, ValidArg, KindOf;
    if args == [] {
      assert [] + rest == rest;
    } else {
      var tail := EncodedAll(args[1..]) + rest;
      OneRoundTrip(args[0], tail);
      RoundTrip(args[1..], rest);
      assert EncodedAll(args) + rest == Encoded(args[0]) + tail;
      assert (Encoded(args[0]) + tail)[|Encoded(args[0])|..] == tail;
      assert Kinds(args)[1..] == Kinds(args[1..]);
    }
  }
}
