/** The canonical wire form of a schema value: what the generated encoders write and the decoders accept. */
module IslCodec {
  import opened Common
  import opened Bits
  import opened Endian
  import opened IslLayout

  datatype WireError =
    | ShortBuffer
    | NonCanonicalPadding
    | InvalidBool
    | BadEnum
    | BadBits
    | BoundExceeded
    | HandleIndexOutOfRange
    | TrailingBytes
    | BadUnionTag
    | NonCanonicalTable
    | InvalidUtf8

  /** A decoder's outcome: a value and the bytes after it, or the reason there is none. */
  datatype Parsed<+T> = Good(value: T, rest: seq<byte>) | Bad(error: WireError)

  /** A scalar is its bit pattern; an array, a struct or a vector is its parts. */
  datatype Value = Num(n: nat) | Str(bytes: seq<byte>) | Items(items: seq<Value>)

  /**
   * Who looks at a value: an encoder, which writes bits and handle indices unchecked; or a decoder, of bytes that are
   * not a message or of a message with so many handles.
   */
  datatype Context = Sending | NoMessage | InMessage(count: nat)

  // ----- bits types -----

  /** `a | b`. */
  function Or(a: nat, b: nat): nat
    decreases a + b
  {
    if a == 0 && b == 0 then 0 else (if a % 2 == 1 || b % 2 == 1 then 1 else 0) + 2 * Or(a / 2, b / 2)
  }

  lemma {:induction false} OrBits(a: nat, b: nat, k: nat)
    ensures Bit(Or(a, b), k) <==> Bit(a, k) || Bit(b, k)
    decreases k
  {
    if a == 0 && b == 0 {
      ZeroHasNoBits(k);
    } else {
      assert Or(a, b) / 2 == Or(a / 2, b / 2);
      if k > 0 {
        OrBits(a / 2, b / 2, k - 1);
      }
    }
  }

  /** `KNOWN_BITS`. */
  function Known(members: seq<nat>): nat
  {
    if members == [] then 0 else Or(Known(members[..|members| - 1]), members[|members| - 1])
  }

  predicate SomeHas(members: seq<nat>, k: nat) { exists i :: 0 <= i < |members| && Bit(members[i], k) }

  lemma {:induction false} KnownBits(members: seq<nat>, k: nat)
    ensures Bit(Known(members), k) <==> SomeHas(members, k)
  {
    if members == [] {
      ZeroHasNoBits(k);
    } else {
      var init, last := members[..|members| - 1], members[|members| - 1];
      KnownBits(init, k);
      OrBits(Known(init), last, k);
      forall i | 0 <= i < |members| && Bit(members[i], k)
        ensures Bit(Known(members), k)
      {
        if i < |init| {
          assert init[i] == members[i];
        }
      }
    }
  }

  lemma {:induction false} NoBitsIsZero(x: nat)
    requires forall k :: !Bit(x, k)
    ensures x == 0
    decreases x
  {
    if x > 0 {
      assert !Bit(x, 0);
      forall k: nat
        ensures !Bit(x / 2, k)
      {
        assert !Bit(x, k + 1);
      }
      NoBitsIsZero(x / 2);
    }
  }

  predicate OnlyKnownBits(v: nat, members: seq<nat>)
  {
    AndNot(v, Known(members)) == 0
  }

  /** The mask test accepts exactly the unions of declared members' bits. */
  lemma OnlyKnownBitsIff(v: nat, members: seq<nat>)
    ensures OnlyKnownBits(v, members) <==>
      forall k :: Bit(v, k) ==> SomeHas(members, k)
  {
    var mask := Known(members);
    if AndNot(v, mask) == 0 {
      forall k: nat | Bit(v, k)
        ensures SomeHas(members, k)
      {
        AndNotBits(v, mask, k);
        ZeroHasNoBits(k);
        KnownBits(members, k);
      }
    } else if forall k :: Bit(v, k) ==> SomeHas(members, k) {
      forall k: nat
        ensures !Bit(AndNot(v, mask), k)
      {
        AndNotBits(v, mask, k);
        KnownBits(members, k);
      }
      NoBitsIsZero(AndNot(v, mask));
    }
  }

  // ----- text -----

  predicate Tail(b: byte) { 0x80 <= b < 0xc0 }

  /** Well-formed UTF-8, as RFC 3629 section 4 gives it. */
  predicate Utf8(s: seq<byte>)
  {
    if s == [] then true
    else if s[0] < 0x80 then Utf8(s[1..])
    else if 0xc2 <= s[0] < 0xe0 then |s| >= 2 && Tail(s[1]) && Utf8(s[2..])
    else if 0xe0 <= s[0] < 0xf0 then
      |s| >= 3 && Tail(s[1]) && Tail(s[2]) && (s[0] == 0xe0 ==> s[1] >= 0xa0) && (s[0] == 0xed ==> s[1] < 0xa0) &&
      Utf8(s[3..])
    else if 0xf0 <= s[0] < 0xf5 then
      |s| >= 4 && Tail(s[1]) && Tail(s[2]) && Tail(s[3]) && (s[0] == 0xf0 ==> s[1] >= 0x90) &&
      (s[0] == 0xf4 ==> s[1] < 0x90) && Utf8(s[4..])
    else false
  }

  // ----- values -----

  const U32: nat := 0x1_0000_0000

  function ScalarWidth(t: Type): nat
  {
    match t
    case Scalar(p) => Width(p)
    case Enum(base, _, _) => Width(base)
    case BitSet(base, _) => Width(base)
    case _ => 4
  }

  /** Whether the type admits this bit pattern. */
  predicate Allows(t: Type, n: nat, h: Context)
  {
    match t
    case Scalar(p) => p.Bool? ==> n < 2
    case Enum(_, strict, members) => strict ==> n in members
    case BitSet(_, members) => h.Sending? || OnlyKnownBits(n, members)
    case Handle => h.InMessage? ==> n < h.count
    case _ => true
  }

  /** How a decoder refuses a bit pattern. */
  function Refusal(t: Type): WireError
  {
    match t
    case Enum(_, _, _) => BadEnum
    case BitSet(_, _) => BadBits
    case Handle => HandleIndexOutOfRange
    case _ => InvalidBool
  }

  /** A value of the type, whose handle indices the message covers. */
  predicate Valid(t: Type, v: Value, h: Context)
    decreases t, 0
  {
    match t
    case Array(elem, len) => v.Items? && |v.items| == len && AllValid(elem, v.items, h)
    case Struct(fields) => v.Items? && |v.items| == |fields| && FieldsValid(fields, v.items, |fields|, h)
    case Text(max) => v.Str? && |v.bytes| <= max && |v.bytes| < U32 && Utf8(v.bytes)
    case Vector(elem, max) => v.Items? && |v.items| <= max && |v.items| < U32 && AllValid(elem, v.items, h)
    case _ => v.Num? && v.n < Pow256(ScalarWidth(t)) && Allows(t, v.n, h)
  }

  predicate AllValid(elem: Type, items: seq<Value>, h: Context)
    decreases elem, 1
  {
    forall i :: 0 <= i < |items| ==> Valid(elem, items[i], h)
  }

  predicate FieldsValid(fields: seq<Type>, items: seq<Value>, n: nat, h: Context)
    requires n <= |fields| && n <= |items|
    decreases fields, 0
  {
    forall i :: 0 <= i < n ==> Valid(fields[i], items[i], h)
  }

  // ----- encoding -----

  function Zeros(n: nat): (z: seq<byte>)
    ensures |z| == n && forall i :: 0 <= i < n ==> z[i] == 0
  {
    seq(n, _ => 0)
  }

  function Encode(t: Type, v: Value): seq<byte>
    decreases t, 0, 0
  {
    match t
    case Array(elem, _) => if v.Items? then EncodeAll(elem, v.items, |v.items|) else []
    case Struct(fields) =>
      if v.Items? && |v.items| == |fields|
      then EncodeFirst(fields, v.items, |fields|) + Zeros(TailPad(fields)) else []
    case Text(_) => if v.Str? then Le(|v.bytes|, 4) + v.bytes else []
    case Vector(elem, _) => if v.Items? then Le(|v.items|, 4) + EncodeAll(elem, v.items, |v.items|) else []
    case _ => if v.Num? then Le(v.n, ScalarWidth(t)) else []
  }

  /** The first `n` elements, one after the other. */
  function EncodeAll(elem: Type, items: seq<Value>, n: nat): seq<byte>
    requires n <= |items|
    decreases elem, 1, n
  {
    if n == 0 then [] else EncodeAll(elem, items, n - 1) + Encode(elem, items[n - 1])
  }

  /** The first `n` fields, each after the padding that brings it to its offset. */
  function EncodeFirst(fields: seq<Type>, items: seq<Value>, n: nat): seq<byte>
    requires n <= |fields| && n <= |items|
    decreases fields, 0, n
  {
    if n == 0 then []
    else EncodeFirst(fields, items, n - 1) + Zeros(Pad(fields, n - 1)) +
         Encode(fields[n - 1], items[n - 1])
  }

  // ----- decoding -----

  function ReadNum(b: seq<byte>, width: nat): (r: Parsed<nat>)
  {
    if |b| < width then Bad(ShortBuffer) else Good(LittleEndian(b[..width]), b[width..])
  }

  function ReadZeros(b: seq<byte>, n: nat): (r: Parsed<()>)
  {
    if |b| < n then Bad(ShortBuffer)
    else if exists i :: 0 <= i < n && b[i] != 0 then Bad(NonCanonicalPadding)
    else Good((), b[n..])
  }

  function ReadScalar(t: Type, b: seq<byte>, h: Context): (r: Parsed<Value>)
  {
    var r := ReadNum(b, ScalarWidth(t));
    if r.Bad? then Bad(r.error)
    else if Allows(t, r.value, h) then Good(Num(r.value), r.rest)
    else Bad(Refusal(t))
  }

  function Read(t: Type, b: seq<byte>, h: Context): Parsed<Value>
    decreases t, 0, 0
  {
    match t
    case Array(elem, len) =>
      var r := ReadAll(elem, len, b, h);
      if r.Bad? then Bad(r.error) else Good(Items(r.value), r.rest)
    case Struct(fields) =>
      var r := ReadFirst(fields, |fields|, b, h);
      if r.Bad? then Bad(r.error) else
      var z := ReadZeros(r.rest, TailPad(fields));
      if z.Bad? then Bad(z.error) else Good(Items(r.value), z.rest)
    case Text(max) =>
      var r := ReadNum(b, 4);
      if r.Bad? then Bad(r.error)
      else if r.value > max then Bad(BoundExceeded)
      else if r.value > |r.rest| then Bad(ShortBuffer)
      else if !Utf8(r.rest[..r.value]) then Bad(InvalidUtf8)
      else Good(Str(r.rest[..r.value]), r.rest[r.value..])
    case Vector(elem, max) =>
      var n := ReadNum(b, 4);
      if n.Bad? then Bad(n.error)
      else if n.value > max then Bad(BoundExceeded)
      else
        var r := ReadAll(elem, n.value, n.rest, h);
        if r.Bad? then Bad(r.error) else Good(Items(r.value), r.rest)
    case _ => ReadScalar(t, b, h)
  }

  function ReadAll(elem: Type, n: nat, b: seq<byte>, h: Context): (p: Parsed<seq<Value>>)
    ensures p.Good? ==> |p.value| == n
    decreases elem, 1, n
  {
    if n == 0 then Good([], b) else
    var r := ReadAll(elem, n - 1, b, h);
    if r.Bad? then r else
    var v := Read(elem, r.rest, h);
    if v.Bad? then Bad(v.error) else Good(r.value + [v.value], v.rest)
  }

  function ReadFirst(fields: seq<Type>, n: nat, b: seq<byte>, h: Context): (p: Parsed<seq<Value>>)
    requires n <= |fields|
    ensures p.Good? ==> |p.value| == n
    decreases fields, 0, n
  {
    if n == 0 then Good([], b) else
    var r := ReadFirst(fields, n - 1, b, h);
    if r.Bad? then r else
    var z := ReadZeros(r.rest, Pad(fields, n - 1));
    if z.Bad? then Bad(z.error) else
    var v := Read(fields[n - 1], z.rest, h);
    if v.Bad? then Bad(v.error) else Good(r.value + [v.value], v.rest)
  }
}
