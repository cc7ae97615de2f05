/** Encoding and decoding undo each other, and an encoded struct is the image its layout describes. */
module IslRoundTrip {
  import opened Common
  import opened Endian
  import opened IslLayout
  import opened IslCodec

  // ----- the pieces -----

  lemma NumReads(n: nat, width: nat, rest: seq<byte>)
    requires n < Pow256(width)
    ensures ReadNum(Le(n, width) + rest, width) == Good(n, rest)
  {
    LeReads(n, width);
    assert (Le(n, width) + rest)[..width] == Le(n, width);
  }

  lemma NumWritten(b: seq<byte>, width: nat)
    requires ReadNum(b, width).Good?
    ensures ReadNum(b, width).value < Pow256(width)
    ensures b == Le(ReadNum(b, width).value, width) + ReadNum(b, width).rest
  {
    LeWrites(b[..width]);
    assert b == b[..width] + b[width..];
  }

  lemma ZerosRead(n: nat, rest: seq<byte>)
    ensures ReadZeros(Zeros(n) + rest, n) == Good((), rest)
  {
    var b := Zeros(n) + rest;
    assert b[n..] == rest;
    assert forall i :: 0 <= i < n ==> b[i] == Zeros(n)[i];
  }

  lemma ZerosWritten(b: seq<byte>, n: nat)
    requires ReadZeros(b, n).Good?
    ensures b == Zeros(n) + ReadZeros(b, n).rest
  {
    assert b[..n] == Zeros(n);
  }

  lemma U32Is()
    ensures Pow256(4) == U32
  {
    assert Pow256(1) == 256 && Pow256(2) == 0x1_0000 && Pow256(3) == 0x100_0000;
  }

  // ----- one level of each definition -----

  lemma ValidFacts(t: Type, v: Value, h: Context)
    ensures t.Array? ==> (Valid(t, v, h) <==> v.Items? && |v.items| == t.len && AllValid(t.elem, v.items, h))
    ensures t.Struct? ==>
      (Valid(t, v, h) <==>
       v.Items? && |v.items| == |t.fields| && FieldsValid(t.fields, v.items, |t.fields|, h))
    ensures t.Text? ==> (Valid(t, v, h) <==> v.Str? && |v.bytes| <= t.max && |v.bytes| < U32 && Utf8(v.bytes))
    ensures t.Vector? ==>
      (Valid(t, v, h) <==> v.Items? && |v.items| <= t.max && |v.items| < U32 && AllValid(t.elem, v.items, h))
    ensures !t.Array? && !t.Struct? && !t.Text? && !t.Vector? ==>
      (Valid(t, v, h) <==> v.Num? && v.n < Pow256(ScalarWidth(t)) && Allows(t, v.n, h))
  {
    hide AllValid, FieldsValid, Utf8, Allows;
  }

  lemma AllValidFacts(elem: Type, items: seq<Value>, i: nat, h: Context)
    requires i < |items| && AllValid(elem, items, h)
    ensures Valid(elem, items[i], h)
  {
    hide Valid;
  }

  lemma FieldsValidFacts(fields: seq<Type>, items: seq<Value>, n: nat, i: nat, h: Context)
    requires i < n && n <= |fields| && n <= |items| && FieldsValid(fields, items, n, h)
    ensures Valid(fields[i], items[i], h)
  {
    hide Valid;
  }

  lemma AllValidNext(elem: Type, items: seq<Value>, v: Value, h: Context)
    requires AllValid(elem, items, h) && Valid(elem, v, h)
    ensures AllValid(elem, items + [v], h)
  {
    hide Valid;
  }

  lemma FieldsValidNext(fields: seq<Type>, items: seq<Value>, v: Value, h: Context)
    requires |items| < |fields| && FieldsValid(fields, items, |items|, h) && Valid(fields[|items|], v, h)
    ensures FieldsValid(fields, items + [v], |items| + 1, h)
  {
    hide Valid;
  }

  lemma NoneValid(elem: Type, fields: seq<Type>, h: Context)
    ensures AllValid(elem, [], h) && FieldsValid(fields, [], 0, h)
  {}

  lemma EncodeFacts(t: Type, v: Value)
    ensures t.Array? && v.Items? ==> Encode(t, v) == EncodeAll(t.elem, v.items, |v.items|)
    ensures t.Struct? && v.Items? && |v.items| == |t.fields| ==>
      Encode(t, v) == EncodeFirst(t.fields, v.items, |t.fields|) + Zeros(TailPad(t.fields))
    ensures t.Text? && v.Str? ==> Encode(t, v) == Le(|v.bytes|, 4) + v.bytes
    ensures t.Vector? && v.Items? ==> Encode(t, v) == Le(|v.items|, 4) + EncodeAll(t.elem, v.items, |v.items|)
    ensures !t.Array? && !t.Struct? && !t.Text? && !t.Vector? && v.Num? ==> Encode(t, v) == Le(v.n, ScalarWidth(t))
  {
    hide EncodeAll, EncodeFirst, TailPad;
  }

  lemma EncodeAllFacts(elem: Type, items: seq<Value>, n: nat)
    requires n <= |items|
    ensures EncodeAll(elem, items, 0) == []
    ensures n > 0 ==> EncodeAll(elem, items, n) == EncodeAll(elem, items, n - 1) + Encode(elem, items[n - 1])
  {
    hide Encode;
  }

  lemma EncodeFirstFacts(fields: seq<Type>, items: seq<Value>, n: nat)
    requires n <= |fields| && n <= |items|
    ensures EncodeFirst(fields, items, 0) == []
    ensures n > 0 ==>
      EncodeFirst(fields, items, n) ==
      EncodeFirst(fields, items, n - 1) + Zeros(Pad(fields, n - 1)) + Encode(fields[n - 1], items[n - 1])
  {
    hide Encode, Pad;
  }

  lemma ReadFacts(t: Type, b: seq<byte>, h: Context)
    ensures t.Array? ==>
      var r := ReadAll(t.elem, t.len, b, h);
      Read(t, b, h) == if r.Bad? then Bad(r.error) else Good(Items(r.value), r.rest)
    ensures t.Struct? ==>
      var r := ReadFirst(t.fields, |t.fields|, b, h);
      Read(t, b, h) ==
      if r.Bad? then Bad(r.error) else
      var z := ReadZeros(r.rest, TailPad(t.fields));
      if z.Bad? then Bad(z.error) else Good(Items(r.value), z.rest)
    ensures t.Text? ==>
      var r := ReadNum(b, 4);
      Read(t, b, h) ==
      if r.Bad? then Bad(r.error)
      else if r.value > t.max then Bad(BoundExceeded)
      else if r.value > |r.rest| then Bad(ShortBuffer)
      else if !Utf8(r.rest[..r.value]) then Bad(InvalidUtf8)
      else Good(Str(r.rest[..r.value]), r.rest[r.value..])
    ensures t.Vector? ==>
      var n := ReadNum(b, 4);
      Read(t, b, h) ==
      if n.Bad? then Bad(n.error)
      else if n.value > t.max then Bad(BoundExceeded)
      else
        var r := ReadAll(t.elem, n.value, n.rest, h);
        if r.Bad? then Bad(r.error) else Good(Items(r.value), r.rest)
    ensures !t.Array? && !t.Struct? && !t.Text? && !t.Vector? ==> Read(t, b, h) == ReadScalar(t, b, h)
  {
    hide ReadAll, ReadFirst, ReadScalar, ReadNum, ReadZeros, Utf8, TailPad;
  }

  lemma ReadAllFacts(elem: Type, n: nat, b: seq<byte>, h: Context)
    ensures ReadAll(elem, 0, b, h) == Good([], b)
    ensures n > 0 ==>
      var r := ReadAll(elem, n - 1, b, h);
      ReadAll(elem, n, b, h) ==
      if r.Bad? then r else
      var v := Read(elem, r.rest, h);
      if v.Bad? then Bad(v.error) else Good(r.value + [v.value], v.rest)
  {
    hide Read;
  }

  lemma ReadFirstFacts(fields: seq<Type>, n: nat, b: seq<byte>, h: Context)
    requires n <= |fields|
    ensures ReadFirst(fields, 0, b, h) == Good([], b)
    ensures n > 0 ==>
      var r := ReadFirst(fields, n - 1, b, h);
      ReadFirst(fields, n, b, h) ==
      if r.Bad? then r else
      var z := ReadZeros(r.rest, Pad(fields, n - 1));
      if z.Bad? then Bad(z.error) else
      var v := Read(fields[n - 1], z.rest, h);
      if v.Bad? then Bad(v.error) else Good(r.value + [v.value], v.rest)
  {
    hide Read, ReadZeros, Pad;
  }

  lemma ScalarRead(t: Type, b: seq<byte>, h: Context)
    ensures var r := ReadNum(b, ScalarWidth(t));
      ReadScalar(t, b, h) ==
      if r.Bad? then Bad(r.error)
      else if Allows(t, r.value, h) then Good(Num(r.value), r.rest)
      else Bad(Refusal(t))
  {}

  lemma SizeFacts(t: Type)
    ensures t.Array? ==> Size(t) == Size(t.elem) * t.len
    ensures t.Text? ==> Size(t) == 4 + t.max
    ensures t.Vector? ==> Size(t) == 4 + Size(t.elem) * t.max
    ensures !t.Array? && !t.Struct? && !t.Text? && !t.Vector? ==> Size(t) == ScalarWidth(t)
  {}

  lemma KindFacts(t: Type)
    ensures t.Array? ==> (Inline(t) <==> Inline(t.elem))
    ensures t.Struct? ==> (Inline(t) <==> AllInline(t.fields))
    ensures t.Text? || t.Vector? ==> !Inline(t)
    ensures t.Vector? ==> (Storable(t) <==> Storable(t.elem))
    ensures !t.Text? && !t.Vector? ==> (Storable(t) <==> Inline(t))
  {}

  predicate AllInline(fields: seq<Type>) { forall k :: 0 <= k < |fields| ==> Inline(fields[k]) }

  lemma AllInlineFacts(fields: seq<Type>, k: nat)
    requires AllInline(fields) && k < |fields|
    ensures Inline(fields[k])
  {
    hide Inline;
  }

  // ----- what can be encoded -----

  /** What a decoder accepts, an encoder writes. */
  lemma {:induction false} Encodable(t: Type, v: Value, h: Context)
    requires Valid(t, v, h)
    ensures Valid(t, v, Sending)
    decreases t, 0
  {
    hide Valid, AllValid, FieldsValid;
    ValidFacts(t, v, h);
    ValidFacts(t, v, Sending);
    match t
    case Array(elem, _) => AllEncodable(elem, v.items, h);
    case Vector(elem, _) => AllEncodable(elem, v.items, h);
    case Struct(fields) =>
      assert FieldsValid(fields, v.items, |fields|, Sending) by {
        forall i | 0 <= i < |fields|
          ensures Valid(fields[i], v.items[i], Sending)
        {
          FieldsValidFacts(fields, v.items, |fields|, i, h);
          Encodable(fields[i], v.items[i], h);
        }
        FieldsValidIs(fields, v.items);
      }
    case _ =>
  }

  lemma FieldsValidIs(fields: seq<Type>, items: seq<Value>)
    requires |fields| == |items| && forall i :: 0 <= i < |fields| ==> Valid(fields[i], items[i], Sending)
    ensures FieldsValid(fields, items, |fields|, Sending)
  {
    hide Valid;
  }

  lemma {:induction false} AllEncodable(elem: Type, items: seq<Value>, h: Context)
    requires AllValid(elem, items, h)
    ensures AllValid(elem, items, Sending)
    decreases elem, 1
  {
    hide Valid;
    forall i | 0 <= i < |items|
      ensures Valid(elem, items[i], Sending)
    {
      Encodable(elem, items[i], h);
    }
  }

  // ----- lengths -----

  lemma {:induction false} AllLength(elem: Type, items: seq<Value>, n: nat, h: Context)
    requires Inline(elem) && n <= |items| && AllValid(elem, items, h)
    ensures |EncodeAll(elem, items, n)| == Size(elem) * n
    decreases elem, 1, n
  {
    hide *;
    EncodeAllFacts(elem, items, n);
    if n > 0 {
      AllLength(elem, items, n - 1, h);
      AllValidFacts(elem, items, n - 1, h);
      InlineLength(elem, items[n - 1], h);
      assert Size(elem) * (n - 1) + Size(elem) == Size(elem) * n;
    }
  }

  lemma {:induction false} FirstLength(fields: seq<Type>, items: seq<Value>, n: nat, h: Context)
    requires n <= |fields| == |items| && AllInline(fields) && FieldsValid(fields, items, |fields|, h)
    ensures |EncodeFirst(fields, items, n)| == Cursor(fields, n)
    decreases fields, 0, n
  {
    hide *;
    EncodeFirstFacts(fields, items, n);
    TailPadIs(fields);
    if n > 0 {
      FirstLength(fields, items, n - 1, h);
      FieldsValidFacts(fields, items, |fields|, n - 1, h);
      AllInlineFacts(fields, n - 1);
      InlineLength(fields[n - 1], items[n - 1], h);
      PadIs(fields, n - 1);
    }
  }

  /** An inline value takes exactly its type's size. */
  lemma {:induction false} InlineLength(t: Type, v: Value, h: Context)
    requires Inline(t) && Valid(t, v, h)
    ensures |Encode(t, v)| == Size(t)
    decreases t, 0, 0
  {
    hide *;
    ValidFacts(t, v, h);
    EncodeFacts(t, v);
    KindFacts(t);
    SizeFacts(t);
    match t
    case Array(elem, len) => AllLength(elem, v.items, len, h);
    case Struct(fields) =>
      FirstLength(fields, v.items, |fields|, h);
      TailPadIs(fields);
    case _ =>
  }

  lemma {:induction false} AllLengthBound(elem: Type, items: seq<Value>, n: nat, h: Context)
    requires Storable(elem) && n <= |items| && AllValid(elem, items, h)
    ensures |EncodeAll(elem, items, n)| <= Size(elem) * n
    decreases elem, 1, n
  {
    hide *;
    EncodeAllFacts(elem, items, n);
    if n > 0 {
      AllLengthBound(elem, items, n - 1, h);
      AllValidFacts(elem, items, n - 1, h);
      LengthBound(elem, items[n - 1], h);
      assert Size(elem) * (n - 1) + Size(elem) == Size(elem) * n;
    }
  }

  /** A bounded collection never takes more than its size at full capacity. */
  lemma {:induction false} LengthBound(t: Type, v: Value, h: Context)
    requires Storable(t) && Valid(t, v, h)
    ensures |Encode(t, v)| <= Size(t)
    decreases t, 0, 0
  {
    hide *;
    ValidFacts(t, v, h);
    EncodeFacts(t, v);
    KindFacts(t);
    SizeFacts(t);
    match t
    case Text(_) =>
    case Vector(elem, max) =>
      AllLengthBound(elem, v.items, |v.items|, h);
    case _ => InlineLength(t, v, h);
  }

  // ----- decoding undoes encoding -----

  lemma {:induction false} AllRoundTrip(elem: Type, items: seq<Value>, n: nat, rest: seq<byte>, h: Context)
    requires n <= |items| && AllValid(elem, items, h)
    ensures ReadAll(elem, n, EncodeAll(elem, items, n) + rest, h) == Good(items[..n], rest)
    decreases elem, 1, n
  {
    hide *;
    var b := EncodeAll(elem, items, n) + rest;
    EncodeAllFacts(elem, items, n);
    ReadAllFacts(elem, n, b, h);
    if n == 0 {
      assert b == rest && items[..0] == [];
    } else {
      var last := Encode(elem, items[n - 1]);
      assert b == EncodeAll(elem, items, n - 1) + (last + rest);
      AllRoundTrip(elem, items, n - 1, last + rest, h);
      AllValidFacts(elem, items, n - 1, h);
      RoundTrip(elem, items[n - 1], rest, h);
      assert items[..n] == items[..n - 1] + [items[n - 1]];
    }
  }

  lemma {:induction false} FirstRoundTrip(fields: seq<Type>, items: seq<Value>, n: nat, rest: seq<byte>, h: Context)
    requires n <= |fields| == |items| && FieldsValid(fields, items, |fields|, h)
    ensures ReadFirst(fields, n, EncodeFirst(fields, items, n) + rest, h) == Good(items[..n], rest)
    decreases fields, 0, n
  {
    hide *;
    var b := EncodeFirst(fields, items, n) + rest;
    EncodeFirstFacts(fields, items, n);
    ReadFirstFacts(fields, n, b, h);
    if n == 0 {
      assert b == rest && items[..0] == [];
    } else {
      var pad, last := Zeros(Pad(fields, n - 1)), Encode(fields[n - 1], items[n - 1]);
      assert b == EncodeFirst(fields, items, n - 1) + (pad + (last + rest));
      FirstRoundTrip(fields, items, n - 1, pad + (last + rest), h);
      ZerosRead(Pad(fields, n - 1), last + rest);
      FieldsValidFacts(fields, items, |fields|, n - 1, h);
      RoundTrip(fields[n - 1], items[n - 1], rest, h);
      assert items[..n] == items[..n - 1] + [items[n - 1]];
    }
  }

  /** Whatever follows it, an encoded value decodes to itself and leaves what follows. */
  lemma {:induction false} RoundTrip(t: Type, v: Value, rest: seq<byte>, h: Context)
    requires Valid(t, v, h)
    ensures Read(t, Encode(t, v) + rest, h) == Good(v, rest)
    decreases t, 0, 0
  {
    hide *;
    var b := Encode(t, v) + rest;
    ValidFacts(t, v, h);
    EncodeFacts(t, v);
    ReadFacts(t, b, h);
    U32Is();
    match t
    case Array(elem, len) =>
      AllRoundTrip(elem, v.items, len, rest, h);
      assert v.items[..len] == v.items;
    case Struct(fields) =>
      var first, pad := EncodeFirst(fields, v.items, |fields|), Zeros(TailPad(fields));
      FirstRoundTrip(fields, v.items, |fields|, pad + rest, h);
      assert b == first + (pad + rest);
      ZerosRead(TailPad(fields), rest);
      assert v.items[..|fields|] == v.items;
    case Text(_) =>
      NumReads(|v.bytes|, 4, v.bytes + rest);
      assert b == Le(|v.bytes|, 4) + (v.bytes + rest);
      assert (v.bytes + rest)[..|v.bytes|] == v.bytes && (v.bytes + rest)[|v.bytes|..] == rest;
    case Vector(elem, _) =>
      var n := |v.items|;
      var body := EncodeAll(elem, v.items, n);
      NumReads(n, 4, body + rest);
      assert b == Le(n, 4) + (body + rest);
      AllRoundTrip(elem, v.items, n, rest, h);
      assert v.items[..n] == v.items;
    case _ =>
      NumReads(v.n, ScalarWidth(t), rest);
      ScalarRead(t, b, h);
  }

  // ----- only canonical bytes decode -----

  lemma {:induction false} AllCanonical(elem: Type, n: nat, b: seq<byte>, h: Context)
    requires ReadAll(elem, n, b, h).Good?
    ensures var r := ReadAll(elem, n, b, h);
      AllValid(elem, r.value, h) && b == EncodeAll(elem, r.value, n) + r.rest
    decreases elem, 1, n
  {
    hide *;
    ReadAllFacts(elem, n, b, h);
    var all := ReadAll(elem, n, b, h);
    EncodeAllFacts(elem, all.value, n);
    if n == 0 {
      NoneValid(elem, [], h);
    } else {
      var r := ReadAll(elem, n - 1, b, h);
      AllCanonical(elem, n - 1, b, h);
      Canonical(elem, r.rest, h);
      var v := Read(elem, r.rest, h);
      AllValidNext(elem, r.value, v.value, h);
      EncodeAllPrefix(elem, r.value, all.value, n - 1);
    }
  }

  lemma {:induction false} EncodeAllPrefix(elem: Type, a: seq<Value>, b: seq<Value>, n: nat)
    requires n <= |a| <= |b| && b[..|a|] == a
    ensures EncodeAll(elem, a, n) == EncodeAll(elem, b, n)
    decreases n
  {
    hide *;
    EncodeAllFacts(elem, a, n);
    EncodeAllFacts(elem, b, n);
    if n > 0 {
      EncodeAllPrefix(elem, a, b, n - 1);
      assert a[n - 1] == b[..|a|][n - 1];
    }
  }

  lemma {:induction false} EncodeFirstPrefix(fields: seq<Type>, a: seq<Value>, b: seq<Value>, n: nat)
    requires n <= |fields| && n <= |a| <= |b| && b[..|a|] == a
    ensures EncodeFirst(fields, a, n) == EncodeFirst(fields, b, n)
    decreases n
  {
    hide *;
    EncodeFirstFacts(fields, a, n);
    EncodeFirstFacts(fields, b, n);
    if n > 0 {
      EncodeFirstPrefix(fields, a, b, n - 1);
      assert a[n - 1] == b[..|a|][n - 1];
    }
  }

  lemma {:induction false} FirstCanonical(fields: seq<Type>, n: nat, b: seq<byte>, h: Context)
    requires n <= |fields| && ReadFirst(fields, n, b, h).Good?
    ensures var r := ReadFirst(fields, n, b, h);
      FieldsValid(fields, r.value, n, h) && b == EncodeFirst(fields, r.value, n) + r.rest
    decreases fields, 0, n
  {
    hide *;
    ReadFirstFacts(fields, n, b, h);
    var all := ReadFirst(fields, n, b, h);
    EncodeFirstFacts(fields, all.value, n);
    if n == 0 {
      NoneValid(Handle, fields, h);
    } else {
      var r := ReadFirst(fields, n - 1, b, h);
      FirstCanonical(fields, n - 1, b, h);
      var z := ReadZeros(r.rest, Pad(fields, n - 1));
      ZerosWritten(r.rest, Pad(fields, n - 1));
      Canonical(fields[n - 1], z.rest, h);
      var v := Read(fields[n - 1], z.rest, h);
      FieldsValidNext(fields, r.value, v.value, h);
      EncodeFirstPrefix(fields, r.value, all.value, n - 1);
    }
  }

  /** Bytes that decode are exactly the encoding of the value they decode to, and that value is valid. */
  lemma {:induction false} Canonical(t: Type, b: seq<byte>, h: Context)
    requires Read(t, b, h).Good?
    ensures var r := Read(t, b, h); Valid(t, r.value, h) && b == Encode(t, r.value) + r.rest
    decreases t, 0, 0
  {
    hide *;
    ReadFacts(t, b, h);
    var v := Read(t, b, h).value;
    ValidFacts(t, v, h);
    EncodeFacts(t, v);
    U32Is();
    match t
    case Array(elem, len) => AllCanonical(elem, len, b, h);
    case Struct(fields) =>
      FirstCanonical(fields, |fields|, b, h);
      var r := ReadFirst(fields, |fields|, b, h);
      ZerosWritten(r.rest, TailPad(fields));
    case Text(_) => NumWritten(b, 4);
    case Vector(elem, _) =>
      NumWritten(b, 4);
      var n := ReadNum(b, 4);
      AllCanonical(elem, n.value, n.rest, h);
    case _ =>
      ScalarRead(t, b, h);
      NumWritten(b, ScalarWidth(t));
  }

  // ----- whole buffers -----

  /** `decode`: one value and nothing after it. */
  function Decode(t: Type, b: seq<byte>, h: Context): Parsed<Value>
  {
    var r := Read(t, b, h);
    if r.Good? && r.rest != [] then Bad(TrailingBytes) else r
  }

  /** The bytes that decode to a value are its encoding and no others; an invalid value has none. */
  lemma DecodesIff(t: Type, b: seq<byte>, v: Value, h: Context)
    ensures Decode(t, b, h) == Good(v, []) <==> Valid(t, v, h) && b == Encode(t, v)
  {
    hide *;
    DecodeFacts(t, b, h);
    if Read(t, b, h).Good? {
      Canonical(t, b, h);
    }
    if Valid(t, v, h) {
      RoundTrip(t, v, [], h);
      assert Encode(t, v) + [] == Encode(t, v);
    }
  }

  lemma DecodeFacts(t: Type, b: seq<byte>, h: Context)
    ensures var r := Read(t, b, h); Decode(t, b, h) == if r.Good? && r.rest != [] then Bad(TrailingBytes) else r
  {}

  lemma DecodeGood(t: Type, b: seq<byte>, h: Context)
    ensures var v := Decode(t, b, h); v.Good? ==> v.rest == [] && Valid(t, v.value, h) && b == Encode(t, v.value)
  {
    hide Valid, Encode, Read;
    var v := Decode(t, b, h);
    if v.Good? {
      DecodesIff(t, b, v.value, h);
    }
  }

  // ----- the image of a struct -----

  /** Byte `i` of the struct lies in field `k`. */
  predicate InField(fields: seq<Type>, k: nat, i: nat)
    requires k < |fields|
  {
    Offset(fields, k) <= i < Offset(fields, k) + Size(fields[k])
  }

  predicate InNoField(fields: seq<Type>, n: nat, i: nat)
    requires n <= |fields|
  {
    forall k :: 0 <= k < n ==> !InField(fields, k, i)
  }

  predicate FieldShows(e: seq<byte>, fields: seq<Type>, items: seq<Value>, k: nat)
    requires k < |fields| && k < |items|
  {
    && Offset(fields, k) + Size(fields[k]) <= |e|
    && e[Offset(fields, k)..Offset(fields, k) + Size(fields[k])] == Encode(fields[k], items[k])
  }

  /** A picture of the first `n` fields: each field's own encoding at its offset, zero everywhere else. */
  predicate Pictures(e: seq<byte>, fields: seq<Type>, items: seq<Value>, n: nat)
    requires n <= |fields| && n <= |items|
  {
    && (forall k :: 0 <= k < n ==> FieldShows(e, fields, items, k))
    && (forall i :: 0 <= i < |e| && InNoField(fields, n, i) ==> e[i] == 0)
  }

  /** What a field shows, it shows with more bytes behind it. */
  lemma ShowsStill(e: seq<byte>, more: seq<byte>, fields: seq<Type>, items: seq<Value>, k: nat)
    requires k < |fields| && k < |items| && FieldShows(e, fields, items, k)
    ensures FieldShows(e + more, fields, items, k)
  {
    hide Offset, Size, Encode;
    var at := Offset(fields, k);
    assert (e + more)[at..at + Size(fields[k])] == e[at..at + Size(fields[k])];
  }

  lemma ShowsLast(e: seq<byte>, fields: seq<Type>, items: seq<Value>, n: nat)
    requires n < |fields| && n < |items|
    requires |e| == Offset(fields, n) && |Encode(fields[n], items[n])| == Size(fields[n])
    ensures FieldShows(e + Encode(fields[n], items[n]), fields, items, n)
  {
    hide Offset, Size, Encode;
  }

  lemma NoFieldFewer(fields: seq<Type>, n: nat, i: nat)
    requires n < |fields| && InNoField(fields, n + 1, i)
    ensures InNoField(fields, n, i) && !InField(fields, n, i)
  {
    hide InField;
  }

  /** More zero bytes at the end change nothing in a picture. */
  lemma PictureGrows(e: seq<byte>, fields: seq<Type>, items: seq<Value>, n: nat, pad: nat)
    requires n <= |fields| && n <= |items| && Pictures(e, fields, items, n)
    ensures Pictures(e + Zeros(pad), fields, items, n)
  {
    hide FieldShows, InNoField;
    forall k | 0 <= k < n
      ensures FieldShows(e + Zeros(pad), fields, items, k)
    {
      ShowsStill(e, Zeros(pad), fields, items, k);
    }
  }

  lemma PictureNext(e: seq<byte>, fields: seq<Type>, items: seq<Value>, n: nat)
    requires n < |fields| && n < |items| && Pictures(e, fields, items, n)
    requires |e| == Offset(fields, n) && |Encode(fields[n], items[n])| == Size(fields[n])
    ensures Pictures(e + Encode(fields[n], items[n]), fields, items, n + 1)
  {
    hide FieldShows, InNoField, Offset, Size, Encode;
    var last := Encode(fields[n], items[n]);
    ShowsLast(e, fields, items, n);
    forall k | 0 <= k < n
      ensures FieldShows(e + last, fields, items, k)
    {
      ShowsStill(e, last, fields, items, k);
    }
    forall i | 0 <= i < |e + last| && InNoField(fields, n + 1, i)
      ensures (e + last)[i] == 0
    {
      NoFieldFewer(fields, n, i);
    }
  }

  lemma {:induction false} FirstImage(fields: seq<Type>, items: seq<Value>, n: nat, h: Context)
    requires n <= |fields| == |items| && AllInline(fields) && FieldsValid(fields, items, |fields|, h)
    ensures Pictures(EncodeFirst(fields, items, n), fields, items, n)
    decreases n
  {
    hide *;
    EncodeFirstFacts(fields, items, n);
    if n == 0 {
      EmptyPicture(fields, items);
    } else {
      var before := EncodeFirst(fields, items, n - 1);
      FirstImage(fields, items, n - 1, h);
      FirstLength(fields, items, n - 1, h);
      PictureGrows(before, fields, items, n - 1, Pad(fields, n - 1));
      PadIs(fields, n - 1);
      FieldsValidFacts(fields, items, |fields|, n - 1, h);
      AllInlineFacts(fields, n - 1);
      InlineLength(fields[n - 1], items[n - 1], h);
      PictureNext(before + Zeros(Pad(fields, n - 1)), fields, items, n - 1);
    }
  }

  lemma EmptyPicture(fields: seq<Type>, items: seq<Value>)
    ensures Pictures([], fields, items, 0)
  {}

  /** A struct's encoding: its compiled size, every field at its compiled offset, every other byte zero. */
  lemma StructImage(fields: seq<Type>, items: seq<Value>, h: Context)
    requires Inline(Struct(fields)) && Valid(Struct(fields), Items(items), h)
    ensures |items| == |fields|
    ensures |Encode(Struct(fields), Items(items))| == Size(Struct(fields))
    ensures Pictures(Encode(Struct(fields), Items(items)), fields, items, |fields|)
  {
    hide *;
    ValidFacts(Struct(fields), Items(items), h);
    KindFacts(Struct(fields));
    EncodeFacts(Struct(fields), Items(items));
    InlineLength(Struct(fields), Items(items), h);
    FirstImage(fields, items, |fields|, h);
    PictureGrows(EncodeFirst(fields, items, |fields|), fields, items, |fields|, TailPad(fields));
  }

  /** Only one byte string of the compiled size is such a picture. */
  lemma PictureUnique(a: seq<byte>, b: seq<byte>, fields: seq<Type>, items: seq<Value>)
    requires |items| == |fields| && |a| == |b|
    requires Pictures(a, fields, items, |fields|) && Pictures(b, fields, items, |fields|)
    ensures a == b
  {
    hide Offset, Size, Encode;
    var n := |fields|;
    forall i | 0 <= i < |a|
      ensures a[i] == b[i]
    {
      if !InNoField(fields, n, i) {
        var k :| 0 <= k < n && InField(fields, k, i);
        assert FieldShows(a, fields, items, k) && FieldShows(b, fields, items, k);
        var at := Offset(fields, k);
        assert a[i] == a[at..at + Size(fields[k])][i - at] && b[i] == b[at..at + Size(fields[k])][i - at];
      }
    }
  }
}
