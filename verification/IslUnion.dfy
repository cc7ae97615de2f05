/** Unions: an ordinal, a size and one payload; a flexible union carries variants it does not know. */
module IslUnion {
  import opened Common
  import opened Endian
  import opened IslLayout
  import opened IslCodec
  import opened IslRoundTrip
  import opened IslTable

  datatype Choice = Known(ordinal: nat, value: Value) | Unknown(ordinal: nat, bytes: seq<byte>)

  predicate CompiledUnion(ms: seq<Member>)
  {
    && Distinct(ms)
    && forall i :: 0 <= i < |ms| ==> ms[i].ordinal < U32 && Storable(ms[i].t) && Size(ms[i].t) < U32
  }

  /** `MAX_PAYLOAD`: the largest known variant. */
  function MaxPayload(ms: seq<Member>): (max: nat)
    ensures forall i :: 0 <= i < |ms| ==> Size(ms[i].t) <= max
    ensures ms == [] ==> max == 0
    ensures ms != [] ==> exists i :: 0 <= i < |ms| && max == Size(ms[i].t)
  {
    if ms == [] then 0
    else
      var rest, last := MaxPayload(ms[..|ms| - 1]), Size(ms[|ms| - 1].t);
      if rest > last then rest else last
  }

  predicate ValidChoice(ms: seq<Member>, strict: bool, c: Choice, h: Context)
  {
    match c
    case Known(o, v) => Find(ms, o).Some? && Valid(Find(ms, o).value, v, h)
    case Unknown(o, bytes) => !strict && Find(ms, o).None? && o < U32 && |bytes| <= MaxPayload(ms)
  }

  function EncodeChoice(ms: seq<Member>, c: Choice): seq<byte>
  {
    match c
    case Known(o, v) => if Find(ms, o).Some? then Envelope(Member(o, Find(ms, o).value), v) else []
    case Unknown(o, bytes) => Le(o, 4) + (Le(|bytes|, 4) + bytes)
  }

  function ReadUnion(ms: seq<Member>, strict: bool, b: seq<byte>, h: Context): Parsed<Choice>
  {
    var o := ReadNum(b, 4);
    if o.Bad? then Bad(o.error)
    else
      var s := ReadNum(o.rest, 4);
      if s.Bad? then Bad(s.error)
      else if |s.rest| < s.value then Bad(ShortBuffer)
      else if Find(ms, o.value).Some? then
        var v := Decode(Find(ms, o.value).value, s.rest[..s.value], h);
        if v.Bad? then Bad(v.error) else Good(Known(o.value, v.value), s.rest[s.value..])
      else if strict then Bad(BadUnionTag)
      else if s.value > MaxPayload(ms) then Bad(BoundExceeded)
      else Good(Unknown(o.value, s.rest[..s.value]), s.rest[s.value..])
  }

  lemma VariantFacts(ms: seq<Member>, o: nat)
    requires CompiledUnion(ms) && Find(ms, o).Some?
    ensures o < U32 && Storable(Find(ms, o).value) && Size(Find(ms, o).value) < U32
  {
    hide Find, Storable, Size;
    var i :| 0 <= i < |ms| && ms[i] == Member(o, Find(ms, o).value);
  }

  lemma MaxPayloadFits(ms: seq<Member>)
    requires CompiledUnion(ms)
    ensures MaxPayload(ms) < U32
  {
    hide Storable, Size, MaxPayload;
  }

  /** A choice decodes to itself: a known variant to its value, an unknown one to the bytes it came with. */
  lemma UnionRoundTrip(ms: seq<Member>, strict: bool, c: Choice, rest: seq<byte>, h: Context)
    requires CompiledUnion(ms) && ValidChoice(ms, strict, c, h)
    ensures ReadUnion(ms, strict, EncodeChoice(ms, c) + rest, h) == Good(c, rest)
  {
    match c
    case Known(o, v) =>
      KnownRoundTrip(ms, strict, o, v, rest, h);
    case Unknown(o, bytes) =>
      hide *;
      UnknownFacts(ms, strict, o, bytes, rest, h);
  }

  lemma KnownRoundTrip(ms: seq<Member>, strict: bool, o: nat, v: Value, rest: seq<byte>, h: Context)
    requires CompiledUnion(ms) && Find(ms, o).Some? && Valid(Find(ms, o).value, v, h)
    ensures ReadUnion(ms, strict, EncodeChoice(ms, Known(o, v)) + rest, h) == Good(Known(o, v), rest)
  {
    hide Find, Valid, Encode, Decode, Size, Storable, ReadNum, Envelope, MaxPayload, CompiledUnion;
    var t := Find(ms, o).value;
    VariantFacts(ms, o);
    var body := Encode(t, v);
    EnvelopeOpens(Member(o, t), v, rest, h);
    assert (body + rest)[..|body|] == body && (body + rest)[|body|..] == rest;
    DecodesIff(t, body, v, h);
  }

  lemma UnknownFacts(ms: seq<Member>, strict: bool, o: nat, bytes: seq<byte>, rest: seq<byte>, h: Context)
    requires CompiledUnion(ms) && ValidChoice(ms, strict, Unknown(o, bytes), h)
    ensures ReadUnion(ms, strict, EncodeChoice(ms, Unknown(o, bytes)) + rest, h) == Good(Unknown(o, bytes), rest)
  {
    hide Find, ReadNum, Decode, MaxPayload, CompiledUnion;
    MaxPayloadFits(ms);
    U32Is();
    assert EncodeChoice(ms, Unknown(o, bytes)) + rest == Le(o, 4) + (Le(|bytes|, 4) + (bytes + rest));
    NumReads(o, 4, Le(|bytes|, 4) + (bytes + rest));
    NumReads(|bytes|, 4, bytes + rest);
    assert (bytes + rest)[..|bytes|] == bytes && (bytes + rest)[|bytes|..] == rest;
  }

  /** Bytes that decode are the encoding of the choice they decode to, known or not. */
  lemma UnionCanonical(ms: seq<Member>, strict: bool, b: seq<byte>, h: Context)
    requires CompiledUnion(ms) && ReadUnion(ms, strict, b, h).Good?
    ensures var r := ReadUnion(ms, strict, b, h);
      ValidChoice(ms, strict, r.value, h) && b == EncodeChoice(ms, r.value) + r.rest
  {
    hide Find, Decode, ReadNum, Encode, EncodedLen, Valid, MaxPayload, CompiledUnion;
    var o := ReadNum(b, 4);
    var s := ReadNum(o.rest, 4);
    var payload := s.rest[..s.value];
    NumWritten(b, 4);
    NumWritten(o.rest, 4);
    U32Is();
    assert s.rest == payload + s.rest[s.value..];
    var e := Le(o.value, 4) + (Le(s.value, 4) + payload);
    assert b == e + s.rest[s.value..];
    if Find(ms, o.value).Some? {
      var t := Find(ms, o.value).value;
      var v := Decode(t, payload, h);
      VariantFacts(ms, o.value);
      DecodeGood(t, payload, h);
      EncodedLenIs(t, v.value, h);
    }
  }

  /** What a reader without the variant makes of one a newer writer sent. */
  lemma UnknownVariant(newer: seq<Member>, older: seq<Member>, strict: bool, o: nat, v: Value, rest: seq<byte>,
                       h: Context)
    requires CompiledUnion(newer) && CompiledUnion(older)
    requires Find(older, o).None? && ValidChoice(newer, strict, Known(o, v), Sending)
    ensures var payload := Encode(Find(newer, o).value, v);
      ReadUnion(older, strict, EncodeChoice(newer, Known(o, v)) + rest, h) ==
      if strict then Bad(BadUnionTag)
      else if |payload| > MaxPayload(older) then Bad(BoundExceeded)
      else Good(Unknown(o, payload), rest)
  {
    hide Find, Valid, Encode, Decode, Size, Storable, ReadNum, Envelope, MaxPayload, CompiledUnion;
    var t := Find(newer, o).value;
    VariantFacts(newer, o);
    var body := Encode(t, v);
    EnvelopeOpens(Member(o, t), v, rest, Sending);
    assert (body + rest)[..|body|] == body && (body + rest)[|body|..] == rest;
  }

  /** Passed on by the older reader, an unknown variant that fitted reaches a newer reader unchanged. */
  lemma UnknownRelayed(newer: seq<Member>, older: seq<Member>, o: nat, v: Value, rest: seq<byte>, h: Context)
    requires CompiledUnion(newer) && CompiledUnion(older)
    requires Find(older, o).None? && ValidChoice(newer, false, Known(o, v), h)
    requires |Encode(Find(newer, o).value, v)| <= MaxPayload(older)
    ensures var relayed := ReadUnion(older, false, EncodeChoice(newer, Known(o, v)), h);
      && relayed.Good?
      && EncodeChoice(older, relayed.value) == EncodeChoice(newer, Known(o, v))
      && ReadUnion(newer, false, EncodeChoice(older, relayed.value) + rest, h) == Good(Known(o, v), rest)
  {
    var b := EncodeChoice(newer, Known(o, v));
    Encodable(Find(newer, o).value, v, h);
    assert ValidChoice(newer, false, Known(o, v), Sending);
    assert b == b + [] && (b == EncodeChoice(older, Unknown(o, Encode(Find(newer, o).value, v)))) by {
      hide Find, Valid, Encode, EncodedLen, MaxPayload, CompiledUnion;
      VariantFacts(newer, o);
      EncodedLenIs(Find(newer, o).value, v, Sending);
    }
    hide *;
    UnknownVariant(newer, older, false, o, v, [], h);
    UnionRoundTrip(newer, false, Known(o, v), rest, h);
  }
}
