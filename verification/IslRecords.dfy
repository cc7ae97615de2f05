/** The generated table and union codecs as they run. */
module IslRecords {
  import opened Common
  import opened Endian
  import opened IslLayout
  import opened IslCodec
  import opened IslRoundTrip
  import opened IslTable
  import opened IslEvolution
  import opened IslUnion
  import opened IslIo

  // ----- encoding -----

  /** An ordinal and the length of the payload to come. */
  method EncodeHead(w: Writer, ordinal: nat, len: nat) returns (ok: bool)
    requires w.Valid()
    modifies w`pos, w.buf
    ensures w.Valid() && Writes(old(w.buf[..]), old(w.pos), Le(ordinal, 4) + Le(len, 4), w.buf[..], w.pos, ok)
  {
    hide Writes;
    ghost var was, at := w.buf[..], w.pos;
    ok := w.WriteBytes(Le(ordinal, 4));
    if !ok {
      WritesFails(was, at, Le(ordinal, 4), w.buf[..], w.pos, Le(ordinal, 4) + Le(len, 4));
      return;
    }
    ghost var mid, pos := w.buf[..], w.pos;
    ok := w.WriteBytes(Le(len, 4));
    WritesBoth(was, at, Le(ordinal, 4), mid, pos, Le(len, 4), w.buf[..], w.pos, ok);
  }

  method EncodeEnvelope(w: Writer, m: Member, v: Value) returns (ok: bool)
    requires w.Valid() && Storable(m.t) && Valid(m.t, v, Sending)
    modifies w`pos, w.buf
    ensures w.Valid() && Writes(old(w.buf[..]), old(w.pos), Envelope(m, v), w.buf[..], w.pos, ok)
  {
    hide Writes, Valid, Storable, Encode, EncodedLen;
    ghost var was, at := w.buf[..], w.pos;
    ghost var head := Le(m.ordinal, 4) + Le(EncodedLen(m.t, v), 4);
    assert Envelope(m, v) == head + Encode(m.t, v);
    ok := EncodeHead(w, m.ordinal, EncodedLen(m.t, v));
    if !ok {
      WritesFails(was, at, head, w.buf[..], w.pos, Envelope(m, v));
      return;
    }
    ghost var mid, pos := w.buf[..], w.pos;
    ok := EncodeValue(w, m.t, v);
    WritesBoth(was, at, head, mid, pos, Encode(m.t, v), w.buf[..], w.pos, ok);
  }

  /** How many fields are present. */
  method CountPresent(ms: seq<Member>, table: Table) returns (count: nat)
    ensures count == Count(ms, table, |ms|)
  {
    count := 0;
    var i := 0;
    while i < |ms|
      invariant 0 <= i <= |ms| && count == Count(ms, table, i)
    {
      if ms[i].ordinal in table {
        count := count + 1;
      }
      i := i + 1;
    }
  }

  /** A table's generated `encode`. */
  method EncodeTableTo(w: Writer, ms: seq<Member>, table: Table) returns (ok: bool)
    requires w.Valid() && Compiled(ms) && ValidTable(ms, table, Sending)
    modifies w`pos, w.buf
    ensures w.Valid() && Writes(old(w.buf[..]), old(w.pos), EncodeTable(ms, table), w.buf[..], w.pos, ok)
  {
    hide Writes, Compiled, ValidTable, Body, Count, EncodeTable;
    ghost var was, at := w.buf[..], w.pos;
    EncodeTableFacts(ms, table);
    var count := CountPresent(ms, table);
    ok := w.WriteBytes(Le(count, 4));
    if !ok {
      WritesFails(was, at, Le(count, 4), w.buf[..], w.pos, EncodeTable(ms, table));
      return;
    }
    ghost var mid, pos := w.buf[..], w.pos;
    ok := EncodeBody(w, ms, table);
    WritesBoth(was, at, Le(count, 4), mid, pos, Body(ms, table, |ms|), w.buf[..], w.pos, ok);
  }

  method EncodeBody(w: Writer, ms: seq<Member>, table: Table) returns (ok: bool)
    requires w.Valid() && Compiled(ms) && ValidTable(ms, table, Sending)
    modifies w`pos, w.buf
    ensures w.Valid() && Writes(old(w.buf[..]), old(w.pos), Body(ms, table, |ms|), w.buf[..], w.pos, ok)
  {
    hide Writes, Compiled, ValidTable, Body, Count, Valid, Find, Storable, Envelope;
    ghost var was, at := w.buf[..], w.pos;
    var i := 0;
    BodyFacts(ms, table, 0);
    WritesNothing(was, at);
    while i < |ms|
      invariant 0 <= i <= |ms| && w.Valid()
      invariant Writes(was, at, Body(ms, table, i), w.buf[..], w.pos, true)
    {
      BodyFacts(ms, table, i + 1);
      var m := ms[i];
      if m.ordinal in table {
        ghost var mid, pos := w.buf[..], w.pos;
        CompiledFacts(ms, i);
        ValidTableFacts(ms, table, m.ordinal, Sending);
        ok := EncodeEnvelope(w, m, table[m.ordinal]);
        WritesBoth(was, at, Body(ms, table, i), mid, pos, Envelope(m, table[m.ordinal]), w.buf[..], w.pos, ok);
        if !ok {
          BodyGrows(ms, table, i + 1, |ms|);
          WritesFails(was, at, Body(ms, table, i + 1), w.buf[..], w.pos, Body(ms, table, |ms|));
          return;
        }
      }
      i := i + 1;
    }
    ok := true;
  }

  lemma {:induction false} BodyGrows(ms: seq<Member>, table: Table, i: nat, n: nat)
    requires i <= n <= |ms|
    ensures |Body(ms, table, i)| <= |Body(ms, table, n)|
    decreases n
  {
    hide *;
    BodyFacts(ms, table, n);
    if i < n {
      BodyGrows(ms, table, i, n - 1);
    }
  }

  /** A union's generated `encode`. */
  method EncodeUnionTo(w: Writer, ms: seq<Member>, strict: bool, c: Choice) returns (ok: bool)
    requires w.Valid() && CompiledUnion(ms) && ValidChoice(ms, strict, c, Sending)
    modifies w`pos, w.buf
    ensures w.Valid() && Writes(old(w.buf[..]), old(w.pos), EncodeChoice(ms, c), w.buf[..], w.pos, ok)
  {
    hide Writes, CompiledUnion, Valid, Find, Storable, Envelope, MaxPayload;
    match c {
      case Known(o, v) =>
        VariantFacts(ms, o);
        ok := EncodeEnvelope(w, Member(o, Find(ms, o).value), v);
      case Unknown(o, bytes) =>
        ghost var was, at := w.buf[..], w.pos;
        ghost var head := Le(o, 4) + Le(|bytes|, 4);
        assert EncodeChoice(ms, c) == head + bytes;
        ok := EncodeHead(w, o, |bytes|);
        if !ok {
          WritesFails(was, at, head, w.buf[..], w.pos, EncodeChoice(ms, c));
          return;
        }
        ghost var mid, pos := w.buf[..], w.pos;
        ok := EncodeBytes(w, bytes);
        WritesBoth(was, at, head, mid, pos, bytes, w.buf[..], w.pos, ok);
    }
  }

  // ----- decoding -----

  /** A payload decoded by a sub-reader that must be left empty. */
  method DecodePayload(r: Reader, t: Type, payload: seq<byte>) returns (v: Result<Value>)
    requires r.Valid() && Storable(t)
    ensures Agrees(v, [], Decode(t, payload, r.handles))
  {
    hide *;
    var sub := r.Sub(payload);
    DecodeFacts(t, payload, r.handles);
    v := DecodeValue(sub, t);
    AgreesFacts(v, sub.Rest(), Read(t, payload, r.handles));
    if v.Ok? {
      var done := sub.Finish();
      if done.Err? {
        v := Err(done.error);
      }
    }
    AgreesFacts(v, [], Decode(t, payload, r.handles));
  }

  /** One turn of a table decoder's loop. */
  method DecodeEnvelope(r: Reader, ms: seq<Member>, p: Progress) returns (next: Result<Progress>)
    requires r.Valid() && Compiled(ms)
    modifies r`pos
    ensures r.Valid() && Agrees(next, r.Rest(), ReadEnvelope(ms, p, old(r.Rest()), r.handles))
  {
    hide Compiled, Find, Decode, ReadNum, Storable;
    var o := r.ReadNumber(4);
    if o.Err? {
      return Err(o.error);
    }
    if o.value <= p.prev {
      return Err(NonCanonicalTable);
    }
    var size := r.ReadNumber(4);
    if size.Err? {
      return Err(size.error);
    }
    var payload := r.Take(size.value);
    if payload.Err? {
      return Err(payload.error);
    }
    var t := Find(ms, o.value);
    if t.None? {
      return Ok(Progress(p.table, o.value));
    }
    MemberStorable(ms, o.value);
    DecodeGood(t.value, payload.value, r.handles);
    var v := DecodePayload(r, t.value, payload.value);
    return if v.Err? then Err(v.error) else Ok(Progress(p.table[o.value := v.value], o.value));
  }

  lemma MemberStorable(ms: seq<Member>, o: nat)
    requires Compiled(ms) && Find(ms, o).Some?
    ensures Storable(Find(ms, o).value)
  {
    hide Find, Storable;
    var i :| 0 <= i < |ms| && ms[i] == Member(o, Find(ms, o).value);
  }

  /** A table's generated `decode`. */
  method DecodeTable(r: Reader, ms: seq<Member>) returns (table: Result<Table>)
    requires r.Valid() && Compiled(ms)
    modifies r`pos
    ensures r.Valid() && Agrees(table, r.Rest(), ReadTable(ms, old(r.Rest()), r.handles))
  {
    hide Compiled, ReadEnvelope, ReadEnvelopes, ReadNum;
    var count := r.ReadNumber(4);
    if count.Err? {
      return Err(count.error);
    }
    ghost var b := r.Rest();
    var p := Progress(map[], -1);
    var i := 0;
    ReadEnvelopesFacts(ms, 0, b, r.handles);
    while i < count.value
      invariant 0 <= i <= count.value && r.Valid()
      invariant ReadEnvelopes(ms, i, b, r.handles) == Good(p, r.Rest())
    {
      ReadEnvelopesFacts(ms, i + 1, b, r.handles);
      var next := DecodeEnvelope(r, ms, p);
      if next.Err? {
        EnvelopesFail(ms, i + 1, count.value, b, r.handles);
        return Err(next.error);
      }
      p := next.value;
      i := i + 1;
    }
    return Ok(p.table);
  }

  lemma {:induction false} EnvelopesFail(ms: seq<Member>, i: nat, n: nat, b: seq<byte>, h: Context)
    requires i <= n && ReadEnvelopes(ms, i, b, h).Bad?
    ensures ReadEnvelopes(ms, n, b, h) == ReadEnvelopes(ms, i, b, h)
    decreases n
  {
    hide *;
    if i < n {
      EnvelopesFail(ms, i, n - 1, b, h);
      ReadEnvelopesFacts(ms, n, b, h);
    }
  }

  /** A union's generated `decode`. */
  method DecodeUnion(r: Reader, ms: seq<Member>, strict: bool) returns (c: Result<Choice>)
    requires r.Valid() && CompiledUnion(ms)
    modifies r`pos
    ensures r.Valid() && Agrees(c, r.Rest(), ReadUnion(ms, strict, old(r.Rest()), r.handles))
  {
    hide CompiledUnion, Find, Decode, ReadNum, MaxPayload, Storable;
    var o := r.ReadNumber(4);
    if o.Err? {
      return Err(o.error);
    }
    var size := r.ReadNumber(4);
    if size.Err? {
      return Err(size.error);
    }
    var payload := r.Take(size.value);
    if payload.Err? {
      return Err(payload.error);
    }
    var t := Find(ms, o.value);
    if t.Some? {
      VariantFacts(ms, o.value);
      DecodeGood(t.value, payload.value, r.handles);
      var v := DecodePayload(r, t.value, payload.value);
      return if v.Err? then Err(v.error) else Ok(Known(o.value, v.value));
    }
    if strict {
      return Err(BadUnionTag);
    }
    if size.value > MaxPayload(ms) {
      return Err(BoundExceeded);
    }
    return Ok(Unknown(o.value, payload.value));
  }
}
