/** The wire cursors, and the generated codecs running over them. */
module IslIo {
  import opened Common
  import opened Endian
  import opened Buffers
  import opened IslLayout
  import opened IslCodec
  import opened IslRoundTrip
  import opened IslEmit

  // ----- writing -----

  /**
   * Writing `bytes` at `at` into a buffer that held `was`: it succeeds exactly when they fit, and then they follow
   * what was written before; nothing before `at` is ever touched.
   */
  predicate Writes(was: seq<byte>, at: nat, bytes: seq<byte>, now: seq<byte>, pos: nat, ok: bool)
    requires at <= |was|
  {
    && |now| == |was| && at <= pos <= |was|
    && (ok <==> at + |bytes| <= |was|)
    && (ok ==> pos == at + |bytes| && now == Spliced(was, at, bytes))
    && now[..at] == was[..at]
  }

  lemma WritesNothing(was: seq<byte>, at: nat)
    requires at <= |was|
    ensures Writes(was, at, [], was, at, true)
  {
  }

  /** Two writes in a row are one write of both. */
  lemma WritesBoth(was: seq<byte>, at: nat, a: seq<byte>, mid: seq<byte>, pos: nat, b: seq<byte>, now: seq<byte>,
                   end: nat, ok: bool)
    requires at <= |was| && Writes(was, at, a, mid, pos, true) && Writes(mid, pos, b, now, end, ok)
    ensures Writes(was, at, a + b, now, end, ok)
  {
    if ok {
      SpliceNext(was, at, a, b);
    }
    assert now[..at] == now[..pos][..at];
    assert mid[..at] == mid[..pos][..at];
  }

  /** What has no room for a part has none for the whole. */
  lemma WritesFails(was: seq<byte>, at: nat, a: seq<byte>, now: seq<byte>, end: nat, whole: seq<byte>)
    requires at <= |was| && Writes(was, at, a, now, end, false) && |a| <= |whole|
    ensures Writes(was, at, whole, now, end, false)
  {}

  class Writer {
    const buf: array<byte>
    var pos: nat

    ghost predicate Valid()
      reads this`pos
    {
      pos <= buf.Length
    }

    constructor (buf: array<byte>)
      ensures this.buf == buf && pos == 0 && Valid()
    {
      this.buf := buf;
      pos := 0;
    }

    /** `write_bytes`; a refusal is `ShortBuffer` and writes nothing. */
    method WriteBytes(bytes: seq<byte>) returns (ok: bool)
      requires Valid()
      modifies this`pos, buf
      ensures Valid() && Writes(old(buf[..]), old(pos), bytes, buf[..], pos, ok)
      ensures !ok ==> buf[..] == old(buf[..]) && pos == old(pos)
    {
      if pos + |bytes| > buf.Length {
        return false;
      }
      Copy(buf, pos, bytes);
      pos := pos + |bytes|;
      return true;
    }

    method WriteZeros(n: nat) returns (ok: bool)
      requires Valid()
      modifies this`pos, buf
      ensures Valid() && Writes(old(buf[..]), old(pos), Zeros(n), buf[..], pos, ok)
      ensures !ok ==> buf[..] == old(buf[..]) && pos == old(pos)
    {
      if pos + n > buf.Length {
        return false;
      }
      forall i | pos <= i < pos + n {
        buf[i] := 0;
      }
      pos := pos + n;
      return true;
    }
  }

  /** The checker's layout handed to the emitter. */
  method Compile(fields: seq<Type>) returns (ops: seq<Op>)
    requires AllInline(fields)
    ensures ops == Program(fields)
  {
    hide Inline, Describes, Program, Resolved;
    var decls := seq(|fields|, i requires 0 <= i < |fields| => Declared(fields[i], false));
    var ir, ok := LowerStruct(decls);
    assert Accepted(decls);
    assert seq(|decls|, i requires 0 <= i < |decls| => decls[i].t) == fields;
    ops := EmitStruct(ir, fields);
  }

  /** The generated `encode` of a type. */
  method EncodeValue(w: Writer, t: Type, v: Value) returns (ok: bool)
    requires w.Valid() && Storable(t) && Valid(t, v, Sending)
    modifies w`pos, w.buf
    ensures w.Valid() && Writes(old(w.buf[..]), old(w.pos), Encode(t, v), w.buf[..], w.pos, ok)
    decreases t, 0
  {
    hide Valid, Encode, Writes, Inline, Storable;
    ValidFacts(t, v, Sending);
    EncodeFacts(t, v);
    KindFacts(t);
    InlineIsStorable(t);
    ghost var was, at := w.buf[..], w.pos;
    match t {
      case Array(elem, _) =>
        ok := EncodeItems(w, elem, v.items);
      case Struct(fields) =>
        ok := EncodeStruct(w, fields, v.items);
      case Text(_) =>
        ok := w.WriteBytes(Le(|v.bytes|, 4));
        if !ok {
          WritesFails(was, at, Le(|v.bytes|, 4), w.buf[..], w.pos, Encode(t, v));
          return;
        }
        ghost var mid, pos := w.buf[..], w.pos;
        ok := EncodeBytes(w, v.bytes);
        WritesBoth(was, at, Le(|v.bytes|, 4), mid, pos, v.bytes, w.buf[..], w.pos, ok);
      case Vector(elem, _) =>
        ghost var body := EncodeAll(elem, v.items, |v.items|);
        ok := w.WriteBytes(Le(|v.items|, 4));
        if !ok {
          WritesFails(was, at, Le(|v.items|, 4), w.buf[..], w.pos, Encode(t, v));
          return;
        }
        ghost var mid, pos := w.buf[..], w.pos;
        ok := EncodeItems(w, elem, v.items);
        WritesBoth(was, at, Le(|v.items|, 4), mid, pos, body, w.buf[..], w.pos, ok);
      case _ =>
        ok := w.WriteBytes(Le(v.n, ScalarWidth(t)));
    }
  }

  lemma InlineIsStorable(t: Type)
    ensures t.Array? && Inline(t.elem) ==> Storable(t.elem)
  {
    if t.Array? {
      KindFacts(t.elem);
    }
  }

  /** The loop over an array's or a vector's elements. */
  method EncodeItems(w: Writer, elem: Type, items: seq<Value>) returns (ok: bool)
    requires w.Valid() && Storable(elem) && AllValid(elem, items, Sending)
    modifies w`pos, w.buf
    ensures w.Valid() && Writes(old(w.buf[..]), old(w.pos), EncodeAll(elem, items, |items|), w.buf[..], w.pos, ok)
    decreases elem, 1
  {
    hide Valid, AllValid, EncodeAll, Writes, Storable;
    ghost var was, at := w.buf[..], w.pos;
    var i := 0;
    WritesNothing(was, at);
    EncodeAllFacts(elem, items, 0);
    while i < |items|
      invariant 0 <= i <= |items| && w.Valid()
      invariant Writes(was, at, EncodeAll(elem, items, i), w.buf[..], w.pos, true)
    {
      ghost var mid, pos := w.buf[..], w.pos;
      AllValidFacts(elem, items, i, Sending);
      EncodeAllFacts(elem, items, i + 1);
      ok := EncodeValue(w, elem, items[i]);
      WritesBoth(was, at, EncodeAll(elem, items, i), mid, pos, Encode(elem, items[i]), w.buf[..], w.pos, ok);
      if !ok {
        EncodeAllGrows(elem, items, i + 1, |items|);
        WritesFails(was, at, EncodeAll(elem, items, i + 1), w.buf[..], w.pos, EncodeAll(elem, items, |items|));
        return;
      }
      i := i + 1;
    }
    ok := true;
  }

  lemma {:induction false} EncodeAllGrows(elem: Type, items: seq<Value>, i: nat, n: nat)
    requires i <= n <= |items|
    ensures |EncodeAll(elem, items, i)| <= |EncodeAll(elem, items, n)|
    decreases n
  {
    hide *;
    EncodeAllFacts(elem, items, n);
    if i < n {
      EncodeAllGrows(elem, items, i, n - 1);
    }
  }

  /** A bounded string's content, byte by byte. */
  method EncodeBytes(w: Writer, bytes: seq<byte>) returns (ok: bool)
    requires w.Valid()
    modifies w`pos, w.buf
    ensures w.Valid() && Writes(old(w.buf[..]), old(w.pos), bytes, w.buf[..], w.pos, ok)
  {
    hide Writes;
    ghost var was, at := w.buf[..], w.pos;
    var i := 0;
    WritesNothing(was, at);
    while i < |bytes|
      invariant 0 <= i <= |bytes| && w.Valid()
      invariant Writes(was, at, bytes[..i], w.buf[..], w.pos, true)
    {
      ghost var mid, pos := w.buf[..], w.pos;
      ok := w.WriteBytes([bytes[i]]);
      WritesBoth(was, at, bytes[..i], mid, pos, [bytes[i]], w.buf[..], w.pos, ok);
      assert bytes[..i + 1] == bytes[..i] + [bytes[i]];
      if !ok {
        WritesFails(was, at, bytes[..i + 1], w.buf[..], w.pos, bytes);
        return;
      }
      i := i + 1;
    }
    assert bytes[..i] == bytes;
    ok := true;
  }

  /** A struct's generated encoder: compile the declaration, then run the emitted lines. */
  method EncodeStruct(w: Writer, fields: seq<Type>, items: seq<Value>) returns (ok: bool)
    requires w.Valid() && AllInline(fields)
    requires |items| == |fields| && FieldsValid(fields, items, |fields|, Sending)
    modifies w`pos, w.buf
    ensures w.Valid()
    ensures Writes(old(w.buf[..]), old(w.pos), Encode(Struct(fields), Items(items)), w.buf[..], w.pos, ok)
    decreases fields, 2
  {
    hide Valid, FieldsValid, Encode, Writes, Written, Refers, AllInline, Program;
    ghost var was, at := w.buf[..], w.pos;
    var ops := Compile(fields);
    ProgramWrites(fields, items);
    var i := 0;
    WritesNothing(was, at);
    WrittenFacts(ops, 0, fields, items);
    while i < |ops|
      invariant 0 <= i <= |ops| && w.Valid()
      invariant Writes(was, at, Written(ops, i, fields, items), w.buf[..], w.pos, true)
    {
      ghost var mid, pos := w.buf[..], w.pos;
      WrittenFacts(ops, i + 1, fields, items);
      ok := EncodeLine(w, ops[i], fields, items);
      WritesBoth(was, at, Written(ops, i, fields, items), mid, pos, OpBytes(ops[i], fields, items), w.buf[..], w.pos,
                 ok);
      if !ok {
        WrittenGrows(ops, i + 1, |ops|, fields, items);
        WritesFails(was, at, Written(ops, i + 1, fields, items), w.buf[..], w.pos,
                    Written(ops, |ops|, fields, items));
        return;
      }
      i := i + 1;
    }
    ok := true;
  }

  /** One line of a struct's encoder. */
  method EncodeLine(w: Writer, op: Op, fields: seq<Type>, items: seq<Value>) returns (ok: bool)
    requires w.Valid() && AllInline(fields)
    requires |items| == |fields| && FieldsValid(fields, items, |fields|, Sending)
    requires op.Field? ==> op.k < |fields|
    modifies w`pos, w.buf
    ensures w.Valid() && Writes(old(w.buf[..]), old(w.pos), OpBytes(op, fields, items), w.buf[..], w.pos, ok)
    decreases fields, 1
  {
    hide Valid, FieldsValid, Encode, Writes, Inline, Storable;
    match op {
      case Gap(n) =>
        ok := w.WriteZeros(n);
      case Field(k) =>
        FieldsValidFacts(fields, items, |fields|, k, Sending);
        AllInlineFacts(fields, k);
        KindFacts(fields[k]);
        ok := EncodeValue(w, fields[k], items[k]);
    }
  }

  lemma WrittenFacts(ops: seq<Op>, n: nat, fields: seq<Type>, items: seq<Value>)
    requires |fields| == |items| && Refers(ops, fields) && n <= |ops|
    ensures Written(ops, 0, fields, items) == []
    ensures n > 0 ==>
      && (ops[n - 1].Field? ==> ops[n - 1].k < |fields|)
      && Written(ops, n, fields, items) == Written(ops, n - 1, fields, items) + OpBytes(ops[n - 1], fields, items)
  {
    hide OpBytes;
  }

  lemma {:induction false} WrittenGrows(ops: seq<Op>, i: nat, n: nat, fields: seq<Type>, items: seq<Value>)
    requires |fields| == |items| && Refers(ops, fields) && i <= n <= |ops|
    ensures |Written(ops, i, fields, items)| <= |Written(ops, n, fields, items)|
    decreases n
  {
    hide *;
    WrittenFacts(ops, n, fields, items);
    if i < n {
      WrittenGrows(ops, i, n - 1, fields, items);
    }
  }

  /** `encode`: the bytes written, or `ShortBuffer`. */
  method EncodeInto(buf: array<byte>, t: Type, v: Value) returns (written: Option<nat>)
    requires Storable(t) && Valid(t, v, Sending)
    modifies buf
    ensures written.Some? <==> |Encode(t, v)| <= buf.Length
    ensures written.Some? ==> written.value == |Encode(t, v)| && buf[..] == Encode(t, v) + old(buf[..])[written.value..]
  {
    hide Valid, Storable, Encode;
    var w := new Writer(buf);
    var ok := EncodeValue(w, t, v);
    written := if ok then Some(w.pos) else None;
  }

  // ----- reading -----

  datatype Result<+T> = Ok(value: T) | Err(error: WireError)

  /** A result and the bytes left, as the parse describes them. */
  predicate Agrees<T(==)>(r: Result<T>, rest: seq<byte>, p: Parsed<T>)
  {
    match p
    case Good(v, left) => r == Ok(v) && rest == left
    case Bad(e) => r == Err(e)
  }

  class Reader {
    const buf: seq<byte>
    const handles: Context
    var pos: nat

    ghost predicate Valid()
      reads this`pos
    {
      pos <= |buf| && !handles.Sending?
    }

    /** The bytes not yet consumed. */
    ghost function Rest(): seq<byte>
      reads this`pos
    {
      if pos <= |buf| then buf[pos..] else []
    }

    /** A reader of a message, or of bytes that are not one. */
    constructor (buf: seq<byte>, handles: Context)
      requires !handles.Sending?
      ensures this.buf == buf && this.handles == handles && pos == 0 && Valid() && Rest() == buf
    {
      this.buf := buf;
      this.handles := handles;
      pos := 0;
    }

    method Take(n: nat) returns (r: Result<seq<byte>>)
      requires Valid()
      modifies this`pos
      ensures Valid()
      ensures n > |old(Rest())| ==> r == Err(ShortBuffer) && Rest() == old(Rest())
      ensures n <= |old(Rest())| ==> r == Ok(old(Rest())[..n]) && Rest() == old(Rest())[n..]
    {
      if pos + n > |buf| {
        return Err(ShortBuffer);
      }
      var bytes := buf[pos..pos + n];
      assert bytes == buf[pos..][..n] && buf[pos + n..] == buf[pos..][n..];
      pos := pos + n;
      return Ok(bytes);
    }

    method ReadNumber(width: nat) returns (r: Result<nat>)
      requires Valid()
      modifies this`pos
      ensures Valid() && Agrees(r, Rest(), ReadNum(old(Rest()), width))
    {
      hide LittleEndian;
      var bytes := Take(width);
      if bytes.Err? {
        return Err(bytes.error);
      }
      return Ok(LittleEndian(bytes.value));
    }

    method ExpectZeros(n: nat) returns (r: Result<()>)
      requires Valid()
      modifies this`pos
      ensures Valid() && Agrees(r, Rest(), ReadZeros(old(Rest()), n))
    {
      ghost var b := Rest();
      var bytes := Take(n);
      if bytes.Err? {
        return Err(bytes.error);
      }
      var i := 0;
      while i < n
        invariant 0 <= i <= n && bytes == Ok(b[..n]) && Rest() == b[n..] && Valid()
        invariant forall k :: 0 <= k < i ==> b[k] == 0
      {
        if bytes.value[i] != 0 {
          return Err(NonCanonicalPadding);
        }
        i := i + 1;
      }
      return Ok(());
    }

    /** `sub`: the payload of an envelope, read with as many handles. */
    method Sub(payload: seq<byte>) returns (r: Reader)
      requires Valid()
      ensures fresh(r) && r.Valid() && r.buf == payload && r.Rest() == payload && r.handles == handles
    {
      r := new Reader(payload, handles);
    }

    method Finish() returns (r: Result<()>)
      requires Valid()
      ensures r == if Rest() == [] then Ok(()) else Err(TrailingBytes)
    {
      return if pos == |buf| then Ok(()) else Err(TrailingBytes);
    }
  }

  /** The generated `decode` of a type. */
  method DecodeValue(r: Reader, t: Type) returns (v: Result<Value>)
    requires r.Valid() && Storable(t)
    modifies r`pos
    ensures r.Valid() && Agrees(v, r.Rest(), Read(t, old(r.Rest()), r.handles))
    decreases t, 0
  {
    hide Read, Inline, Storable, ReadNum, Utf8;
    ghost var b := r.Rest();
    ReadFacts(t, b, r.handles);
    KindFacts(t);
    InlineIsStorable(t);
    match t {
      case Array(elem, len) =>
        var items := DecodeItems(r, elem, len);
        v := if items.Err? then Err(items.error) else Ok(Items(items.value));
      case Struct(fields) =>
        var items := DecodeStruct(r, fields);
        v := if items.Err? then Err(items.error) else Ok(Items(items.value));
      case Text(max) =>
        var n := r.ReadNumber(4);
        if n.Err? {
          return Err(n.error);
        }
        if n.value > max {
          return Err(BoundExceeded);
        }
        var bytes := r.Take(n.value);
        if bytes.Err? {
          return Err(bytes.error);
        }
        if !Utf8(bytes.value) {
          return Err(InvalidUtf8);
        }
        v := Ok(Str(bytes.value));
      case Vector(elem, max) =>
        var n := r.ReadNumber(4);
        if n.Err? {
          return Err(n.error);
        }
        if n.value > max {
          return Err(BoundExceeded);
        }
        var items := DecodeItems(r, elem, n.value);
        v := if items.Err? then Err(items.error) else Ok(Items(items.value));
      case _ =>
        v := DecodeScalar(r, t);
    }
  }

  method DecodeScalar(r: Reader, t: Type) returns (v: Result<Value>)
    requires r.Valid()
    modifies r`pos
    ensures r.Valid() && Agrees(v, r.Rest(), ReadScalar(t, old(r.Rest()), r.handles))
  {
    hide ReadNum, Allows;
    var n := r.ReadNumber(ScalarWidth(t));
    if n.Err? {
      return Err(n.error);
    }
    if !Allows(t, n.value, r.handles) {
      return Err(Refusal(t));
    }
    return Ok(Num(n.value));
  }

  /** The loop over an array's or a vector's elements. */
  method DecodeItems(r: Reader, elem: Type, n: nat) returns (items: Result<seq<Value>>)
    requires r.Valid() && Storable(elem)
    modifies r`pos
    ensures r.Valid() && Agrees(items, r.Rest(), ReadAll(elem, n, old(r.Rest()), r.handles))
    decreases elem, 1
  {
    hide Read, ReadAll, Storable;
    ghost var b := r.Rest();
    var got: seq<Value> := [];
    var i := 0;
    ReadAllFacts(elem, 0, b, r.handles);
    while i < n
      invariant 0 <= i <= n && r.Valid()
      invariant ReadAll(elem, i, b, r.handles) == Good(got, r.Rest())
    {
      ReadAllFacts(elem, i + 1, b, r.handles);
      var v := DecodeValue(r, elem);
      if v.Err? {
        ReadAllFails(elem, i + 1, n, b, r.handles);
        return Err(v.error);
      }
      got := got + [v.value];
      i := i + 1;
    }
    items := Ok(got);
  }

  lemma {:induction false} ReadAllFails(elem: Type, i: nat, n: nat, b: seq<byte>, h: Context)
    requires i <= n && ReadAll(elem, i, b, h).Bad?
    ensures ReadAll(elem, n, b, h) == ReadAll(elem, i, b, h)
    decreases n
  {
    hide *;
    if i < n {
      ReadAllFails(elem, i, n - 1, b, h);
      ReadAllFacts(elem, n, b, h);
    }
  }

  /** A struct's generated decoder: compile the declaration, then run the emitted lines. */
  method DecodeStruct(r: Reader, fields: seq<Type>) returns (items: Result<seq<Value>>)
    requires r.Valid() && AllInline(fields)
    modifies r`pos
    ensures r.Valid()
    ensures Agrees(if items.Err? then Err(items.error) else Ok(Items(items.value)), r.Rest(),
                   Read(Struct(fields), old(r.Rest()), r.handles))
    decreases fields, 2
  {
    hide Read, Scanned, Refers, AllInline, Program, ScanOne;
    ghost var b := r.Rest();
    var ops := Compile(fields);
    ProgramScans(fields, b, r.handles);
    var got: seq<Value> := [];
    var i := 0;
    ScannedFacts(ops, 0, fields, b, r.handles);
    while i < |ops|
      invariant 0 <= i <= |ops| && r.Valid()
      invariant Scanned(ops, i, fields, b, r.handles) == Good(got, r.Rest())
    {
      ScannedFacts(ops, i + 1, fields, b, r.handles);
      var more := DecodeLine(r, ops[i], fields, got);
      if more.Err? {
        ScannedFails(ops, i + 1, |ops|, fields, b, r.handles);
        return Err(more.error);
      }
      got := more.value;
      i := i + 1;
    }
    items := Ok(got);
  }

  /** One line of a struct's decoder. */
  method DecodeLine(r: Reader, op: Op, fields: seq<Type>, got: seq<Value>) returns (more: Result<seq<Value>>)
    requires r.Valid() && AllInline(fields) && (op.Field? ==> op.k < |fields|)
    modifies r`pos
    ensures r.Valid() && Agrees(more, r.Rest(), ScanOne(op, fields, got, old(r.Rest()), r.handles))
    decreases fields, 1
  {
    hide Read, ReadZeros, Inline, Storable;
    match op {
      case Gap(n) =>
        var z := r.ExpectZeros(n);
        more := if z.Err? then Err(z.error) else Ok(got);
      case Field(k) =>
        AllInlineFacts(fields, k);
        KindFacts(fields[k]);
        var v := DecodeValue(r, fields[k]);
        more := if v.Err? then Err(v.error) else Ok(got + [v.value]);
    }
  }

  lemma ScannedFacts(ops: seq<Op>, n: nat, fields: seq<Type>, b: seq<byte>, h: Context)
    requires Refers(ops, fields) && n <= |ops|
    ensures Scanned(ops, 0, fields, b, h) == Good([], b)
    ensures n > 0 ==>
      && (ops[n - 1].Field? ==> ops[n - 1].k < |fields|)
      && var r := Scanned(ops, n - 1, fields, b, h);
         Scanned(ops, n, fields, b, h) == if r.Bad? then r else ScanOne(ops[n - 1], fields, r.value, r.rest, h)
  {
    hide ScanOne;
  }

  lemma {:induction false} ScannedFails(ops: seq<Op>, i: nat, n: nat, fields: seq<Type>, b: seq<byte>, h: Context)
    requires Refers(ops, fields) && i <= n <= |ops| && Scanned(ops, i, fields, b, h).Bad?
    ensures Scanned(ops, n, fields, b, h) == Scanned(ops, i, fields, b, h)
    decreases n
  {
    hide *;
    if i < n {
      ScannedFails(ops, i, n - 1, fields, b, h);
      ScannedFacts(ops, n, fields, b, h);
    }
  }

  /** `decode`: one value, and nothing after it. */
  method DecodeFrom(bytes: seq<byte>, t: Type, h: Context) returns (v: Result<Value>)
    requires Storable(t) && !h.Sending?
    ensures Agrees(v, [], Decode(t, bytes, h))
    ensures forall x :: v == Ok(x) <==> Valid(t, x, h) && bytes == Encode(t, x)
  {
    hide *;
    var r := new Reader(bytes, h);
    DecodeFacts(t, bytes, h);
    v := DecodeValue(r, t);
    AgreesFacts(v, r.Rest(), Read(t, bytes, h));
    if v.Ok? {
      var done := r.Finish();
      if done.Err? {
        v := Err(done.error);
      }
    }
    AgreesFacts(v, [], Decode(t, bytes, h));
    forall x
      ensures v == Ok(x) <==> Valid(t, x, h) && bytes == Encode(t, x)
    {
      DecodesIff(t, bytes, x, h);
    }
  }

  lemma AgreesFacts<T>(r: Result<T>, rest: seq<byte>, p: Parsed<T>)
    ensures Agrees(r, rest, p) <==> (p.Good? ==> r == Ok(p.value) && rest == p.rest) && (p.Bad? ==> r == Err(p.error))
  {}
}
