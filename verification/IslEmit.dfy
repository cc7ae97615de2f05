/** What the schema compiler emits for a struct, as lines an encoder or a decoder runs. */
module IslEmit {
  import opened Common
  import opened IslLayout
  import opened IslCodec
  import opened IslRoundTrip

  // ----- what the compiler emits for a struct -----

  /** One emitted line: `write_zeros` or `expect_zeros`, or the codec call of field `k`. */
  datatype Op = Gap(n: nat) | Field(k: nat)

  function Line(gap: nat): seq<Op> { if gap > 0 then [Gap(gap)] else [] }

  /** The lines for the first `n` fields. */
  function Code(fields: seq<Type>, n: nat): seq<Op>
    requires n <= |fields|
    decreases n
  {
    if n == 0 then [] else Code(fields, n - 1) + Line(Pad(fields, n - 1)) + [Field(n - 1)]
  }

  function Program(fields: seq<Type>): seq<Op> { Code(fields, |fields|) + Line(TailPad(fields)) }

  /** `emit_struct`: the encoder's lines and, line for line, the decoder's. */
  method EmitStruct(ir: StructIr, ghost fields: seq<Type>) returns (ops: seq<Op>)
    requires Describes(ir, fields)
    ensures ops == Program(fields)
  {
    hide Offset, Cursor, Size, Align, Pad, TailPad;
    ops := [];
    var cursor := 0;
    var i := 0;
    TailPadIs(fields);
    while i < |ir.fields|
      invariant 0 <= i <= |ir.fields| && cursor == Cursor(fields, i) && ops == Code(fields, i)
    {
      var f := ir.fields[i];
      PadIs(fields, i);
      if f.offset > cursor {
        ops := ops + [Gap(f.offset - cursor)];
      }
      ops := ops + [Field(i)];
      cursor := f.offset + f.size;
      i := i + 1;
    }
    if ir.size > cursor {
      ops := ops + [Gap(ir.size - cursor)];
    }
  }

  predicate Refers(ops: seq<Op>, fields: seq<Type>)
  {
    forall i :: 0 <= i < |ops| && ops[i].Field? ==> ops[i].k < |fields|
  }

  lemma {:induction false} CodeRefers(fields: seq<Type>, n: nat)
    requires n <= |fields|
    ensures Refers(Code(fields, n), fields)
    decreases n
  {
    hide Pad;
    if n > 0 {
      CodeRefers(fields, n - 1);
    }
  }

  // ----- what the lines mean -----

  function OpBytes(op: Op, fields: seq<Type>, items: seq<Value>): seq<byte>
    requires |fields| == |items| && (op.Field? ==> op.k < |fields|)
  {
    match op
    case Gap(n) => Zeros(n)
    case Field(k) => Encode(fields[k], items[k])
  }

  /** What running the first `n` lines of an encoder writes. */
  function Written(ops: seq<Op>, n: nat, fields: seq<Type>, items: seq<Value>): seq<byte>
    requires |fields| == |items| && Refers(ops, fields) && n <= |ops|
    decreases n
  {
    if n == 0 then [] else Written(ops, n - 1, fields, items) + OpBytes(ops[n - 1], fields, items)
  }

  lemma {:induction false} WrittenPrefix(a: seq<Op>, b: seq<Op>, n: nat, fields: seq<Type>, items: seq<Value>)
    requires |fields| == |items| && Refers(a, fields) && Refers(b, fields)
    requires n <= |a| <= |b| && b[..|a|] == a
    ensures Written(a, n, fields, items) == Written(b, n, fields, items)
    decreases n
  {
    hide OpBytes;
    if n > 0 {
      WrittenPrefix(a, b, n - 1, fields, items);
      assert a[n - 1] == b[..|a|][n - 1];
    }
  }

  lemma WrittenNext(ops: seq<Op>, op: Op, fields: seq<Type>, items: seq<Value>)
    requires |fields| == |items| && Refers(ops, fields) && (op.Field? ==> op.k < |fields|)
    ensures Refers(ops + [op], fields)
    ensures Written(ops + [op], |ops| + 1, fields, items) ==
            Written(ops, |ops|, fields, items) + OpBytes(op, fields, items)
  {
    hide OpBytes;
    WrittenPrefix(ops, ops + [op], |ops|, fields, items);
  }

  lemma {:induction false} CodeWrites(fields: seq<Type>, items: seq<Value>, n: nat)
    requires |fields| == |items| && n <= |fields|
    ensures Refers(Code(fields, n), fields)
    ensures Written(Code(fields, n), |Code(fields, n)|, fields, items) == EncodeFirst(fields, items, n)
    decreases n
  {
    hide Encode, Pad, Written;
    CodeRefers(fields, n);
    EncodeFirstFacts(fields, items, n);
    WrittenNothing(fields, items);
    if n > 0 {
      CodeWrites(fields, items, n - 1);
      GapWrites(Code(fields, n - 1), Pad(fields, n - 1), fields, items);
      WrittenNext(Code(fields, n - 1) + Line(Pad(fields, n - 1)), Field(n - 1), fields, items);
    }
  }

  lemma WrittenNothing(fields: seq<Type>, items: seq<Value>)
    requires |fields| == |items|
    ensures Refers([], fields) && Written([], 0, fields, items) == []
  {}

  lemma GapWrites(ops: seq<Op>, gap: nat, fields: seq<Type>, items: seq<Value>)
    requires |fields| == |items| && Refers(ops, fields)
    ensures Refers(ops + Line(gap), fields)
    ensures Written(ops + Line(gap), |ops + Line(gap)|, fields, items) ==
            Written(ops, |ops|, fields, items) + Zeros(gap)
  {
    hide Written;
    if gap > 0 {
      WrittenNext(ops, Gap(gap), fields, items);
    } else {
      assert ops + Line(gap) == ops && Zeros(gap) == [];
    }
  }

  /** The emitted encoder writes the struct's canonical form. */
  lemma ProgramWrites(fields: seq<Type>, items: seq<Value>)
    requires |fields| == |items|
    ensures Refers(Program(fields), fields)
    ensures Written(Program(fields), |Program(fields)|, fields, items) == Encode(Struct(fields), Items(items))
  {
    hide Code, TailPad, Written, EncodeFirst, Encode;
    CodeWrites(fields, items, |fields|);
    GapWrites(Code(fields, |fields|), TailPad(fields), fields, items);
    EncodeFacts(Struct(fields), Items(items));
  }

  /** What running the first `n` lines of a decoder reads. */
  function Scanned(ops: seq<Op>, n: nat, fields: seq<Type>, b: seq<byte>, h: Context): Parsed<seq<Value>>
    requires Refers(ops, fields) && n <= |ops|
    decreases n
  {
    if n == 0 then Good([], b) else
    var r := Scanned(ops, n - 1, fields, b, h);
    if r.Bad? then r else ScanOne(ops[n - 1], fields, r.value, r.rest, h)
  }

  function ScanOne(op: Op, fields: seq<Type>, got: seq<Value>, b: seq<byte>, h: Context): Parsed<seq<Value>>
    requires op.Field? ==> op.k < |fields|
  {
    match op
    case Gap(n) =>
      var z := ReadZeros(b, n);
      if z.Bad? then Bad(z.error) else Good(got, z.rest)
    case Field(k) =>
      var v := Read(fields[k], b, h);
      if v.Bad? then Bad(v.error) else Good(got + [v.value], v.rest)
  }

  lemma {:induction false} ScannedPrefix(a: seq<Op>, b: seq<Op>, n: nat, fields: seq<Type>, bytes: seq<byte>, h: Context)
    requires Refers(a, fields) && Refers(b, fields) && n <= |a| <= |b| && b[..|a|] == a
    ensures Scanned(a, n, fields, bytes, h) == Scanned(b, n, fields, bytes, h)
    decreases n
  {
    hide ScanOne;
    if n > 0 {
      ScannedPrefix(a, b, n - 1, fields, bytes, h);
      assert a[n - 1] == b[..|a|][n - 1];
    }
  }

  lemma ScannedNext(ops: seq<Op>, op: Op, fields: seq<Type>, b: seq<byte>, h: Context)
    requires Refers(ops, fields) && (op.Field? ==> op.k < |fields|)
    ensures Refers(ops + [op], fields)
    ensures var r := Scanned(ops, |ops|, fields, b, h);
      Scanned(ops + [op], |ops| + 1, fields, b, h) ==
      if r.Bad? then r else ScanOne(op, fields, r.value, r.rest, h)
  {
    hide ScanOne;
    ScannedPrefix(ops, ops + [op], |ops|, fields, b, h);
  }

  lemma GapScans(ops: seq<Op>, gap: nat, fields: seq<Type>, b: seq<byte>, h: Context)
    requires Refers(ops, fields)
    ensures Refers(ops + Line(gap), fields)
    ensures var r := Scanned(ops, |ops|, fields, b, h);
      Scanned(ops + Line(gap), |ops + Line(gap)|, fields, b, h) ==
      if r.Bad? then r else
      var z := ReadZeros(r.rest, gap);
      if z.Bad? then Bad(z.error) else Good(r.value, z.rest)
  {
    hide Scanned;
    if gap > 0 {
      ScannedNext(ops, Gap(gap), fields, b, h);
    } else {
      assert ops + Line(gap) == ops;
    }
  }

  lemma {:induction false} CodeScans(fields: seq<Type>, n: nat, b: seq<byte>, h: Context)
    requires n <= |fields|
    ensures Refers(Code(fields, n), fields)
    ensures Scanned(Code(fields, n), |Code(fields, n)|, fields, b, h) == ReadFirst(fields, n, b, h)
    decreases n
  {
    hide Read, ReadZeros, Pad, Scanned;
    CodeRefers(fields, n);
    ReadFirstFacts(fields, n, b, h);
    ScannedNothing(fields, b, h);
    if n > 0 {
      CodeScans(fields, n - 1, b, h);
      GapScans(Code(fields, n - 1), Pad(fields, n - 1), fields, b, h);
      ScannedNext(Code(fields, n - 1) + Line(Pad(fields, n - 1)), Field(n - 1), fields, b, h);
    }
  }

  lemma ScannedNothing(fields: seq<Type>, b: seq<byte>, h: Context)
    ensures Refers([], fields) && Scanned([], 0, fields, b, h) == Good([], b)
  {}

  /** The emitted decoder reads the struct's canonical form. */
  lemma ProgramScans(fields: seq<Type>, b: seq<byte>, h: Context)
    ensures Refers(Program(fields), fields)
    ensures var r := Scanned(Program(fields), |Program(fields)|, fields, b, h);
      Read(Struct(fields), b, h) == if r.Bad? then Bad(r.error) else Good(Items(r.value), r.rest)
  {
    hide Code, TailPad, Scanned, ReadFirst, Read, ReadZeros;
    CodeScans(fields, |fields|, b, h);
    GapScans(Code(fields, |fields|), TailPad(fields), fields, b, h);
    ReadFacts(Struct(fields), b, h);
  }
}
