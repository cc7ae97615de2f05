/** Inline layout: the size, alignment and field offsets the schema compiler computes. */
module IslLayout {
  import opened Common
  import opened Bits

  datatype Prim =
    | Bool | Int8 | Uint8 | Int16 | Uint16 | Int32 | Uint32 | Float32 | Int64 | Uint64 | Float64

  function Width(p: Prim): (w: nat)
    ensures w in {1, 2, 4, 8}
  {
    match p
    case Bool => 1
    case Int8 => 1
    case Uint8 => 1
    case Int16 => 2
    case Uint16 => 2
    case Int32 => 4
    case Uint32 => 4
    case Float32 => 4
    case Int64 => 8
    case Uint64 => 8
    case Float64 => 8
  }

  /**
   * A resolved field type. A named enum, bits or struct type carries its declaration: a struct may only name
   * structs declared before it, so this unfolding always ends.
   */
  datatype Type =
    | Scalar(prim: Prim)
    | Enum(base: Prim, strict: bool, members: seq<nat>)
    | BitSet(base: Prim, members: seq<nat>)
    | Handle
    | Array(elem: Type, len: nat)
    | Struct(fields: seq<Type>)
    | Text(max: nat)
    | Vector(elem: Type, max: nat)

  /** The frozen subset: what a struct field may hold. */
  predicate Inline(t: Type)
  {
    match t
    case Array(elem, _) => Inline(elem)
    case Struct(fields) => forall k :: 0 <= k < |fields| ==> Inline(fields[k])
    case Text(_) => false
    case Vector(_, _) => false
    case _ => true
  }

  /** What a table field or a union variant may hold. */
  predicate Storable(t: Type)
  {
    match t
    case Text(_) => true
    case Vector(elem, _) => Storable(elem)
    case _ => Inline(t)
  }

  // ----- rounding up -----

  /** `x & !m`. */
  function AndNot(x: nat, m: nat): nat
    decreases x
  {
    if x == 0 then 0 else (if x % 2 == 1 && m % 2 == 0 then 1 else 0) + 2 * AndNot(x / 2, m / 2)
  }

  lemma {:induction false} AndNotBits(x: nat, m: nat, k: nat)
    ensures Bit(AndNot(x, m), k) <==> Bit(x, k) && !Bit(m, k)
    decreases k
  {
    if x == 0 {
      ZeroHasNoBits(k);
    } else {
      var a := AndNot(x, m);
      assert a / 2 == AndNot(x / 2, m / 2);
      if k > 0 {
        AndNotBits(x / 2, m / 2, k - 1);
      }
    }
  }

  lemma {:induction false} ZeroHasNoBits(k: nat)
    ensures !Bit(0, k)
  {
    if k > 0 {
      ZeroHasNoBits(k - 1);
    }
  }

  lemma {:induction false} AndNotNothing(x: nat)
    ensures AndNot(x, 0) == x
    decreases x
  {
    if x > 0 {
      AndNotNothing(x / 2);
    }
  }

  /** Clearing the low `s` bits rounds down to a multiple of `2^s`. */
  lemma {:induction false} ClearLow(x: nat, s: nat)
    ensures Pow2(s) > 0 && AndNot(x, Pow2(s) - 1) == x - x % Pow2(s)
    decreases s
  {
    if s == 0 {
      AndNotNothing(x);
    } else {
      ClearLow(x / 2, s - 1);
      var p := Pow2(s - 1);
      assert (2 * p - 1) / 2 == p - 1 && (2 * p - 1) % 2 == 1;
      HalfRemainder(x, p);
      if x == 0 {
        assert x % Pow2(s) == 0;
      }
    }
  }

  lemma HalfRemainder(x: nat, p: nat)
    requires p > 0
    ensures x % (2 * p) == 2 * ((x / 2) % p) + x % 2
  {
    var h := x / 2;
    var q, r := h / p, h % p;
    assert h == q * p + r;
    assert x == q * (2 * p) + (2 * r + x % 2) by {
      assert q * (2 * p) == 2 * (q * p);
    }
    Remainder(x, q, 2 * p, 2 * r + x % 2);
  }

  lemma Remainder(x: nat, q: nat, m: nat, r: nat)
    requires m > 0 && r < m && x == q * m + r
    ensures x % m == r
  {
    var a, b := x / m, x % m;
    assert x == a * m + b;
    assert (a - q) * m == r - b;
    Scaled(a - q, m);
  }

  lemma Scaled(d: int, m: nat)
    ensures d >= 1 ==> d * m >= m
    ensures d <= -1 ==> d * m <= -(m as int)
  {}

  predicate IsAlignment(a: nat) { a == 1 || a == 2 || a == 4 || a == 8 }

  /** `align_up`. */
  function AlignUp(value: nat, align: nat): nat
    requires align > 0
  {
    AndNot(value + align - 1, align - 1)
  }

  /** The least multiple of the alignment that is not below the value. */
  lemma AlignUpIs(value: nat, align: nat)
    requires IsAlignment(align)
    ensures value <= AlignUp(value, align) < value + align
    ensures AlignUp(value, align) % align == 0
  {
    hide AndNot;
    var x := value + align - 1;
    var s := if align == 1 then 0 else if align == 2 then 1 else if align == 4 then 2 else 3;
    assert Pow2(s) == align by {
      assert Pow2(1) == 2 && Pow2(2) == 4 && Pow2(3) == 8;
    }
    ClearLow(x, s);
    RoundedDown(x, align);
  }

  lemma RoundedDown(x: nat, a: nat)
    requires IsAlignment(a)
    ensures (x - x % a) % a == 0 && x - x % a > x - a
  {
    if a == 1 {
      assert (x - x % 1) % 1 == 0;
    } else if a == 2 {
      assert (x - x % 2) % 2 == 0;
    } else if a == 4 {
      assert (x - x % 4) % 4 == 0;
    } else {
      assert (x - x % 8) % 8 == 0;
    }
  }

  // ----- sizes and offsets -----

  /** Wire alignment. */
  function Align(t: Type): (a: nat)
    ensures IsAlignment(a)
    decreases t
  {
    match t
    case Scalar(p) => Width(p)
    case Enum(base, _, _) => Width(base)
    case BitSet(base, _) => Width(base)
    case Handle => 4
    case Array(elem, _) => Align(elem)
    case Struct(fields) => Widest(fields, |fields|)
    case Text(_) => 4
    case Vector(_, _) => 4
  }

  /** The widest alignment among the first `n` fields. */
  function Widest(fields: seq<Type>, n: nat): (a: nat)
    requires n <= |fields|
    ensures IsAlignment(a)
    decreases fields, n
  {
    if n == 0 then 1 else Max(Widest(fields, n - 1), Align(fields[n - 1]))
  }

  /** Wire size; for a bounded collection, its size at full capacity. */
  function Size(t: Type): nat
    decreases t
  {
    match t
    case Scalar(p) => Width(p)
    case Enum(base, _, _) => Width(base)
    case BitSet(base, _) => Width(base)
    case Handle => 4
    case Array(elem, len) => Size(elem) * len
    case Struct(fields) => AlignUp(Cursor(fields, |fields|), Widest(fields, |fields|))
    case Text(max) => 4 + max
    case Vector(elem, max) => 4 + Size(elem) * max
  }

  /** Where field `k` starts. */
  function Offset(fields: seq<Type>, k: nat): nat
    requires k < |fields|
    decreases fields, k, 1
  {
    AlignUp(Cursor(fields, k), Align(fields[k]))
  }

  /** Where the first `n` fields end. */
  function Cursor(fields: seq<Type>, n: nat): nat
    requires n <= |fields|
    decreases fields, n, 0
  {
    if n == 0 then 0 else Offset(fields, n - 1) + Size(fields[n - 1])
  }

  /** What was true of the first `n` fields stays true when more follow. */
  lemma {:induction false} PrefixLayout(a: seq<Type>, b: seq<Type>, n: nat)
    requires n <= |a| && n <= |b| && a[..n] == b[..n]
    ensures Cursor(a, n) == Cursor(b, n) && Widest(a, n) == Widest(b, n)
    decreases n
  {
    if n > 0 {
      assert a[..n - 1] == a[..n][..n - 1] && b[..n - 1] == b[..n][..n - 1];
      assert a[n - 1] == a[..n][n - 1] && b[n - 1] == b[..n][n - 1];
      PrefixLayout(a, b, n - 1);
    }
  }

  /** Each field starts aligned, at the first place after its predecessor where it can. */
  lemma FieldPlaced(fields: seq<Type>, k: nat)
    requires k < |fields|
    ensures Offset(fields, k) % Align(fields[k]) == 0
    ensures Cursor(fields, k) <= Offset(fields, k) < Cursor(fields, k) + Align(fields[k])
    ensures Offset(fields, k) + Size(fields[k]) == Cursor(fields, k + 1)
  {
    hide AlignUp;
    AlignUpIs(Cursor(fields, k), Align(fields[k]));
  }

  /** Fields come in declaration order and do not overlap. */
  lemma {:induction false} FieldsApart(fields: seq<Type>, i: nat, j: nat)
    requires i < j < |fields|
    ensures Offset(fields, i) + Size(fields[i]) <= Offset(fields, j)
    decreases j
  {
    hide *;
    FieldPlaced(fields, i);
    FieldPlaced(fields, j);
    if i + 1 < j {
      FieldsApart(fields, i, j - 1);
      FieldPlaced(fields, j - 1);
    }
  }

  lemma {:induction false} WidestCovers(fields: seq<Type>, n: nat, k: nat)
    requires k < n <= |fields|
    ensures Widest(fields, n) % Align(fields[k]) == 0
    decreases n
  {
    var a, b := Widest(fields, n - 1), Align(fields[n - 1]);
    if k < n - 1 {
      WidestCovers(fields, n - 1, k);
      Divides(a, b, Align(fields[k]));
    } else {
      Divides(a, b, b);
    }
  }

  /** Among alignments the larger is a multiple of the smaller. */
  lemma Divides(a: nat, b: nat, c: nat)
    requires IsAlignment(a) && IsAlignment(b) && IsAlignment(c)
    requires a % c == 0 || b == c
    ensures Max(a, b) % c == 0
  {}

  /** A struct holds its fields, ends on its own alignment and wastes less than one alignment unit at the end. */
  lemma StructSize(fields: seq<Type>)
    ensures Cursor(fields, |fields|) <= Size(Struct(fields)) < Cursor(fields, |fields|) + Align(Struct(fields))
    ensures Size(Struct(fields)) % Align(Struct(fields)) == 0
    ensures forall k :: 0 <= k < |fields| ==> Align(Struct(fields)) % Align(fields[k]) == 0
  {
    hide AlignUp;
    AlignUpIs(Cursor(fields, |fields|), Widest(fields, |fields|));
    forall k | 0 <= k < |fields|
      ensures Align(Struct(fields)) % Align(fields[k]) == 0
    {
      WidestCovers(fields, |fields|, k);
    }
  }

  /** An inline size is a multiple of its alignment, so every element of an array is aligned when the first is. */
  lemma {:induction false} InlineSizeAligned(t: Type)
    requires Inline(t)
    ensures Size(t) % Align(t) == 0
  {
    match t
    case Array(elem, len) =>
      InlineSizeAligned(elem);
      MultipleOf(Size(elem), len, Align(elem));
    case Struct(fields) => StructSize(fields);
    case _ =>
  }

  lemma MultipleOf(x: nat, n: nat, a: nat)
    requires IsAlignment(a) && x % a == 0
    ensures (x * n) % a == 0
  {
    var q := x / a;
    assert x * n == (q * n) * a + 0 by {
      assert x == q * a;
      assert (q * a) * n == (q * n) * a;
    }
    Remainder(x * n, q * n, a, 0);
  }

  // ----- padding -----

  /** The padding before field `k`. */
  function Pad(fields: seq<Type>, k: nat): nat
    requires k < |fields|
  {
    Less(Offset(fields, k), Cursor(fields, k))
  }

  function TailPad(fields: seq<Type>): nat
  {
    Less(Size(Struct(fields)), Cursor(fields, |fields|))
  }

  /** Padding is what lies between the end of one field and the start of the next. */
  lemma PadIs(fields: seq<Type>, k: nat)
    requires k < |fields|
    ensures Cursor(fields, 0) == 0
    ensures Cursor(fields, k) + Pad(fields, k) == Offset(fields, k)
    ensures Offset(fields, k) + Size(fields[k]) == Cursor(fields, k + 1)
  {
    hide AlignUp, Align, Size;
    FieldPlaced(fields, k);
  }

  lemma TailPadIs(fields: seq<Type>)
    ensures Cursor(fields, 0) == 0
    ensures Cursor(fields, |fields|) + TailPad(fields) == Size(Struct(fields))
  {
    hide AlignUp, Align, Size;
    StructSize(fields);
  }

  // ----- lowering a declaration -----

  datatype Declared = Declared(t: Type, optional: bool)
  datatype Placed = Placed(t: Type, offset: nat, size: nat)
  datatype StructIr = StructIr(fields: seq<Placed>, size: nat, align: nat)

  /** The fields that resolve; the others are diagnosed and skipped. */
  function Resolved(decls: seq<Declared>, n: nat): seq<Type>
    requires n <= |decls|
    decreases n
  {
    if n == 0 then [] else Resolved(decls, n - 1) + if Inline(decls[n - 1].t) then [decls[n - 1].t] else []
  }

  predicate Accepted(decls: seq<Declared>) { forall k :: 0 <= k < |decls| ==> Inline(decls[k].t) && !decls[k].optional }

  lemma {:induction false} AcceptedResolves(decls: seq<Declared>, n: nat)
    requires n <= |decls| && Accepted(decls)
    ensures Resolved(decls, n) == seq(n, i requires 0 <= i < n => decls[i].t)
    decreases n
  {
    if n > 0 {
      AcceptedResolves(decls, n - 1);
    }
  }

  /** The compiled form of a struct with these fields. */
  predicate Describes(ir: StructIr, fields: seq<Type>)
  {
    && |ir.fields| == |fields|
    && ir.size == Size(Struct(fields)) && ir.align == Align(Struct(fields))
    && forall k :: 0 <= k < |fields| ==> ir.fields[k] == Placed(fields[k], Offset(fields, k), Size(fields[k]))
  }

  /** The loop's state after placing these fields. */
  predicate Laid(placed: seq<Placed>, cursor: nat, align: nat, fields: seq<Type>)
  {
    && |placed| == |fields| && cursor == Cursor(fields, |fields|) && align == Widest(fields, |fields|)
    && forall k :: 0 <= k < |fields| ==> placed[k] == Placed(fields[k], Offset(fields, k), Size(fields[k]))
  }

  lemma LaidNext(placed: seq<Placed>, cursor: nat, align: nat, fields: seq<Type>, t: Type, offset: nat)
    requires Laid(placed, cursor, align, fields)
    requires offset == AlignUp(cursor, Align(t))
    ensures Max(align, Align(t)) > 0
    ensures Laid(placed + [Placed(t, offset, Size(t))], offset + Size(t), Max(align, Align(t)), fields + [t])
  {
    hide AlignUp, Align, Size;
    var longer := fields + [t];
    forall k: nat | k <= |fields|
      ensures Cursor(longer, k) == Cursor(fields, k) && Widest(longer, k) == Widest(fields, k)
    {
      PrefixLayout(longer, fields, k);
    }
    var next := placed + [Placed(t, offset, Size(t))];
    forall k | 0 <= k < |longer|
      ensures next[k] == Placed(longer[k], Offset(longer, k), Size(longer[k]))
    {
      if k < |fields| {
        assert next[k] == placed[k] && longer[k] == fields[k];
      }
    }
  }

  lemma AcceptedNext(decls: seq<Declared>, i: nat)
    requires i < |decls|
    ensures Accepted(decls[..i + 1]) <==> Accepted(decls[..i]) && Inline(decls[i].t) && !decls[i].optional
  {
    assert decls[..i + 1] == decls[..i] + [decls[i]];
  }

  lemma ResolvedNext(decls: seq<Declared>, i: nat)
    requires i < |decls|
    ensures Resolved(decls, i + 1) == Resolved(decls, i) + if Inline(decls[i].t) then [decls[i].t] else []
  {}

  /** `lower_struct`. */
  method LowerStruct(decls: seq<Declared>) returns (ir: StructIr, ok: bool)
    ensures ok <==> Accepted(decls)
    ensures Describes(ir, Resolved(decls, |decls|))
    ensures ok ==> Describes(ir, seq(|decls|, i requires 0 <= i < |decls| => decls[i].t))
  {
    var placed: seq<Placed> := [];
    var cursor: nat, align: nat := 0, 1;
    ok := true;
    var i := 0;
    ghost var types: seq<Type> := [];
    while i < |decls|
      invariant 0 <= i <= |decls|
      invariant ok <==> Accepted(decls[..i])
      invariant types == Resolved(decls, i)
      invariant Laid(placed, cursor, align, types)
    {
      AcceptedNext(decls, i);
      ResolvedNext(decls, i);
      if decls[i].optional {
        ok := false;
      }
      var t := decls[i].t;
      if Inline(t) {
        AlignmentIs(Align(t));
        var offset := AlignUp(cursor, Max(Align(t), 1));
        LaidNext(placed, cursor, align, types, t, offset);
        placed := placed + [Placed(t, offset, Size(t))];
        cursor := offset + Size(t);
        align := Max(align, Align(t));
        types := types + [t];
      } else {
        ok := false;
      }
      i := i + 1;
    }
    assert decls[..i] == decls;
    AlignmentIs(align);
    var structAlign := Max(1, Min(align, 8));
    ir := StructIr(placed, AlignUp(cursor, Max(structAlign, 1)), structAlign);
    if ok {
      AcceptedResolves(decls, |decls|);
    }
  }

  lemma AlignmentIs(a: nat)
    requires IsAlignment(a)
    ensures 1 <= a <= 8 && Max(a, 1) == a && Max(1, Min(a, 8)) == a
  {}
}
