/** Tables: a count of present fields, then one envelope per field in ascending ordinal order. */
module IslTable {
  import opened Common
  import opened Endian
  import opened IslLayout
  import opened IslCodec
  import opened IslRoundTrip

  datatype Member = Member(ordinal: nat, t: Type)

  /** The present fields, by ordinal. */
  type Table = map<nat, Value>

  // ----- schemas -----

  predicate Sorted(ms: seq<Member>) { forall i, j :: 0 <= i < j < |ms| ==> ms[i].ordinal < ms[j].ordinal }

  predicate Distinct(ms: seq<Member>) { forall i, j :: 0 <= i < j < |ms| ==> ms[i].ordinal != ms[j].ordinal }

  /** A compiled table: fields in ordinal order, every number the codec writes as 32 bits fitting in them. */
  predicate Compiled(ms: seq<Member>)
  {
    && Sorted(ms) && |ms| < U32
    && forall i :: 0 <= i < |ms| ==> ms[i].ordinal < U32 && Storable(ms[i].t) && Size(ms[i].t) < U32
  }

  /** The match arms of a generated decoder. */
  function Find(ms: seq<Member>, ordinal: nat): (t: Option<Type>)
    ensures t.Some? ==> exists i :: 0 <= i < |ms| && ms[i] == Member(ordinal, t.value)
    ensures t.None? ==> forall i :: 0 <= i < |ms| ==> ms[i].ordinal != ordinal
  {
    if ms == [] then None
    else if ms[|ms| - 1].ordinal == ordinal then Some(ms[|ms| - 1].t)
    else Find(ms[..|ms| - 1], ordinal)
  }

  lemma FindAt(ms: seq<Member>, i: nat)
    requires i < |ms| && (Sorted(ms) || Distinct(ms))
    ensures Find(ms, ms[i].ordinal) == Some(ms[i].t)
  {
    hide Find;
    var t := Find(ms, ms[i].ordinal);
    assert t.Some?;
    var j :| 0 <= j < |ms| && ms[j] == Member(ms[i].ordinal, t.value);
    assert i == j;
  }

  /** `check_ordinals`. */
  method CheckOrdinals(ms: seq<Member>) returns (ok: bool)
    ensures ok <==> Distinct(ms)
  {
    var seen: set<nat> := {};
    var i := 0;
    ok := true;
    while i < |ms|
      invariant 0 <= i <= |ms|
      invariant forall o :: o in seen <==> exists k :: 0 <= k < i && ms[k].ordinal == o
      invariant ok <==> Distinct(ms[..i])
    {
      if ms[i].ordinal in seen {
        ok := false;
      }
      assert ms[..i + 1] == ms[..i] + [ms[i]];
      seen := seen + {ms[i].ordinal};
      i := i + 1;
    }
    assert ms[..i] == ms;
  }

  function Insert(m: Member, ms: seq<Member>): seq<Member>
  {
    if ms == [] then [m]
    else if ms[|ms| - 1].ordinal <= m.ordinal then ms + [m]
    else Insert(m, ms[..|ms| - 1]) + [ms[|ms| - 1]]
  }

  /** `sort_by_key` on the ordinal. */
  function Sort(ms: seq<Member>): seq<Member>
  {
    if ms == [] then [] else Insert(ms[|ms| - 1], Sort(ms[..|ms| - 1]))
  }

  ghost predicate SameMembers(a: seq<Member>, b: seq<Member>) { forall m :: m in a <==> m in b }

  lemma {:induction false} InsertIs(m: Member, ms: seq<Member>)
    requires Sorted(ms) && forall i :: 0 <= i < |ms| ==> ms[i].ordinal != m.ordinal
    ensures Sorted(Insert(m, ms)) && SameMembers(Insert(m, ms), ms + [m])
  {
    if ms != [] {
      var init, last := ms[..|ms| - 1], ms[|ms| - 1];
      assert ms == init + [last];
      if last.ordinal > m.ordinal {
        InsertIs(m, init);
        var r := Insert(m, init);
        forall i | 0 <= i < |r|
          ensures r[i].ordinal < last.ordinal
        {
          assert r[i] in init + [m];
        }
      }
    }
  }

  /** With no ordinal reused, sorting arranges the same members in ascending order. */
  lemma {:induction false} SortIs(ms: seq<Member>)
    requires Distinct(ms)
    ensures Sorted(Sort(ms)) && SameMembers(Sort(ms), ms)
  {
    if ms != [] {
      var init, last := ms[..|ms| - 1], ms[|ms| - 1];
      SortIs(init);
      assert ms == init + [last];
      var s := Sort(init);
      forall i | 0 <= i < |s|
        ensures s[i].ordinal != last.ordinal
      {
        assert s[i] in init;
      }
      InsertIs(last, s);
      forall m
        ensures m in Sort(ms) <==> m in ms
      {
        assert m in Sort(ms) <==> m in s + [last];
        assert m in s <==> m in init;
      }
    }
  }

  lemma {:induction false} SortedUnique(a: seq<Member>, b: seq<Member>)
    requires Sorted(a) && Sorted(b) && SameMembers(a, b)
    ensures a == b
    decreases a
  {
    BothEmpty(a, b);
    if a != [] {
      LastMatches(a, b);
      var x := a[|a| - 1];
      var c, d := a[..|a| - 1], b[..|b| - 1];
      assert a == c + [x] && b == d + [x];
      forall m
        ensures m in c <==> m in d
      {
        assert m in c <==> m in a && m != x;
        assert m in d <==> m in b && m != x;
      }
      SortedUnique(c, d);
    }
  }

  lemma BothEmpty(a: seq<Member>, b: seq<Member>)
    requires SameMembers(a, b)
    ensures a == [] <==> b == []
  {
    if a != [] {
      assert a[0] in b;
    }
    if b != [] {
      assert b[0] in a;
    }
  }

  lemma LastMatches(a: seq<Member>, b: seq<Member>)
    requires Sorted(a) && Sorted(b) && SameMembers(a, b) && a != [] && b != []
    ensures a[|a| - 1] == b[|b| - 1]
  {
    var x, y := a[|a| - 1], b[|b| - 1];
    assert x in b && y in a;
    var i :| 0 <= i < |b| && b[i] == x;
    var j :| 0 <= j < |a| && a[j] == y;
  }

  /** The compiled order does not depend on the order of declaration. */
  lemma DeclarationOrderIrrelevant(a: seq<Member>, b: seq<Member>)
    requires Distinct(a) && Distinct(b) && SameMembers(a, b)
    ensures Sort(a) == Sort(b)
  {
    hide Sort, Sorted, Distinct;
    SortIs(a);
    SortIs(b);
    SortedUnique(Sort(a), Sort(b));
  }

  // ----- the wire form -----

  /** `encoded_len`; for an inline type the constant the compiler bakes in. */
  function EncodedLen(t: Type, v: Value): nat
    decreases t, 0
  {
    match t
    case Text(_) => if v.Str? then 4 + |v.bytes| else 4
    case Vector(elem, _) => if v.Items? then 4 + LenSum(elem, v.items, |v.items|) else 4
    case _ => Size(t)
  }

  function LenSum(elem: Type, items: seq<Value>, n: nat): nat
    requires n <= |items|
    decreases elem, 1, n
  {
    if n == 0 then 0 else LenSum(elem, items, n - 1) + EncodedLen(elem, items[n - 1])
  }

  /** The announced length is the length written. */
  lemma {:induction false} EncodedLenIs(t: Type, v: Value, h: Context)
    requires Storable(t) && Valid(t, v, h)
    ensures EncodedLen(t, v) == |Encode(t, v)|
    decreases t, 0
  {
    hide Valid, Encode, Inline, Storable;
    ValidFacts(t, v, h);
    EncodeFacts(t, v);
    KindFacts(t);
    match t
    case Text(_) =>
    case Vector(elem, _) => LenSumIs(elem, v.items, |v.items|, h);
    case _ => InlineLength(t, v, h);
  }

  lemma {:induction false} LenSumIs(elem: Type, items: seq<Value>, n: nat, h: Context)
    requires Storable(elem) && n <= |items| && AllValid(elem, items, h)
    ensures LenSum(elem, items, n) == |EncodeAll(elem, items, n)|
    decreases elem, 1, n
  {
    hide Valid, Encode, Storable;
    EncodeAllFacts(elem, items, n);
    if n > 0 {
      AllValidFacts(elem, items, n - 1, h);
      LenSumIs(elem, items, n - 1, h);
      EncodedLenIs(elem, items[n - 1], h);
    }
  }

  function Envelope(m: Member, v: Value): seq<byte>
  {
    Le(m.ordinal, 4) + (Le(EncodedLen(m.t, v), 4) + Encode(m.t, v))
  }

  /** What the code for the first `n` fields writes after the count. */
  function Body(ms: seq<Member>, table: Table, n: nat): seq<byte>
    requires n <= |ms|
    decreases n
  {
    if n == 0 then []
    else Body(ms, table, n - 1) +
         if ms[n - 1].ordinal in table then Envelope(ms[n - 1], table[ms[n - 1].ordinal]) else []
  }

  function Count(ms: seq<Member>, table: Table, n: nat): nat
    requires n <= |ms|
    decreases n
  {
    if n == 0 then 0 else Count(ms, table, n - 1) + if ms[n - 1].ordinal in table then 1 else 0
  }

  function EncodeTable(ms: seq<Member>, table: Table): seq<byte>
  {
    Le(Count(ms, table, |ms|), 4) + Body(ms, table, |ms|)
  }

  predicate ValidTable(ms: seq<Member>, table: Table, h: Context)
  {
    forall o :: o in table ==> Find(ms, o).Some? && Valid(Find(ms, o).value, table[o], h)
  }

  /** The fields read so far and the ordinal of the last envelope. */
  datatype Progress = Progress(table: Table, prev: int)

  /** One turn of the decoder's loop. */
  function ReadEnvelope(ms: seq<Member>, p: Progress, b: seq<byte>, h: Context): Parsed<Progress>
  {
    var o := ReadNum(b, 4);
    if o.Bad? then Bad(o.error)
    else if o.value <= p.prev then Bad(NonCanonicalTable)
    else
      var s := ReadNum(o.rest, 4);
      if s.Bad? then Bad(s.error)
      else if |s.rest| < s.value then Bad(ShortBuffer)
      else if Find(ms, o.value).None? then Good(Progress(p.table, o.value), s.rest[s.value..])
      else
        var v := Decode(Find(ms, o.value).value, s.rest[..s.value], h);
        if v.Bad? then Bad(v.error) else Good(Progress(p.table[o.value := v.value], o.value), s.rest[s.value..])
  }

  function ReadEnvelopes(ms: seq<Member>, n: nat, b: seq<byte>, h: Context): Parsed<Progress>
    decreases n
  {
    if n == 0 then Good(Progress(map[], -1), b) else
    var r := ReadEnvelopes(ms, n - 1, b, h);
    if r.Bad? then r else ReadEnvelope(ms, r.value, r.rest, h)
  }

  function ReadTable(ms: seq<Member>, b: seq<byte>, h: Context): Parsed<Table>
  {
    var n := ReadNum(b, 4);
    if n.Bad? then Bad(n.error) else
    var r := ReadEnvelopes(ms, n.value, n.rest, h);
    if r.Bad? then Bad(r.error) else Good(r.value.table, r.rest)
  }

  // ----- one level of each definition -----

  lemma BodyFacts(ms: seq<Member>, table: Table, n: nat)
    requires n <= |ms|
    ensures Body(ms, table, 0) == [] && Count(ms, table, 0) == 0
    ensures n > 0 && ms[n - 1].ordinal in table ==>
      && Body(ms, table, n) == Body(ms, table, n - 1) + Envelope(ms[n - 1], table[ms[n - 1].ordinal])
      && Count(ms, table, n) == Count(ms, table, n - 1) + 1
    ensures n > 0 && ms[n - 1].ordinal !in table ==>
      Body(ms, table, n) == Body(ms, table, n - 1) && Count(ms, table, n) == Count(ms, table, n - 1)
  {
    hide Envelope;
  }

  lemma ReadEnvelopesFacts(ms: seq<Member>, n: nat, b: seq<byte>, h: Context)
    ensures ReadEnvelopes(ms, 0, b, h) == Good(Progress(map[], -1), b)
    ensures n > 0 ==>
      var r := ReadEnvelopes(ms, n - 1, b, h);
      ReadEnvelopes(ms, n, b, h) == if r.Bad? then r else ReadEnvelope(ms, r.value, r.rest, h)
  {
    hide ReadEnvelope;
  }

  lemma ValidTableFacts(ms: seq<Member>, table: Table, o: nat, h: Context)
    requires ValidTable(ms, table, h) && o in table
    ensures Find(ms, o).Some? && Valid(Find(ms, o).value, table[o], h)
  {
    hide Find, Valid;
  }

  lemma CompiledFacts(ms: seq<Member>, i: nat)
    requires Compiled(ms) && i < |ms|
    ensures ms[i].ordinal < U32 && Storable(ms[i].t) && Size(ms[i].t) < U32
    ensures Find(ms, ms[i].ordinal) == Some(ms[i].t)
  {
    hide Find, Storable, Size;
    FindAt(ms, i);
  }

  // ----- reading one envelope -----

  /** A known envelope adds its field. */
  lemma KnownEnvelope(ms: seq<Member>, p: Progress, m: Member, v: Value, rest: seq<byte>, h: Context)
    requires Find(ms, m.ordinal) == Some(m.t) && Valid(m.t, v, h) && Storable(m.t) && Size(m.t) < U32
    requires p.prev < m.ordinal < U32
    ensures ReadEnvelope(ms, p, Envelope(m, v) + rest, h) == Good(Progress(p.table[m.ordinal := v], m.ordinal), rest)
  {
    hide Find, Valid, Encode, Decode, Size, Storable, ReadNum, EncodedLen;
    var body := Encode(m.t, v);
    EnvelopeOpens(m, v, rest, h);
    assert (body + rest)[..|body|] == body && (body + rest)[|body|..] == rest;
    DecodesIff(m.t, body, v, h);
  }

  lemma EnvelopeOpens(m: Member, v: Value, rest: seq<byte>, h: Context)
    requires Valid(m.t, v, h) && Storable(m.t) && Size(m.t) < U32 && m.ordinal < U32
    ensures var o := ReadNum(Envelope(m, v) + rest, 4);
      && o.Good? && o.value == m.ordinal
      && ReadNum(o.rest, 4) == Good(|Encode(m.t, v)|, Encode(m.t, v) + rest)
  {
    hide Valid, Encode, Size, Storable, ReadNum, EncodedLen;
    var body := Encode(m.t, v);
    EncodedLenIs(m.t, v, h);
    LengthBound(m.t, v, h);
    U32Is();
    assert Envelope(m, v) + rest == Le(m.ordinal, 4) + (Le(|body|, 4) + (body + rest));
    NumReads(m.ordinal, 4, Le(|body|, 4) + (body + rest));
    NumReads(|body|, 4, body + rest);
  }

  /** An envelope of an ordinal the schema does not have is skipped whole. */
  lemma UnknownEnvelope(ms: seq<Member>, p: Progress, m: Member, v: Value, rest: seq<byte>, h: Context)
    requires Find(ms, m.ordinal).None? && Valid(m.t, v, Sending) && Storable(m.t) && Size(m.t) < U32
    requires p.prev < m.ordinal < U32
    ensures ReadEnvelope(ms, p, Envelope(m, v) + rest, h) == Good(Progress(p.table, m.ordinal), rest)
  {
    hide Find, Valid, Encode, Decode, Size, Storable, ReadNum, EncodedLen;
    var body := Encode(m.t, v);
    EnvelopeOpens(m, v, rest, Sending);
    assert (body + rest)[..|body|] == body && (body + rest)[|body|..] == rest;
  }
}
