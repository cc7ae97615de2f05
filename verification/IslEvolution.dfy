/** Tables across schema versions, and the canonical form of a table. */
module IslEvolution {
  import opened Common
  import opened Endian
  import opened IslLayout
  import opened IslCodec
  import opened IslRoundTrip
  import opened IslTable

  /** The fields of a table that a schema knows. */
  function Restrict(table: Table, ms: seq<Member>): Table
  {
    map o | o in table && Find(ms, o).Some? :: table[o]
  }

  /** Two versions of a schema: an ordinal keeps its type for ever, so where both have it they agree. */
  ghost predicate Compatible(a: seq<Member>, b: seq<Member>)
  {
    forall o :: Find(a, o).Some? && Find(b, o).Some? ==> Find(a, o) == Find(b, o)
  }

  // ----- a table written under one schema, read under another -----

  /** The fields a reader has gathered from the writer's first `n`. */
  function Part(writer: seq<Member>, reader: seq<Member>, table: Table, n: nat): Table
    requires n <= |writer|
    decreases n
  {
    if n == 0 then map[]
    else
      var o := writer[n - 1].ordinal;
      var before := Part(writer, reader, table, n - 1);
      if o in table && Find(reader, o).Some? then before[o := table[o]] else before
  }

  /** The last ordinal among the writer's first `n` that is present. */
  function Last(writer: seq<Member>, table: Table, n: nat): int
    requires n <= |writer|
    decreases n
  {
    if n == 0 then -1
    else if writer[n - 1].ordinal in table then writer[n - 1].ordinal
    else Last(writer, table, n - 1)
  }

  lemma {:induction false} LastBelow(writer: seq<Member>, table: Table, n: nat, k: nat)
    requires Sorted(writer) && n <= k < |writer|
    ensures Last(writer, table, n) < writer[k].ordinal
    decreases n
  {
    if n > 0 {
      LastBelow(writer, table, n - 1, k);
    }
  }

  lemma {:induction false} PartHolds(writer: seq<Member>, reader: seq<Member>, table: Table, n: nat)
    requires n <= |writer|
    ensures forall o :: o in Part(writer, reader, table, n) <==>
      o in table && Find(reader, o).Some? && exists k :: 0 <= k < n && writer[k].ordinal == o
    ensures forall o :: o in Part(writer, reader, table, n) ==> Part(writer, reader, table, n)[o] == table[o]
    decreases n
  {
    hide Find;
    if n > 0 {
      PartHolds(writer, reader, table, n - 1);
    }
  }

  lemma PartIsRestrict(writer: seq<Member>, reader: seq<Member>, table: Table)
    requires ValidTable(writer, table, Sending)
    ensures Part(writer, reader, table, |writer|) == Restrict(table, reader)
  {
    hide Part, Valid, Find;
    PartHolds(writer, reader, table, |writer|);
    forall o | o in table && Find(reader, o).Some?
      ensures o in Part(writer, reader, table, |writer|)
    {
      assert Find(writer, o).Some?;
      var k :| 0 <= k < |writer| && writer[k] == Member(o, Find(writer, o).value);
      assert writer[k].ordinal == o;
    }
  }

  lemma {:induction false} BodyReads(writer: seq<Member>, reader: seq<Member>, table: Table, n: nat, rest: seq<byte>,
                                     h: Context)
    requires Compiled(writer) && Compatible(writer, reader) && n <= |writer|
    requires ValidTable(writer, table, Sending) && ValidTable(reader, Restrict(table, reader), h)
    ensures ReadEnvelopes(reader, Count(writer, table, n), Body(writer, table, n) + rest, h) ==
            Good(Progress(Part(writer, reader, table, n), Last(writer, table, n)), rest)
    decreases n
  {
    hide *;
    var b := Body(writer, table, n) + rest;
    BodyFacts(writer, table, n);
    PartFacts(writer, reader, table, n);
    ReadEnvelopesFacts(reader, Count(writer, table, n), b, h);
    if n == 0 {
      assert b == rest;
    } else {
      var m := writer[n - 1];
      if m.ordinal !in table {
        BodyReads(writer, reader, table, n - 1, rest, h);
      } else {
        var e := Envelope(m, table[m.ordinal]);
        assert b == Body(writer, table, n - 1) + (e + rest);
        BodyReads(writer, reader, table, n - 1, e + rest, h);
        OneMoreReads(writer, reader, table, n, rest, h);
      }
    }
  }

  lemma PartFacts(writer: seq<Member>, reader: seq<Member>, table: Table, n: nat)
    requires n <= |writer|
    ensures Part(writer, reader, table, 0) == map[] && Last(writer, table, 0) == -1
    ensures n > 0 && writer[n - 1].ordinal in table ==>
      var o := writer[n - 1].ordinal;
      && Last(writer, table, n) == o
      && Part(writer, reader, table, n) ==
         if Find(reader, o).Some? then Part(writer, reader, table, n - 1)[o := table[o]]
         else Part(writer, reader, table, n - 1)
    ensures n > 0 && writer[n - 1].ordinal !in table ==>
      Last(writer, table, n) == Last(writer, table, n - 1) &&
      Part(writer, reader, table, n) == Part(writer, reader, table, n - 1)
  {
    hide Find;
  }

  lemma OneMoreReads(writer: seq<Member>, reader: seq<Member>, table: Table, n: nat, rest: seq<byte>, h: Context)
    requires Compiled(writer) && Compatible(writer, reader) && 0 < n <= |writer| && writer[n - 1].ordinal in table
    requires ValidTable(writer, table, Sending) && ValidTable(reader, Restrict(table, reader), h)
    ensures ReadEnvelope(reader, Progress(Part(writer, reader, table, n - 1), Last(writer, table, n - 1)),
                         Envelope(writer[n - 1], table[writer[n - 1].ordinal]) + rest, h) ==
            Good(Progress(Part(writer, reader, table, n), Last(writer, table, n)), rest)
  {
    var m := writer[n - 1];
    var p := Progress(Part(writer, reader, table, n - 1), Last(writer, table, n - 1));
    PartFacts(writer, reader, table, n);
    CompiledFacts(writer, n - 1);
    CompiledSorted(writer);
    LastBelow(writer, table, n - 1, n - 1);
    ValidTableFacts(writer, table, m.ordinal, Sending);
    if Find(reader, m.ordinal).Some? {
      CompatibleFacts(writer, reader, m.ordinal);
      ValidTableFacts(reader, Restrict(table, reader), m.ordinal, h);
      KnownEnvelope(reader, p, m, table[m.ordinal], rest, h);
    } else {
      UnknownEnvelope(reader, p, m, table[m.ordinal], rest, h);
    }
  }

  lemma CompiledSorted(ms: seq<Member>)
    requires Compiled(ms)
    ensures Sorted(ms) && |ms| < U32
  {}

  lemma CompatibleFacts(a: seq<Member>, b: seq<Member>, o: nat)
    requires Compatible(a, b) && Find(a, o).Some? && Find(b, o).Some?
    ensures Find(a, o) == Find(b, o)
  {
    hide Find;
  }

  lemma {:induction false} CountAtMost(ms: seq<Member>, table: Table, n: nat)
    requires n <= |ms|
    ensures Count(ms, table, n) <= n
    decreases n
  {
    if n > 0 {
      CountAtMost(ms, table, n - 1);
    }
  }

  lemma ReadTableFacts(ms: seq<Member>, b: seq<byte>, h: Context)
    ensures var n := ReadNum(b, 4);
      ReadTable(ms, b, h) ==
      if n.Bad? then Bad(n.error) else
      var r := ReadEnvelopes(ms, n.value, n.rest, h);
      if r.Bad? then Bad(r.error) else Good(r.value.table, r.rest)
  {
    hide ReadNum, ReadEnvelopes;
  }

  lemma EncodeTableFacts(ms: seq<Member>, table: Table)
    ensures EncodeTable(ms, table) == Le(Count(ms, table, |ms|), 4) + Body(ms, table, |ms|)
  {
    hide Count, Body;
  }

  /**
   * A table written under one version and read under another comes back as exactly the fields the reader knows,
   * whichever of the two is newer. Only those fields' handles need the message to carry them.
   */
  lemma ReadAcrossVersions(writer: seq<Member>, reader: seq<Member>, table: Table, rest: seq<byte>, h: Context)
    requires Compiled(writer) && Compatible(writer, reader)
    requires ValidTable(writer, table, Sending) && ValidTable(reader, Restrict(table, reader), h)
    ensures ReadTable(reader, EncodeTable(writer, table) + rest, h) == Good(Restrict(table, reader), rest)
  {
    hide *;
    var n := |writer|;
    EncodeTableFacts(writer, table);
    var b := EncodeTable(writer, table) + rest;
    assert b == Le(Count(writer, table, n), 4) + (Body(writer, table, n) + rest);
    CountAtMost(writer, table, n);
    CompiledSorted(writer);
    U32Is();
    NumReads(Count(writer, table, n), 4, Body(writer, table, n) + rest);
    ReadTableFacts(reader, b, h);
    BodyReads(writer, reader, table, n, rest, h);
    PartIsRestrict(writer, reader, table);
  }

  lemma RestrictNothing(ms: seq<Member>, table: Table, h: Context)
    requires ValidTable(ms, table, h)
    ensures Restrict(table, ms) == table
  {
    hide Find, Valid;
  }

  lemma TableEncodable(ms: seq<Member>, table: Table, h: Context)
    requires ValidTable(ms, table, h)
    ensures ValidTable(ms, table, Sending)
  {
    hide Find, Valid;
    forall o | o in table
      ensures Find(ms, o).Some? && Valid(Find(ms, o).value, table[o], Sending)
    {
      Encodable(Find(ms, o).value, table[o], h);
    }
  }

  /** Under one schema a table decodes to itself. */
  lemma TableRoundTrip(ms: seq<Member>, table: Table, rest: seq<byte>, h: Context)
    requires Compiled(ms) && ValidTable(ms, table, h)
    ensures ReadTable(ms, EncodeTable(ms, table) + rest, h) == Good(table, rest)
  {
    RestrictNothing(ms, table, h);
    TableEncodable(ms, table, h);
    ReadAcrossVersions(ms, ms, table, rest, h);
  }

  // ----- any bytes a newer schema accepts -----

  /** The newer schema has every field of the older one, with its type. */
  ghost predicate Extends(newer: seq<Member>, older: seq<Member>)
  {
    forall o :: Find(older, o).Some? ==> Find(newer, o) == Find(older, o)
  }

  lemma {:induction false} OlderFollows(newer: seq<Member>, older: seq<Member>, n: nat, b: seq<byte>, h: Context)
    requires Extends(newer, older) && ReadEnvelopes(newer, n, b, h).Good?
    ensures var r := ReadEnvelopes(newer, n, b, h);
      ReadEnvelopes(older, n, b, h) == Good(Progress(Restrict(r.value.table, older), r.value.prev), r.rest)
    decreases n
  {
    hide *;
    ReadEnvelopesFacts(newer, n, b, h);
    ReadEnvelopesFacts(older, n, b, h);
    if n == 0 {
      RestrictEmpty(older);
    } else {
      OlderFollows(newer, older, n - 1, b, h);
      var r := ReadEnvelopes(newer, n - 1, b, h);
      OlderFollowsOne(newer, older, r.value, r.rest, h);
    }
  }

  lemma RestrictEmpty(ms: seq<Member>)
    ensures Restrict(map[], ms) == map[]
  {}

  lemma RestrictUpdate(table: Table, ms: seq<Member>, o: nat, v: Value)
    ensures Restrict(table[o := v], ms) == if Find(ms, o).Some? then Restrict(table, ms)[o := v] else Restrict(table, ms)
  {
    hide Find;
  }

  lemma OlderFollowsOne(newer: seq<Member>, older: seq<Member>, p: Progress, b: seq<byte>, h: Context)
    requires Extends(newer, older) && ReadEnvelope(newer, p, b, h).Good?
    ensures var r := ReadEnvelope(newer, p, b, h);
      ReadEnvelope(older, Progress(Restrict(p.table, older), p.prev), b, h) ==
      Good(Progress(Restrict(r.value.table, older), r.value.prev), r.rest)
  {
    hide Find, Decode, ReadNum, Restrict;
    var o := ReadNum(b, 4);
    var s := ReadNum(o.rest, 4);
    if Find(newer, o.value).Some? {
      RestrictUpdate(p.table, older, o.value, Decode(Find(newer, o.value).value, s.rest[..s.value], h).value);
    }
  }

  /** Bytes a newer schema decodes, the older one decodes to the same value cut down to its own fields. */
  lemma OlderReads(newer: seq<Member>, older: seq<Member>, b: seq<byte>, h: Context)
    requires Extends(newer, older) && ReadTable(newer, b, h).Good?
    ensures var r := ReadTable(newer, b, h); ReadTable(older, b, h) == Good(Restrict(r.value, older), r.rest)
  {
    hide *;
    ReadTableFacts(newer, b, h);
    ReadTableFacts(older, b, h);
    var n := ReadNum(b, 4);
    OlderFollows(newer, older, n.value, n.rest, h);
  }

  // ----- the canonical form -----

  /** Adding a field above all others appends its envelope. */
  lemma {:induction false} BodyAppends(ms: seq<Member>, table: Table, k: nat, v: Value, n: nat)
    requires Sorted(ms) && k < |ms| && n <= |ms|
    requires forall o :: o in table ==> o < ms[k].ordinal
    ensures n <= k ==> Body(ms, table[ms[k].ordinal := v], n) == Body(ms, table, n)
    ensures n > k ==> Body(ms, table[ms[k].ordinal := v], n) == Body(ms, table, k) + Envelope(ms[k], v)
    ensures n > k ==> Body(ms, table, n) == Body(ms, table, k)
    decreases n
  {
    hide Body, Envelope;
    BodyFacts(ms, table, n);
    BodyFacts(ms, table[ms[k].ordinal := v], n);
    if n > 0 {
      BodyAppends(ms, table, k, v, n - 1);
    }
  }

  /** The ordinals of the first `n` fields that are present. */
  function Present(ms: seq<Member>, table: Table, n: nat): set<nat>
    requires n <= |ms|
  {
    set k | 0 <= k < n && ms[k].ordinal in table :: ms[k].ordinal
  }

  lemma {:induction false} CountIsPresent(ms: seq<Member>, table: Table, n: nat)
    requires Sorted(ms) && n <= |ms|
    ensures Count(ms, table, n) == |Present(ms, table, n)|
    decreases n
  {
    if n == 0 {
      assert Present(ms, table, 0) == {};
    } else {
      CountIsPresent(ms, table, n - 1);
      var o := ms[n - 1].ordinal;
      assert o !in Present(ms, table, n - 1);
      if o in table {
        assert Present(ms, table, n) == Present(ms, table, n - 1) + {o};
      } else {
        assert Present(ms, table, n) == Present(ms, table, n - 1);
      }
    }
  }

  /** The count written is the number of fields present. */
  lemma CountIsSize(ms: seq<Member>, table: Table, h: Context)
    requires Sorted(ms) && ValidTable(ms, table, h)
    ensures Count(ms, table, |ms|) == |table|
  {
    hide Count, Find, Valid;
    CountIsPresent(ms, table, |ms|);
    forall o | o in table
      ensures o in Present(ms, table, |ms|)
    {
      assert Find(ms, o).Some?;
    }
    assert Present(ms, table, |ms|) == table.Keys;
  }

  /** A known envelope that was accepted is the one the encoder writes. */
  lemma EnvelopeWritten(ms: seq<Member>, p: Progress, b: seq<byte>, h: Context)
    requires Compiled(ms) && ReadEnvelope(ms, p, b, h).Good?
    requires Find(ms, ReadNum(b, 4).value).Some?
    ensures var r, o := ReadEnvelope(ms, p, b, h), ReadNum(b, 4).value;
      && o in r.value.table && r.value == Progress(p.table[o := r.value.table[o]], o) && p.prev < o
      && Valid(Find(ms, o).value, r.value.table[o], h)
      && b == Envelope(Member(o, Find(ms, o).value), r.value.table[o]) + r.rest
  {
    hide Find, Decode, ReadNum, Encode, EncodedLen, Valid, Size, Storable, Sorted;
    var o := ReadNum(b, 4);
    var s := ReadNum(o.rest, 4);
    var t := Find(ms, o.value).value;
    var payload := s.rest[..s.value];
    var v := Decode(t, payload, h);
    DecodeGood(t, payload, h);
    var i :| 0 <= i < |ms| && ms[i] == Member(o.value, t);
    EncodedLenIs(t, v.value, h);
    NumWritten(b, 4);
    NumWritten(o.rest, 4);
    assert s.rest == payload + s.rest[s.value..];
    var e, after := Le(o.value, 4) + (Le(s.value, 4) + payload), s.rest[s.value..];
    assert b == e + after;
  }

  /** The loop's state after `n` envelopes of `b`. */
  ghost predicate Gathered(ms: seq<Member>, n: nat, b: seq<byte>, h: Context, p: Progress, rest: seq<byte>)
  {
    && (forall o :: o in p.table ==> o <= p.prev)
    && ValidTable(ms, p.table, h)
    && |p.table| <= n
    && (|p.table| == n ==> b == Body(ms, p.table, |ms|) + rest)
  }

  lemma {:induction false} EnvelopesGathered(ms: seq<Member>, n: nat, b: seq<byte>, h: Context)
    requires Compiled(ms) && ReadEnvelopes(ms, n, b, h).Good?
    ensures var r := ReadEnvelopes(ms, n, b, h); Gathered(ms, n, b, h, r.value, r.rest)
    decreases n
  {
    hide *;
    ReadEnvelopesFacts(ms, n, b, h);
    if n == 0 {
      NothingGathered(ms, b, h);
    } else {
      EnvelopesGathered(ms, n - 1, b, h);
      var r := ReadEnvelopes(ms, n - 1, b, h);
      OpensWithOrdinal(ms, r.value, r.rest, h);
      if Find(ms, ReadNum(r.rest, 4).value).Some? {
        GatherKnown(ms, n, b, h, r.value, r.rest);
      } else {
        GatherUnknown(ms, n, b, h, r.value, r.rest);
      }
    }
  }

  lemma OpensWithOrdinal(ms: seq<Member>, p: Progress, b: seq<byte>, h: Context)
    ensures ReadEnvelope(ms, p, b, h).Good? ==> ReadNum(b, 4).Good?
  {
    hide ReadNum, Find, Decode;
  }

  lemma NothingGathered(ms: seq<Member>, b: seq<byte>, h: Context)
    ensures Gathered(ms, 0, b, h, Progress(map[], -1), b)
  {
    hide Body;
    EmptyBody(ms, |ms|);
    assert b == [] + b;
  }

  lemma {:induction false} EmptyBody(ms: seq<Member>, n: nat)
    requires n <= |ms|
    ensures Body(ms, map[], n) == []
    decreases n
  {
    hide Body;
    BodyFacts(ms, map[], n);
    if n > 0 {
      EmptyBody(ms, n - 1);
    }
  }

  lemma GatherUnknown(ms: seq<Member>, n: nat, b: seq<byte>, h: Context, p: Progress, rest: seq<byte>)
    requires n > 0 && Gathered(ms, n - 1, b, h, p, rest) && ReadEnvelope(ms, p, rest, h).Good?
    requires ReadNum(rest, 4).Good? && Find(ms, ReadNum(rest, 4).value).None?
    ensures var r := ReadEnvelope(ms, p, rest, h); Gathered(ms, n, b, h, r.value, r.rest)
  {
    hide Find, Decode, ReadNum, ValidTable, Body;
  }

  lemma GatherKnown(ms: seq<Member>, n: nat, b: seq<byte>, h: Context, p: Progress, rest: seq<byte>)
    requires Compiled(ms) && n > 0 && Gathered(ms, n - 1, b, h, p, rest) && ReadEnvelope(ms, p, rest, h).Good?
    requires ReadNum(rest, 4).Good? && Find(ms, ReadNum(rest, 4).value).Some?
    ensures var r := ReadEnvelope(ms, p, rest, h); Gathered(ms, n, b, h, r.value, r.rest)
  {
    hide *;
    var r, o := ReadEnvelope(ms, p, rest, h), ReadNum(rest, 4).value;
    EnvelopeWritten(ms, p, rest, h);
    var t, v := Find(ms, o).value, r.value.table[o];
    assert exists k :: 0 <= k < |ms| && ms[k] == Member(o, t);
    var k :| 0 <= k < |ms| && ms[k] == Member(o, t);
    CompiledSorted(ms);
    GatheredOne(ms, n, b, h, p, k, v, rest, r.rest);
  }

  lemma OneMoreField(ms: seq<Member>, table: Table, o: nat, v: Value, h: Context)
    requires ValidTable(ms, table, h) && o !in table && Find(ms, o).Some? && Valid(Find(ms, o).value, v, h)
    ensures ValidTable(ms, table[o := v], h) && |table[o := v]| == |table| + 1
  {
    hide Find, Valid;
    assert table[o := v].Keys == table.Keys + {o};
  }

  lemma GatheredOne(ms: seq<Member>, n: nat, b: seq<byte>, h: Context, p: Progress, k: nat, v: Value,
                    rest: seq<byte>, after: seq<byte>)
    requires Sorted(ms) && n > 0 && Gathered(ms, n - 1, b, h, p, rest)
    requires k < |ms| && p.prev < ms[k].ordinal && Find(ms, ms[k].ordinal).Some?
    requires Valid(Find(ms, ms[k].ordinal).value, v, h) && rest == Envelope(ms[k], v) + after
    ensures Gathered(ms, n, b, h, Progress(p.table[ms[k].ordinal := v], ms[k].ordinal), after)
  {
    hide Find, Body, Envelope, Valid, Sorted, ValidTable;
    var o := ms[k].ordinal;
    var table := p.table[o := v];
    BodyAppends(ms, p.table, k, v, |ms|);
    OneMoreField(ms, p.table, o, v, h);
    if |table| == n {
      assert b == Body(ms, p.table, |ms|) + (Envelope(ms[k], v) + after);
    }
  }

  /**
   * Bytes that decode to a table are its encoding exactly when the count they open with is the number of fields
   * decoded. A larger count means that many envelopes of unknown ordinals were dropped; a smaller one cannot occur.
   */
  lemma TableCanonicalIff(ms: seq<Member>, b: seq<byte>, h: Context)
    requires Compiled(ms) && ReadTable(ms, b, h).Good?
    ensures var r, n := ReadTable(ms, b, h), ReadNum(b, 4).value;
      && ValidTable(ms, r.value, h) && |r.value| <= n
      && (|r.value| == n <==> b == EncodeTable(ms, r.value) + r.rest)
  {
    hide *;
    ReadTableFacts(ms, b, h);
    var n := ReadNum(b, 4);
    EnvelopesGathered(ms, n.value, n.rest, h);
    var r := ReadEnvelopes(ms, n.value, n.rest, h);
    GatheredFacts(ms, n.value, n.rest, h, r.value, r.rest);
    var table := r.value.table;
    EncodeTableFacts(ms, table);
    CompiledSorted(ms);
    CountIsSize(ms, table, h);
    NumWritten(b, 4);
    CountAtMost(ms, table, |ms|);
    U32Is();
    var body := Body(ms, table, |ms|) + r.rest;
    NumReads(|table|, 4, body);
    assert EncodeTable(ms, table) + r.rest == Le(|table|, 4) + body;
  }

  lemma GatheredFacts(ms: seq<Member>, n: nat, b: seq<byte>, h: Context, p: Progress, rest: seq<byte>)
    requires Gathered(ms, n, b, h, p, rest)
    ensures ValidTable(ms, p.table, h) && |p.table| <= n
    ensures |p.table| == n ==> b == Body(ms, p.table, |ms|) + rest
  {}
}
