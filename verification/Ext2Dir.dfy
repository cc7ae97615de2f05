/**
 Directory blocks: chains of variable-length records that must fill the block exactly. A
 new name goes into the slack of a record, a removed one is absorbed by the record before
 it, and either way the listing changes by that one name.
 */
module Ext2Dir {
  import opened Common
  import opened Ext2Bits
  import opened Ext2Map

  type Name = seq<byte>

  datatype Entry = Entry(inode: u32, kind: Kind, name: Name)

  const MAX_NAME := 255

  function EntryKind(v: byte): Kind { if v == 1 then Regular else if v == 2 then Directory else Other }

  function KindByte(k: Kind): byte { if k == Regular then 1 else if k == Directory then 2 else 0 }

  // ----- records -----

  function RecordLen(b: Block, at: nat): nat { if at + 8 <= |b| then Get16(b, at + 4) else 0 }

  /** A record that advances, stays inside the block and holds its name. */
  predicate Sound(b: Block, at: nat)
  {
    at + 8 <= |b| && 8 <= RecordLen(b, at) <= |b| - at && 8 + b[at + 6] <= RecordLen(b, at)
  }

  function EntryAt(b: Block, at: nat): Entry
    requires Sound(b, at)
  {
    Entry(Get32(b, at), EntryKind(b[at + 7]), b[at + 8..at + 8 + b[at + 6]])
  }

  /** The entry of one record, or nothing for a removed one. */
  function Shown(b: Block, at: nat): seq<Entry>
  {
    if !Sound(b, at) || Get32(b, at) == 0 then [] else [EntryAt(b, at)]
  }

  /** What reading a block from `at` visits, and whether it gets to the end. */
  function Walk(b: Block, at: nat): (seq<Entry>, bool)
    decreases |b| - at
  {
    if at + 8 > |b| then ([], true)
    else if !Sound(b, at) then ([], false)
    else
      var rest := Walk(b, at + RecordLen(b, at));
      (Shown(b, at) + rest.0, rest.1)
  }

  /** From `at` on, aligned records fill the block exactly. */
  predicate Tiled(b: Block, at: nat)
    decreases |b| - at
  {
    at == |b| || (Sound(b, at) && RecordLen(b, at) % 4 == 0 && Tiled(b, at + RecordLen(b, at)))
  }

  /** What a record with a name of this length needs. */
  function Needed(nameLen: nat): nat { (8 + nameLen + 3) / 4 * 4 }

  function Occupied(b: Block, at: nat): nat
  {
    if at + 8 > |b| || Get32(b, at) == 0 then 0 else Needed(b[at + 6])
  }

  // ----- chains -----

  /** Aligned records lead from `from` to `to`. */
  predicate Chain(b: Block, from: nat, to: nat)
    decreases |b| - from
  {
    from == to || (Sound(b, from) && RecordLen(b, from) % 4 == 0 && Chain(b, from + RecordLen(b, from), to))
  }

  /** What those records show. */
  function Between(b: Block, from: nat, to: nat): seq<Entry>
    decreases |b| - from
  {
    if from == to || !Sound(b, from) then [] else Shown(b, from) + Between(b, from + RecordLen(b, from), to)
  }

  predicate SameFrom(b: Block, c: Block, from: nat, to: nat)
  {
    |b| == |c| && forall i :: from <= i < to && i < |b| ==> b[i] == c[i]
  }

  lemma {:induction false} ChainForward(b: Block, from: nat, to: nat)
    requires Chain(b, from, to)
    ensures from <= to
    decreases |b| - from
  {
    if from != to {
      ChainForward(b, from + RecordLen(b, from), to);
    }
  }

  lemma {:induction false} ChainMore(b: Block, from: nat, to: nat)
    requires Chain(b, from, to) && Sound(b, to) && RecordLen(b, to) % 4 == 0
    ensures Chain(b, from, to + RecordLen(b, to))
    ensures Between(b, from, to + RecordLen(b, to)) == Between(b, from, to) + Shown(b, to)
    decreases |b| - from
  {
    ChainForward(b, from, to);
    if from != to {
      ChainMore(b, from + RecordLen(b, from), to);
      ChainForward(b, from + RecordLen(b, from), to);
    } else {
      var next := to + RecordLen(b, to);
      assert Chain(b, next, next);
    }
  }

  /** A walk is the records up to a boundary, then the walk from there. */
  lemma {:induction false} WalkSplits(b: Block, from: nat, to: nat)
    requires Chain(b, from, to)
    ensures Walk(b, from) == (Between(b, from, to) + Walk(b, to).0, Walk(b, to).1)
    decreases |b| - from
  {
    hide *;
    var tail := Walk(b, to).0;
    BetweenFacts(b, from, to);
    if from != to {
      var next := from + RecordLen(b, from);
      WalkSplits(b, next, to);
      assert Shown(b, from) + (Between(b, next, to) + tail) == (Shown(b, from) + Between(b, next, to)) + tail;
    } else {
      assert [] + tail == tail;
    }
  }

  lemma BetweenFacts(b: Block, from: nat, to: nat)
    requires Chain(b, from, to)
    ensures from == to ==> Between(b, from, to) == []
    ensures from != to ==>
      var next := from + RecordLen(b, from);
      && from < next <= |b| && Chain(b, next, to)
      && Between(b, from, to) == Shown(b, from) + Between(b, next, to)
      && Walk(b, from) == (Shown(b, from) + Walk(b, next).0, Walk(b, next).1)
  {
    hide Shown;
  }

  lemma {:induction false} TiledSplits(b: Block, from: nat, to: nat)
    requires Chain(b, from, to)
    ensures Tiled(b, from) <==> Tiled(b, to)
    decreases |b| - from
  {
    if from != to {
      TiledSplits(b, from + RecordLen(b, from), to);
      ChainForward(b, from + RecordLen(b, from), to);
      ChainInside(b, from, to);
    }
  }

  lemma {:induction false} ChainInside(b: Block, from: nat, to: nat)
    requires Chain(b, from, to) && from <= |b|
    ensures to <= |b|
    decreases |b| - from
  {
    if from != to {
      ChainInside(b, from + RecordLen(b, from), to);
    }
  }

  lemma RecordSame(b: Block, c: Block, at: nat, to: nat)
    requires Sound(b, at) && at + RecordLen(b, at) <= to && SameFrom(b, c, at, to)
    ensures Sound(c, at) && RecordLen(c, at) == RecordLen(b, at) && Shown(c, at) == Shown(b, at)
  {
    assert Get16(c, at + 4) == Get16(b, at + 4) && Get32(c, at) == Get32(b, at);
    assert c[at + 8..at + 8 + c[at + 6]] == b[at + 8..at + 8 + b[at + 6]];
  }

  lemma {:induction false} ChainSame(b: Block, c: Block, from: nat, to: nat)
    requires Chain(b, from, to) && SameFrom(b, c, from, to)
    ensures Chain(c, from, to) && Between(c, from, to) == Between(b, from, to)
    decreases |b| - from
  {
    if from == to {
      ChainEmpty(b, to);
      ChainEmpty(c, to);
    } else {
      ChainOpen(b, from, to);
      var next := from + RecordLen(b, from);
      RecordSame(b, c, from, to);
      ChainSame(b, c, next, to);
      ChainStep(c, from, to);
    }
  }

  lemma ChainOpen(b: Block, from: nat, to: nat)
    requires Chain(b, from, to) && from != to
    ensures Sound(b, from) && RecordLen(b, from) % 4 == 0 && 8 <= RecordLen(b, from) <= |b| - from
    ensures Chain(b, from + RecordLen(b, from), to) && from + RecordLen(b, from) <= to
    ensures Between(b, from, to) == Shown(b, from) + Between(b, from + RecordLen(b, from), to)
  {
    ChainForward(b, from + RecordLen(b, from), to);
  }

  lemma {:induction false} TailSame(b: Block, c: Block, from: nat)
    requires SameFrom(b, c, from, |b|)
    ensures Walk(c, from) == Walk(b, from) && Tiled(c, from) == Tiled(b, from)
    decreases |b| - from
  {
    if from + 8 <= |b| {
      assert Get16(c, from + 4) == Get16(b, from + 4);
      if Sound(b, from) {
        RecordSame(b, c, from, |b|);
        TailSame(b, c, from + RecordLen(b, from));
      }
    }
  }

  /** An exact tiling is read to its end. */
  lemma {:induction false} TiledWalks(b: Block, at: nat)
    requires Tiled(b, at)
    ensures Walk(b, at).1
    decreases |b| - at
  {
    if at != |b| {
      TiledWalks(b, at + RecordLen(b, at));
    }
  }

  // ----- adding a name -----

  /** `new` is `old` with `e` put in somewhere. */
  ghost predicate Added(old_: seq<Entry>, new_: seq<Entry>, e: Entry)
  {
    exists k: nat :: AddedAt(old_, new_, e, k)
  }

  predicate AddedAt(old_: seq<Entry>, new_: seq<Entry>, e: Entry, k: nat)
  {
    k <= |old_| && new_ == old_[..k] + [e] + old_[k..]
  }

  /** The bytes of a record written at `at`. */
  function PutRecord(b: Block, at: nat, e: Entry, length: u16): (c: Block)
    requires at + 8 + |e.name| <= |b| && |e.name| <= MAX_NAME && 8 + |e.name| <= length
    ensures SameOutside(b, c, at, 8 + |e.name|)
    ensures Get32(c, at) == e.inode && Get16(c, at + 4) == length
    ensures c[at + 6] == |e.name| && c[at + 7] == KindByte(e.kind)
    ensures c[at + 8..at + 8 + |e.name|] == e.name
  {
    var b1 := Put32(b, at, e.inode);
    var b2 := Put16(b1, at + 4, length);
    Get32Same(b1, b2, at + 4, 2, at);
    var b3 := b2[at + 6 := |e.name|][at + 7 := KindByte(e.kind)];
    Get32Same(b2, b3, at + 6, 2, at);
    Get16Same(b2, b3, at + 6, 2, at + 4);
    var c := Overwritten(b3, at + 8, e.name);
    Get32Same(b3, c, at + 8, |e.name|, at);
    Get16Same(b3, c, at + 8, |e.name|, at + 4);
    c
  }

  lemma PutRecordShown(b: Block, at: nat, e: Entry, length: u16)
    requires at + length <= |b| && |e.name| <= MAX_NAME && 8 + |e.name| <= length && e.inode != 0
    ensures var c := PutRecord(b, at, e, length);
            Sound(c, at) && RecordLen(c, at) == length && Shown(c, at) == [e] && SameOutside(b, c, at, length)
  {}

  /** `link`'s edit: the record at `at` keeps what it uses, and the new one takes the rest. */
  function Inserted(b: Block, at: nat, e: Entry): (c: Block)
    requires Sound(b, at) && |e.name| <= MAX_NAME && RecordLen(b, at) - Occupied(b, at) >= Needed(|e.name|)
    ensures |c| == |b|
  {
    var record, occupied := RecordLen(b, at), Occupied(b, at);
    if Get32(b, at) == 0 then PutRecord(b, at, e, record)
    else PutRecord(Put16(b, at + 4, occupied), at + occupied, e, record - occupied)
  }

  lemma NeededFits(n: nat)
    ensures 8 + n <= Needed(n) < 8 + n + 4 && Needed(n) % 4 == 0
  {}

  /** Reusing a removed record. */
  lemma ReusedRecord(b: Block, at: nat, e: Entry)
    requires Sound(b, at) && RecordLen(b, at) % 4 == 0 && Get32(b, at) == 0
    requires 0 < e.inode && |e.name| <= MAX_NAME && RecordLen(b, at) >= Needed(|e.name|)
    ensures var c, next := Inserted(b, at, e), at + RecordLen(b, at);
            SameFrom(b, c, 0, at) && SameFrom(b, c, next, |b|) && Chain(c, at, next) && Between(c, at, next) == [e]
  {
    NeededFits(|e.name|);
    PutRecordShown(b, at, e, RecordLen(b, at));
    var c, next := Inserted(b, at, e), at + RecordLen(b, at);
    assert Chain(c, next, next) && Between(c, next, next) == [];
  }

  /** Splitting the slack off a record in use. */
  lemma SplitRecord(b: Block, at: nat, e: Entry)
    requires Sound(b, at) && RecordLen(b, at) % 4 == 0 && Get32(b, at) != 0
    requires 0 < e.inode && |e.name| <= MAX_NAME && RecordLen(b, at) - Occupied(b, at) >= Needed(|e.name|)
    ensures var c, next := Inserted(b, at, e), at + RecordLen(b, at);
            && SameFrom(b, c, 0, at) && SameFrom(b, c, next, |b|) && Chain(c, at, next)
            && Between(c, at, next) == Shown(b, at) + [e]
  {
    var record, occupied := RecordLen(b, at), Occupied(b, at);
    var mid, next := at + occupied, at + record;
    var c := Inserted(b, at, e);
    SplitBytes(b, at, e);
    hide *;
    ChainEmpty(c, next);
    ChainStep(c, mid, next);
    ChainStep(c, at, next);
    assert [e] + [] == [e];
  }

  lemma ShrunkRecord(b: Block, at: nat)
    requires Sound(b, at) && Get32(b, at) != 0 && Occupied(b, at) <= RecordLen(b, at)
    ensures Occupied(b, at) < 0x1_0000
    ensures var d := Put16(b, at + 4, Occupied(b, at));
            Sound(d, at) && RecordLen(d, at) == Occupied(b, at) && Shown(d, at) == Shown(b, at) && RecordLen(d, at) % 4 == 0
  {
    NeededFits(b[at + 6]);
    var d := Put16(b, at + 4, Occupied(b, at));
    Get32Same(b, d, at + 4, 2, at);
    assert d[at + 8..at + 8 + d[at + 6]] == b[at + 8..at + 8 + b[at + 6]];
  }

  lemma SplitBytes(b: Block, at: nat, e: Entry)
    requires Sound(b, at) && RecordLen(b, at) % 4 == 0 && Get32(b, at) != 0
    requires 0 < e.inode && |e.name| <= MAX_NAME && RecordLen(b, at) - Occupied(b, at) >= Needed(|e.name|)
    ensures var c, mid, next := Inserted(b, at, e), at + Occupied(b, at), at + RecordLen(b, at);
            && SameFrom(b, c, 0, at) && SameFrom(b, c, next, |b|)
            && Sound(c, at) && at + RecordLen(c, at) == mid && RecordLen(c, at) % 4 == 0 && Shown(c, at) == Shown(b, at)
            && Sound(c, mid) && mid + RecordLen(c, mid) == next && RecordLen(c, mid) % 4 == 0 && Shown(c, mid) == [e]
  {
    hide *;
    var record, occupied := RecordLen(b, at), Occupied(b, at);
    SplitFits(b, at, e);
    ShrunkRecord(b, at);
    var d := Put16(b, at + 4, occupied);
    PutRecordShown(d, at + occupied, e, record - occupied);
    SplitIs(b, at, e);
    var c := PutRecord(d, at + occupied, e, record - occupied);
    SplitOutside(b, d, c, at, occupied, record);
    RecordSame(d, c, at, at + occupied);
  }

  lemma SplitFits(b: Block, at: nat, e: Entry)
    requires Sound(b, at) && RecordLen(b, at) % 4 == 0 && Get32(b, at) != 0
    requires RecordLen(b, at) - Occupied(b, at) >= Needed(|e.name|)
    ensures at + 8 <= |b| && at + RecordLen(b, at) <= |b| && RecordLen(b, at) < 0x1_0000
    ensures 8 <= Occupied(b, at) <= RecordLen(b, at) && 8 + |e.name| <= RecordLen(b, at) - Occupied(b, at)
    ensures (RecordLen(b, at) - Occupied(b, at)) % 4 == 0
  {
    NeededFits(|e.name|);
    NeededFits(b[at + 6]);
  }

  lemma SplitIs(b: Block, at: nat, e: Entry)
    requires Sound(b, at) && Get32(b, at) != 0 && |e.name| <= MAX_NAME
    requires RecordLen(b, at) - Occupied(b, at) >= Needed(|e.name|)
    requires at + 8 <= |b| && at + RecordLen(b, at) <= |b| && Occupied(b, at) <= RecordLen(b, at) < 0x1_0000
    requires 8 + |e.name| <= RecordLen(b, at) - Occupied(b, at)
    ensures Inserted(b, at, e) ==
            PutRecord(Put16(b, at + 4, Occupied(b, at)), at + Occupied(b, at), e, RecordLen(b, at) - Occupied(b, at))
  {}

  lemma SplitOutside(b: Block, d: Block, c: Block, at: nat, occupied: nat, record: nat)
    requires 6 <= occupied <= record
    requires SameOutside(b, d, at + 4, 2) && SameOutside(d, c, at + occupied, record - occupied)
    ensures SameFrom(b, c, 0, at) && SameFrom(b, c, at + record, |b|) && SameFrom(d, c, at, at + occupied)
  {}

  lemma ChainEmpty(b: Block, at: nat)
    ensures Chain(b, at, at) && Between(b, at, at) == []
  {}

  lemma ChainStep(b: Block, from: nat, to: nat)
    requires Sound(b, from) && RecordLen(b, from) % 4 == 0 && Chain(b, from + RecordLen(b, from), to)
    ensures Chain(b, from, to)
    ensures Between(b, from, to) == Shown(b, from) + Between(b, from + RecordLen(b, from), to)
  {
    ChainForward(b, from + RecordLen(b, from), to);
  }

  /** Replacing the records between two boundaries changes the listing there and nowhere else. */
  lemma Respliced(b: Block, c: Block, at: nat, next: nat)
    requires Chain(b, 0, at) && Chain(b, at, next) && Chain(c, at, next)
    requires SameFrom(b, c, 0, at) && SameFrom(b, c, next, |b|)
    ensures Walk(b, 0).0 == Between(b, 0, at) + Between(b, at, next) + Walk(b, next).0
    ensures Walk(c, 0).0 == Between(b, 0, at) + Between(c, at, next) + Walk(b, next).0
    ensures Tiled(c, 0) == Tiled(b, 0) && Walk(c, 0).1 == Walk(b, 0).1
  {
    hide *;
    ChainSame(b, c, 0, at);
    TailSame(b, c, next);
    WalkSplits(b, 0, at);
    WalkSplits(b, at, next);
    WalkSplits(c, 0, at);
    WalkSplits(c, at, next);
    TiledSplits(b, 0, at);
    TiledSplits(b, at, next);
    TiledSplits(c, 0, at);
    TiledSplits(c, at, next);
    assert Between(b, 0, at) + Between(b, at, next) + Walk(b, next).0 == Between(b, 0, at) + (Between(b, at, next) + Walk(b, next).0);
    assert Between(b, 0, at) + Between(c, at, next) + Walk(b, next).0 == Between(b, 0, at) + (Between(c, at, next) + Walk(b, next).0);
  }

  /** A name put into a record's slack: still an exact tiling, one entry more. */
  lemma InsertedLists(b: Block, at: nat, e: Entry)
    requires Chain(b, 0, at) && Tiled(b, at) && Sound(b, at) && RecordLen(b, at) - Occupied(b, at) >= Needed(|e.name|)
    requires 0 < e.inode && |e.name| <= MAX_NAME
    ensures Tiled(Inserted(b, at, e), 0) && Added(Walk(b, 0).0, Walk(Inserted(b, at, e), 0).0, e)
  {
    hide *;
    var c, next := Inserted(b, at, e), at + RecordLen(b, at);
    TiledRecord(b, at);
    InsertedChain(b, at, e);
    TiledSplits(b, 0, at);
    Respliced(b, c, at, next);
    var gap := Between(b, at, next);
    assert Between(b, 0, at) + (gap + [e]) + Walk(b, next).0 == Between(b, 0, at) + gap + [e] + Walk(b, next).0;
    AddedBetween(Walk(b, 0).0, Walk(c, 0).0, e, Between(b, 0, at) + gap, Walk(b, next).0);
  }

  lemma TiledRecord(b: Block, at: nat)
    requires Tiled(b, at) && Sound(b, at)
    ensures RecordLen(b, at) % 4 == 0 && Chain(b, at, at + RecordLen(b, at))
    ensures Between(b, at, at + RecordLen(b, at)) == Shown(b, at)
  {
    ChainEmpty(b, at + RecordLen(b, at));
    ChainStep(b, at, at + RecordLen(b, at));
  }

  lemma InsertedChain(b: Block, at: nat, e: Entry)
    requires Sound(b, at) && RecordLen(b, at) % 4 == 0 && RecordLen(b, at) - Occupied(b, at) >= Needed(|e.name|)
    requires 0 < e.inode && |e.name| <= MAX_NAME
    ensures var c, next := Inserted(b, at, e), at + RecordLen(b, at);
            && SameFrom(b, c, 0, at) && SameFrom(b, c, next, |b|) && Chain(c, at, next)
            && Between(c, at, next) == Shown(b, at) + [e]
  {
    if Get32(b, at) == 0 {
      ReusedRecord(b, at, e);
      assert Shown(b, at) + [e] == [e];
    } else {
      SplitRecord(b, at, e);
    }
  }

  lemma AddedBetween(old_: seq<Entry>, new_: seq<Entry>, e: Entry, before: seq<Entry>, after: seq<Entry>)
    requires old_ == before + after && new_ == before + [e] + after
    ensures Added(old_, new_, e)
  {
    assert AddedAt(old_, new_, e, |before|);
  }

  // ----- removing a name -----

  predicate RemovedAt(old_: seq<Entry>, new_: seq<Entry>, k: nat)
  {
    k < |old_| && new_ == old_[..k] + old_[k + 1..]
  }

  /** `unlink`'s edit: the record before absorbs the removed one, or the first record loses its inode. */
  function Absorbed(b: Block, at: nat, previous: Option<nat>): (c: Block)
    requires Sound(b, at) && (previous.Some? ==> previous.value + 8 <= |b| && RecordLen(b, previous.value) + RecordLen(b, at) < 0x1_0000)
    ensures |c| == |b|
  {
    if previous.None? then Put32(b, at, 0)
    else Put16(b, previous.value + 4, RecordLen(b, previous.value) + RecordLen(b, at))
  }

  lemma BlankedLists(b: Block, at: nat)
    requires Chain(b, 0, at) && Tiled(b, at) && Sound(b, at) && Get32(b, at) != 0
    ensures var c := Absorbed(b, at, None);
            Tiled(c, 0) && RemovedAt(Walk(b, 0).0, Walk(c, 0).0, |Between(b, 0, at)|)
    ensures Walk(b, 0).0[|Between(b, 0, at)|] == EntryAt(b, at)
  {
    hide *;
    var c, next := Absorbed(b, at, None), at + RecordLen(b, at);
    TiledRecord(b, at);
    BlankedRecord(b, at);
    SoundFits(b, at);
    ShownIs(b, at);
    TiledSplits(b, 0, at);
    Respliced(b, c, at, next);
    RemovedBetween(Walk(b, 0).0, Walk(c, 0).0, Between(b, 0, at), EntryAt(b, at), Walk(b, next).0);
  }

  lemma SoundFits(b: Block, at: nat)
    requires Sound(b, at)
    ensures at + 8 <= |b|
  {}

  lemma BlankedRecord(b: Block, at: nat)
    requires Sound(b, at) && RecordLen(b, at) % 4 == 0
    ensures var c, next := Absorbed(b, at, None), at + RecordLen(b, at);
            && SameFrom(b, c, 0, at) && SameFrom(b, c, next, |b|) && Chain(c, at, next) && Between(c, at, next) == []
  {
    var c, next := Put32(b, at, 0), at + RecordLen(b, at);
    Get16Same(b, c, at, 4, at + 4);
    ChainEmpty(c, next);
    ChainStep(c, at, next);
  }

  lemma RemovedBetween(old_: seq<Entry>, new_: seq<Entry>, before: seq<Entry>, e: Entry, after: seq<Entry>)
    requires old_ == before + [e] + after && new_ == before + [] + after
    ensures RemovedAt(old_, new_, |before|) && old_[|before|] == e
  {}

  lemma AbsorbedLists(b: Block, at: nat, before: nat)
    requires Chain(b, 0, before) && Sound(b, before) && RecordLen(b, before) % 4 == 0 && before + RecordLen(b, before) == at
    requires Tiled(b, at) && Sound(b, at) && Get32(b, at) != 0 && |b| < 0x1_0000
    ensures var c := Absorbed(b, at, Some(before));
            Tiled(c, 0) && RemovedAt(Walk(b, 0).0, Walk(c, 0).0, |Between(b, 0, before) + Shown(b, before)|)
    ensures Walk(b, 0).0[|Between(b, 0, before) + Shown(b, before)|] == EntryAt(b, at)
  {
    hide *;
    var next := at + RecordLen(b, at);
    AbsorbFits(b, at, before);
    var c := Absorbed(b, at, Some(before));
    TiledRecord(b, at);
    AbsorbedRecord(b, at, before);
    ChainStep(b, before, next);
    assert Shown(b, at) == [EntryAt(b, at)] by { ShownIs(b, at); }
    TiledAgain(b, before, at);
    TiledSplits(b, 0, before);
    Respliced(b, c, before, next);
    var old_, new_, a, tail := Walk(b, 0).0, Walk(c, 0).0, Between(b, 0, before), Walk(b, next).0;
    assert old_ == (a + Shown(b, before)) + [EntryAt(b, at)] + tail;
    assert new_ == (a + Shown(b, before)) + [] + tail;
    RemovedBetween(old_, new_, a + Shown(b, before), EntryAt(b, at), tail);
  }

  lemma AbsorbFits(b: Block, at: nat, before: nat)
    requires Sound(b, before) && before + RecordLen(b, before) == at && Sound(b, at) && |b| < 0x1_0000
    ensures before + 8 <= |b| && at + 4 <= |b| && RecordLen(b, before) + RecordLen(b, at) < 0x1_0000
  {}

  lemma ShownIs(b: Block, at: nat)
    requires Sound(b, at) && Get32(b, at) != 0
    ensures Shown(b, at) == [EntryAt(b, at)]
  {}

  lemma TiledAgain(b: Block, before: nat, at: nat)
    requires Sound(b, before) && RecordLen(b, before) % 4 == 0 && before + RecordLen(b, before) == at && Tiled(b, at)
    ensures Tiled(b, before)
  {}

  lemma AbsorbedRecord(b: Block, at: nat, before: nat)
    requires Sound(b, before) && RecordLen(b, before) % 4 == 0 && before + RecordLen(b, before) == at
    requires Sound(b, at) && RecordLen(b, at) % 4 == 0 && |b| < 0x1_0000
    ensures var c, next := Absorbed(b, at, Some(before)), at + RecordLen(b, at);
            && SameFrom(b, c, 0, before) && SameFrom(b, c, next, |b|) && Chain(c, before, next)
            && Between(c, before, next) == Shown(b, before)
  {
    hide *;
    AbsorbedShown(b, at, before);
    var c, next := Absorbed(b, at, Some(before)), at + RecordLen(b, at);
    ChainEmpty(c, next);
    ChainStep(c, before, next);
  }

  lemma AbsorbedShown(b: Block, at: nat, before: nat)
    requires Sound(b, before) && before + RecordLen(b, before) == at && Sound(b, at) && |b| < 0x1_0000
    ensures RecordLen(b, before) + RecordLen(b, at) < 0x1_0000
    ensures var c, next := Absorbed(b, at, Some(before)), at + RecordLen(b, at);
            && SameFrom(b, c, 0, before) && SameFrom(b, c, next, |b|)
            && Sound(c, before) && before + RecordLen(c, before) == next && Shown(c, before) == Shown(b, before)
  {
    var c := Absorbed(b, at, Some(before));
    Get32Same(b, c, before + 4, 2, before);
    assert c[before + 8..before + 8 + c[before + 6]] == b[before + 8..before + 8 + b[before + 6]];
  }

  // ----- names -----

  /** The inode the first entry of that name points at. */
  function Find(es: seq<Entry>, name: Name): Option<nat>
  {
    if es == [] then None else if es[0].name == name then Some(es[0].inode) else Find(es[1..], name)
  }

  ghost predicate Distinct(es: seq<Entry>)
  {
    forall i, j :: 0 <= i < j < |es| ==> es[i].name != es[j].name
  }

  /** The directory as a map from names to inodes. */
  function NameMap(es: seq<Entry>): map<Name, nat>
  {
    if es == [] then map[] else NameMap(es[1..])[es[0].name := es[0].inode]
  }

  lemma {:induction false} FindInMap(es: seq<Entry>, name: Name)
    ensures Find(es, name) == if name in NameMap(es) then Some(NameMap(es)[name]) else None
  {
    if es != [] {
      FindInMap(es[1..], name);
    }
  }

  lemma {:induction false} NameMapKeys(es: seq<Entry>, name: Name)
    ensures name in NameMap(es) <==> exists i :: 0 <= i < |es| && es[i].name == name
  {
    if es != [] {
      NameMapKeys(es[1..], name);
      if name in NameMap(es[1..]) {
        var i :| 0 <= i < |es[1..]| && es[1..][i].name == name;
        assert es[i + 1].name == name;
      }
      if name in NameMap(es) && es[0].name == name {
        assert es[0].name == name;
      }
    }
  }

  /** With distinct names, an entry's name maps to its own inode wherever the entry is. */
  lemma {:induction false} NameMapAt(es: seq<Entry>, i: nat)
    requires Distinct(es) && i < |es|
    ensures es[i].name in NameMap(es) && NameMap(es)[es[i].name] == es[i].inode
  {
    if i > 0 {
      NameMapAt(es[1..], i - 1);
      assert es[1..][i - 1] == es[i] && es[0].name != es[i].name;
    }
  }

  /** Listing one more entry, under a name not there yet, adds exactly that name to the map. */
  lemma AddedMap(old_: seq<Entry>, new_: seq<Entry>, e: Entry)
    requires Distinct(old_) && Added(old_, new_, e) && e.name !in NameMap(old_)
    ensures Distinct(new_) && NameMap(new_) == NameMap(old_)[e.name := e.inode]
  {
    var k: nat :| AddedAt(old_, new_, e, k);
    AddedDistinct(old_, new_, e, k);
    forall name ensures name in NameMap(new_) <==> name in NameMap(old_)[e.name := e.inode] {
      AddedKey(old_, new_, e, k, name);
    }
    forall name | name in NameMap(new_) ensures NameMap(new_)[name] == NameMap(old_)[e.name := e.inode][name] {
      NameMapKeys(new_, name);
      var i :| 0 <= i < |new_| && new_[i].name == name;
      NameMapAt(new_, i);
      if i != k {
        var j := if i < k then i else i - 1;
        assert new_[i] == old_[j];
        NameMapAt(old_, j);
      }
    }
  }

  lemma AddedDistinct(old_: seq<Entry>, new_: seq<Entry>, e: Entry, k: nat)
    requires Distinct(old_) && AddedAt(old_, new_, e, k) && e.name !in NameMap(old_)
    ensures Distinct(new_)
  {
    forall i, j | 0 <= i < j < |new_| ensures new_[i].name != new_[j].name {
      NameMapKeys(old_, e.name);
      var i' := if i < k then i else i - 1;
      var j' := if j < k then j else j - 1;
      assert i != k ==> new_[i] == old_[i'];
      assert j != k ==> new_[j] == old_[j'];
    }
  }

  lemma AddedKey(old_: seq<Entry>, new_: seq<Entry>, e: Entry, k: nat, name: Name)
    requires AddedAt(old_, new_, e, k)
    ensures name in NameMap(new_) <==> name in NameMap(old_) || name == e.name
  {
    NameMapKeys(new_, name);
    NameMapKeys(old_, name);
    assert new_[k] == e;
    if name in NameMap(old_) {
      var j :| 0 <= j < |old_| && old_[j].name == name;
      assert new_[if j < k then j else j + 1] == old_[j];
    }
    if name in NameMap(new_) && name != e.name {
      var i :| 0 <= i < |new_| && new_[i].name == name;
      assert old_[if i < k then i else i - 1] == new_[i];
    }
  }

  /** Dropping one entry takes exactly its name out of the map. */
  lemma RemovedMap(old_: seq<Entry>, new_: seq<Entry>, k: nat)
    requires Distinct(old_) && RemovedAt(old_, new_, k)
    ensures Distinct(new_) && NameMap(new_) == NameMap(old_) - {old_[k].name}
  {
    RemovedDistinct(old_, new_, k);
    forall name ensures name in NameMap(new_) <==> name in NameMap(old_) && name != old_[k].name {
      RemovedKey(old_, new_, k, name);
    }
    forall name | name in NameMap(new_) ensures NameMap(new_)[name] == NameMap(old_)[name] {
      RemovedValue(old_, new_, k, name);
    }
  }

  lemma RemovedValue(old_: seq<Entry>, new_: seq<Entry>, k: nat, name: Name)
    requires Distinct(old_) && Distinct(new_) && RemovedAt(old_, new_, k) && name in NameMap(new_)
    ensures name in NameMap(old_) && NameMap(new_)[name] == NameMap(old_)[name]
  {
    NameMapKeys(new_, name);
    var i :| 0 <= i < |new_| && new_[i].name == name;
    NameMapAt(new_, i);
    var j := if i < k then i else i + 1;
    assert new_[i] == old_[j];
    NameMapAt(old_, j);
  }

  lemma RemovedDistinct(old_: seq<Entry>, new_: seq<Entry>, k: nat)
    requires Distinct(old_) && RemovedAt(old_, new_, k)
    ensures Distinct(new_)
  {
    forall i, j | 0 <= i < j < |new_| ensures new_[i].name != new_[j].name {
      assert new_[i] == old_[if i < k then i else i + 1] && new_[j] == old_[if j < k then j else j + 1];
    }
  }

  lemma RemovedKey(old_: seq<Entry>, new_: seq<Entry>, k: nat, name: Name)
    requires Distinct(old_) && RemovedAt(old_, new_, k)
    ensures name in NameMap(new_) <==> name in NameMap(old_) && name != old_[k].name
  {
    hide NameMap;
    NameMapKeys(new_, name);
    NameMapKeys(old_, name);
    if name in NameMap(old_) && name != old_[k].name {
      var j :| 0 <= j < |old_| && old_[j].name == name;
      assert new_[if j < k then j else j - 1] == old_[j];
    }
    if name in NameMap(new_) {
      var i :| 0 <= i < |new_| && new_[i].name == name;
      assert old_[if i < k then i else i + 1] == new_[i];
    }
  }
}
