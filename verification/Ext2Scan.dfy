/** The loops that read a directory block record by record. */
module Ext2Scan {
  import opened Common
  import opened Ext2Bits
  import opened Ext2Dir
  import opened Ext2Error

  lemma {:induction false} FindAppend(a: seq<Entry>, b: seq<Entry>, name: Name)
    ensures Find(a + b, name) == if Find(a, name).Some? then Find(a, name) else Find(b, name)
  {
    if a == [] {
      assert a + b == b;
    } else {
      assert (a + b)[1..] == a[1..] + b;
      FindAppend(a[1..], b, name);
    }
  }

  predicate Matches(b: Block, at: nat, name: Name) { Sound(b, at) && Get32(b, at) != 0 && EntryAt(b, at).name == name }

  /** What one record adds to a search. */
  lemma FindStep(b: Block, at: nat, name: Name)
    requires at + 8 <= |b|
    ensures RecordLen(b, at) == Get16(b, at + 4)
    ensures Sound(b, at) <==> 8 <= RecordLen(b, at) && at + RecordLen(b, at) <= |b| && 8 + b[at + 6] as int <= RecordLen(b, at)
    ensures !Sound(b, at) ==> Walk(b, at).0 == [] && !Walk(b, at).1 && Find(Walk(b, at).0, name).None?
    ensures Sound(b, at) ==>
              var next := Walk(b, at + RecordLen(b, at));
              && at + 8 + b[at + 6] as int <= |b|
              && (Matches(b, at, name) <==> Get32(b, at) != 0 && b[at + 8..at + 8 + b[at + 6] as int] == name)
              && Walk(b, at).1 == next.1
              && Find(Walk(b, at).0, name) == if Matches(b, at, name) then Some(Get32(b, at)) else Find(next.0, name)
  {
    if Sound(b, at) {
      FindAppend(Shown(b, at), Walk(b, at + RecordLen(b, at)).0, name);
    }
  }

  lemma WalkEnd(b: Block, at: nat, name: Name)
    requires at + 8 > |b|
    ensures Walk(b, at).0 == [] && Walk(b, at).1 && Find(Walk(b, at).0, name).None?
  {}

  /** One entry of `for_each_entry` as `lookup_in` uses it: what is found in one block. */
  method VisitBlock(b: Block, name: Name) returns (r: Result<Option<nat>>)
    ensures Find(Walk(b, 0).0, name).Some? ==> r == Ok(Find(Walk(b, 0).0, name))
    ensures Find(Walk(b, 0).0, name).None? ==> r == if Walk(b, 0).1 then Ok(None) else Err(Corrupt)
  {
    hide *;
    var at := 0;
    while at + 8 <= |b|
      invariant Find(Walk(b, 0).0, name) == Find(Walk(b, at).0, name) && Walk(b, 0).1 == Walk(b, at).1
      decreases |b| - at
    {
      FindStep(b, at, name);
      var record: nat, nameLen: nat := Get16(b, at + 4), b[at + 6] as int;
      if record < 8 || at + record > |b| || 8 + nameLen > record {
        return Err(Corrupt);
      }
      if Get32(b, at) != 0 && b[at + 8..at + 8 + nameLen] == name {
        return Ok(Some(Get32(b, at)));
      }
      at := at + record;
    }
    WalkEnd(b, at, name);
    return Ok(None);
  }

  /** Two boundaries of one chain are in order along it. */
  lemma {:induction false} ChainOrder(b: Block, from: nat, p: nat, q: nat)
    requires Chain(b, from, p) && Chain(b, from, q) && p <= q
    ensures Chain(b, p, q)
    decreases |b| - from
  {
    if from != p {
      ChainForward(b, from + RecordLen(b, from), p);
      ChainOrder(b, from + RecordLen(b, from), p, q);
    }
  }

  lemma NextBoundary(b: Block, at: nat, p: nat)
    requires Chain(b, 0, at) && Chain(b, 0, p) && at < p
    ensures Sound(b, at) && at + RecordLen(b, at) <= p
  {
    ChainOrder(b, 0, at, p);
    ChainForward(b, at + RecordLen(b, at), p);
  }

  /** No record that starts before `before` has `needed` bytes to spare. */
  ghost predicate NoRoom(b: Block, needed: nat, before: nat)
  {
    forall p: nat :: p < before && Chain(b, 0, p) && Sound(b, p) ==> RecordLen(b, p) - Occupied(b, p) < needed
  }

  /** The first record with room for another of size `needed`. */
  method RoomIn(b: Block, needed: nat) returns (r: Result<Option<nat>>)
    ensures r.Err? ==> !Tiled(b, 0)
    ensures |b| >= 8 && RecordLen(b, 0) < 8 ==> r.Err?
    ensures Tiled(b, 0) && r.Ok? && r.value.Some? ==>
              var at := r.value.value;
              && Chain(b, 0, at) && Tiled(b, at) && Sound(b, at) && RecordLen(b, at) - Occupied(b, at) >= needed
              && NoRoom(b, needed, at)
    ensures Tiled(b, 0) && r.Ok? && r.value.None? ==> NoRoom(b, needed, |b|)
  {
    var at := 0;
    assert Chain(b, 0, 0);
    while at + 8 <= |b|
      invariant Tiled(b, 0) ==> Chain(b, 0, at) && Tiled(b, at) && NoRoom(b, needed, at)
      invariant at > 0 ==> RecordLen(b, 0) >= 8
      decreases |b| - at
    {
      var record := RecordLen(b, at);
      if record < 8 || at + record > |b| {
        return Err(Corrupt);
      }
      if record - Occupied(b, at) >= needed {
        return Ok(Some(at));
      }
      if Tiled(b, 0) {
        ChainMore(b, 0, at);
        forall p: nat | p < at + record && Chain(b, 0, p) && Sound(b, p)
          ensures RecordLen(b, p) - Occupied(b, p) < needed
        {
          if p > at {
            NextBoundary(b, at, p);
          }
        }
      }
      at := at + record;
    }
    return Ok(None);
  }

  /** Where a name's record is, and which record comes before it. */
  ghost predicate FoundAt(b: Block, name: Name, at: nat, previous: Option<nat>)
  {
    && Chain(b, 0, at) && Tiled(b, at) && Sound(b, at) && Get32(b, at) != 0 && EntryAt(b, at).name == name
    && (previous.None? ==> at == 0)
    && (previous.Some? ==> Follows(b, previous.value, at))
  }

  predicate Follows(b: Block, before: nat, at: nat)
  {
    Chain(b, 0, before) && Sound(b, before) && RecordLen(b, before) % 4 == 0 && before + RecordLen(b, before) == at
  }

  lemma TiledStep(b: Block, at: nat)
    requires Chain(b, 0, at) && Tiled(b, at) && at + 8 <= |b|
    ensures Sound(b, at) && Follows(b, at, at + RecordLen(b, at))
    ensures Chain(b, 0, at + RecordLen(b, at)) && Tiled(b, at + RecordLen(b, at))
  {
    ChainMore(b, 0, at);
  }

  lemma FoundAtIs(b: Block, name: Name, at: nat, previous: Option<nat>)
    requires Chain(b, 0, at) && Tiled(b, at) && Matches(b, at, name)
    requires (previous.None? ==> at == 0) && (previous.Some? ==> Follows(b, previous.value, at))
    ensures FoundAt(b, name, at, previous)
  {}

  /** Looks for a name's record; a block that is no exact tiling may be reported corrupt. */
  method FindName(b: Block, name: Name) returns (r: Result<Option<(nat, Option<nat>)>>)
    ensures Tiled(b, 0) ==> r.Ok?
    ensures r.Ok? && r.value.Some? ==> r.value.value.0 + 8 <= |b| && Find(Walk(b, 0).0, name) == Some(Get32(b, r.value.value.0))
    ensures Tiled(b, 0) && r.Ok? && r.value.Some? ==> FoundAt(b, name, r.value.value.0, r.value.value.1)
    ensures r.Ok? && r.value.None? ==> Find(Walk(b, 0).0, name).None?
  {
    hide *;
    var at: nat, previous: Option<nat> := 0, None;
    ChainEmpty(b, 0);
    while at + 8 <= |b|
      invariant Tiled(b, 0) ==> Chain(b, 0, at) && Tiled(b, at)
      invariant Find(Walk(b, 0).0, name) == Find(Walk(b, at).0, name)
      invariant Tiled(b, 0) && previous.None? ==> at == 0
      invariant Tiled(b, 0) && previous.Some? ==> Follows(b, previous.value, at)
      decreases |b| - at
    {
      FindStep(b, at, name);
      if Tiled(b, 0) {
        TiledStep(b, at);
      }
      var record: nat, nameLen: nat := Get16(b, at + 4), b[at + 6] as int;
      if record < 8 || at + record > |b| || 8 + nameLen > record {
        return Err(Corrupt);
      }
      if Get32(b, at) != 0 && b[at + 8..at + 8 + nameLen] == name {
        if Tiled(b, 0) {
          FoundAtIs(b, name, at, previous);
        }
        return Ok(Some((at, previous)));
      }
      previous := Some(at);
      at := at + record;
    }
    WalkEnd(b, at, name);
    return Ok(None);
  }
}
