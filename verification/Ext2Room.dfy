/** When a directory has room for one more name. */
module Ext2Room {
  import opened Common
  import opened Ext2Layout
  import opened Ext2Map
  import opened Ext2Steps
  import opened Ext2Dir
  import opened Ext2Names
  import opened Ext2Scan

  /** File block `j` is there, and one of its records has this much to spare. */
  ghost predicate Roomy(l: Layout, d: Disk, i: Inode, needed: nat, j: nat)
  {
    !Hole(l, d, i, j) && !NoRoom(BlockBytes(l, d, i, j), needed, l.blockSize)
  }

  /** A block with room comes before any hole, no further than the single indirect block reaches. */
  ghost predicate Linkable(l: Layout, d: Disk, i: Inode, needed: nat)
  {
    exists j: nat :: RoomAt(l, d, i, needed, j)
  }

  ghost predicate RoomAt(l: Layout, d: Disk, i: Inode, needed: nat, j: nat)
  {
    && j < BlocksFor(l, i.size) && j < 12 + l.blockSize / 4
    && Roomy(l, d, i, needed, j) && NoHoles(l, d, i, j)
  }

  ghost predicate NoHoles(l: Layout, d: Disk, i: Inode, n: nat) { forall k: nat :: k < n ==> !Hole(l, d, i, k) }

  /** Every block of the directory is there, and within reach of a write. */
  ghost predicate Whole(l: Layout, d: Disk, i: Inode)
  {
    BlocksFor(l, i.size) <= 12 + l.blockSize / 4 && NoHoles(l, d, i, BlocksFor(l, i.size))
  }

  lemma WholeIs(l: Layout, d: Disk, i: Inode)
    ensures Whole(l, d, i) <==>
            BlocksFor(l, i.size) <= 12 + l.blockSize / 4 && NoHoles(l, d, i, BlocksFor(l, i.size))
  {}

  lemma WholeSame(l: Layout, d: Disk, d': Disk, i: Inode)
    requires SameFile(l, d, d', i, i)
    ensures Whole(l, d', i) <==> Whole(l, d, i)
  {
    hide Hole, BlocksFor;
    assert forall k: nat :: Hole(l, d', i, k) == Hole(l, d, i, k);
  }

  /** The first `n` blocks are all there and all full. */
  ghost predicate Crowded(l: Layout, d: Disk, i: Inode, needed: nat, n: nat)
  {
    forall k: nat :: k < n ==> !Hole(l, d, i, k) && !Roomy(l, d, i, needed, k)
  }

  lemma CrowdedNone(l: Layout, d: Disk, i: Inode, needed: nat)
    ensures Crowded(l, d, i, needed, 0)
  {}

  lemma CrowdedAt(l: Layout, d: Disk, i: Inode, needed: nat, n: nat, k: nat)
    requires Crowded(l, d, i, needed, n) && k < n
    ensures !Hole(l, d, i, k) && !Roomy(l, d, i, needed, k)
  {
    hide Hole, Roomy;
  }

  lemma CrowdedMore(l: Layout, d: Disk, i: Inode, needed: nat, n: nat)
    requires Crowded(l, d, i, needed, n) && !Hole(l, d, i, n) && !Roomy(l, d, i, needed, n)
    ensures Crowded(l, d, i, needed, n + 1)
  {
    hide Hole, Roomy;
  }

  /** What the scan of one block says of it. */
  lemma ScanSays(l: Layout, d: Disk, i: Inode, needed: nat, j: nat, found: Option<nat>)
    requires !Hole(l, d, i, j)
    requires var b := BlockBytes(l, d, i, j);
      match found
      case Some(at) => Chain(b, 0, at) && Sound(b, at) && RecordLen(b, at) - Occupied(b, at) >= needed
      case None => NoRoom(b, needed, |b|)
    ensures Roomy(l, d, i, needed, j) <==> found.Some?
  {
    hide Hole, BlockBytes, Chain, RecordLen, Occupied;
  }

  lemma RoomFound(l: Layout, d: Disk, i: Inode, needed: nat, j: nat)
    requires Crowded(l, d, i, needed, j) && Roomy(l, d, i, needed, j)
    requires j < BlocksFor(l, i.size) && j < 12 + l.blockSize / 4
    ensures Linkable(l, d, i, needed)
  {
    hide Hole, Roomy, BlocksFor;
    assert RoomAt(l, d, i, needed, j);
  }

  /** Past full blocks, a hole, the last block or the reach of the indirect block ends the search. */
  lemma NoneFound(l: Layout, d: Disk, i: Inode, needed: nat, n: nat)
    requires Crowded(l, d, i, needed, n)
    requires Hole(l, d, i, n) || n >= BlocksFor(l, i.size) || n >= 12 + l.blockSize / 4
    ensures !Linkable(l, d, i, needed)
  {
    hide Hole, BlockBytes, NoRoom, BlocksFor;
    forall j: nat
      ensures !RoomAt(l, d, i, needed, j)
    {
      if j < n {
        CrowdedAt(l, d, i, needed, n, j);
      }
    }
  }

  /** A hole is no part of a directory without one. */
  lemma HoleMet(l: Layout, d: Disk, i: Inode, n: nat, total: nat)
    requires NoHoles(l, d, i, total) && n < total
    ensures !Hole(l, d, i, n)
  {
    hide Hole;
  }

  /** Only the directory's own bytes and holes decide. */
  lemma LinkableSame(l: Layout, d: Disk, d': Disk, i: Inode, needed: nat)
    requires SameFile(l, d, d', i, i)
    ensures Linkable(l, d', i, needed) <==> Linkable(l, d, i, needed)
  {
    forall j: nat
      ensures RoomAt(l, d', i, needed, j) <==> RoomAt(l, d, i, needed, j)
    {
      hide BlockBytes, NoRoom, BlocksFor, FileByte, PtrAt, PathOf;
      SameBlockBytes(l, d, d', i, i, j);
      assert Hole(l, d', i, j) == Hole(l, d, i, j);
      assert forall k: nat :: Hole(l, d', i, k) == Hole(l, d, i, k);
    }
  }
}
