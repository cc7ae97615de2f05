/** A volume as formatting leaves it, with an empty root directory: the smallest case of everything a mount assumes. */
module Ext2Fresh {
  import opened Common
  import opened Bits
  import opened Ext2Bits
  import opened Ext2Layout
  import opened Ext2Alloc
  import opened Ext2Map
  import opened Ext2Volume
  import opened Ext2Inode
  import opened Ext2Steps
  import opened Ext2Dir
  import opened Ext2Names
  import opened Ext2Links
  import opened Ext2Inodes

  const ROLES: map<nat, Role> :=
    map[1 := Super, 2 := Desc(0), 3 := Bitmap(Blocks, 0), 4 := Bitmap(Inodes, 0), 5 := Table(0, 0), 6 := Table(0, 1)]

  /** One group of eleven blocks and sixteen inodes: metadata in blocks 1 to 6, data in 7 to 11. */
  const FRESH := Layout(1024, 1, 12, 8192, 16, 16, 128, 11, [3], [4], [5], ROLES)

  function Tail(head: seq<byte>): (b: Block)
    requires |head| <= 1024
    ensures |b| == 1024 && b[..|head|] == head && forall i :: |head| <= i < 1024 ==> b[i] == 0
  {
    head + seq(1024 - |head|, _ => 0)
  }

  const EMPTY: Block := Tail([])

  /** A bitmap with the first few bits set. */
  function Ones(n: nat): (s: seq<byte>)
    ensures |s| == 2
  {
    if n == 5 then [0x1f, 0] else if n == 6 then [0x3f, 0] else if n == 8 then [0xff, 0]
    else if n == 10 then [0xff, 0x03] else [0xff, 0x07]
  }

  /** The first `blocks` blocks and the first `inodes` inodes in use, these inode tables, and block 7. */
  function Medium(blocks: nat, inodes: nat, t0: Block, t1: Block, b7: Block): Disk
    requires blocks <= 11 && inodes <= 16
  {
    [EMPTY,
     Tail([0, 0, 0, 0, 0, 0, 0, 0, 0, 0, 0, 0, 11 - blocks, 0, 0, 0, 16 - inodes, 0, 0, 0]),
     Tail([3, 0, 0, 0, 4, 0, 0, 0, 5, 0, 0, 0, 11 - blocks, 0, 16 - inodes, 0]),
     Tail(Ones(blocks)), Tail(Ones(inodes)), t0, t1, b7, EMPTY, EMPTY, EMPTY, EMPTY]
  }

  predicate Small(blocks: nat, inodes: nat, disk: Disk)
  {
    && blocks in {6, 8} && inodes in {5, 10, 11} && |disk| == 12 && (forall n :: 0 <= n < 12 ==> |disk[n]| == 1024)
    && disk == Medium(blocks, inodes, disk[5], disk[6], disk[7])
  }

  lemma MediumSmall(blocks: nat, inodes: nat, t0: Block, t1: Block, b7: Block)
    requires blocks in {6, 8} && inodes in {5, 10, 11} && |t0| == |t1| == |b7| == 1024
    ensures Small(blocks, inodes, Medium(blocks, inodes, t0, t1, b7))
  {}

  // ----- the geometry -----

  lemma FreshGeometry()
    ensures FRESH.Geometry() && FRESH.Groups() == 1 && FRESH.InodesPerBlock() == 8
    ensures FRESH.DescBlock(0) == 2 && FRESH.DescAt(0) == 0 && FRESH.SuperBlock() == 1 && FRESH.SuperAt() == 0
  {}

  lemma FreshPlaced()
    ensures FRESH.Placed()
  {
    FreshGeometry();
    forall g, k | 0 <= g < FRESH.Groups() && 0 <= k <= (FRESH.inodesPerGroup - 1) / FRESH.InodesPerBlock()
      ensures FRESH.HasRole(FRESH.TableOf(g) + k, Table(g, k))
    {
      assert g == 0 && (k == 0 || k == 1);
    }
  }

  lemma FreshOk()
    ensures FRESH.Ok()
  {
    FreshGeometry();
    FreshPlaced();
  }

  // ----- marks and counts -----

  lemma LowBits(v: byte, n: nat)
    requires (v, n) in {(0x3f, 6), (0xff, 8), (0x03, 2), (0, 0), (0x07, 3), (0x1f, 5)}
    ensures forall k :: 0 <= k < 8 ==> (Bit(v, k) <==> k < n)
  {
    assert Bit(v, 0) <==> 0 < n;
    assert Bit(v, 1) <==> 1 < n;
    assert Bit(v, 2) <==> 2 < n;
    assert Bit(v, 3) <==> 3 < n;
    assert Bit(v, 4) <==> 4 < n;
    assert Bit(v, 5) <==> 5 < n;
    assert Bit(v, 6) <==> 6 < n;
    assert Bit(v, 7) <==> 7 < n;
  }

  lemma OnesAre(n: nat, i: nat)
    requires n in {5, 6, 8, 10, 11} && i < 16
    ensures BitAt(Tail(Ones(n)), i) <==> i < n
  {
    var b := Tail(Ones(n));
    assert b[..2] == Ones(n);
    assert b[0] == Ones(n)[0] && b[1] == Ones(n)[1];
    LowBits(0x3f, 6);
    LowBits(0xff, 8);
    LowBits(0x03, 2);
    LowBits(0x07, 3);
    LowBits(0x1f, 5);
    LowBits(0, 0);
  }

  lemma {:induction false} ClearOnes(b: Block, low: nat, n: nat)
    requires n <= 16 <= 8 * |b| && forall i :: 0 <= i < 16 ==> (BitAt(b, i) <==> i < low)
    ensures ClearBits(b, n) == Less(n, low)
    decreases n
  {
    if n > 0 {
      ClearOnes(b, low, n - 1);
    }
  }

  lemma OnesCleared(low: nat, n: nat)
    requires low in {5, 6, 8, 10, 11} && n <= 16
    ensures ClearBits(Tail(Ones(low)), n) == Less(n, low)
  {
    hide ClearBits, BitAt, Ones;
    forall i | 0 <= i < 16
      ensures BitAt(Tail(Ones(low)), i) <==> i < low
    {
      OnesAre(low, i);
    }
    ClearOnes(Tail(Ones(low)), low, n);
  }

  lemma FreshMaps(blocks: nat, inodes: nat, disk: Disk)
    requires Small(blocks, inodes, disk)
    ensures FRESH.Map(Blocks, 0) == 3 && FRESH.Map(Inodes, 0) == 4
    ensures FRESH.Limit(Blocks, 0) == 11 && FRESH.Limit(Inodes, 0) == 16
    ensures |disk| == 12 && disk[3] == Tail(Ones(blocks)) && disk[4] == Tail(Ones(inodes))
  {}

  lemma GroupFreeIs(l: Layout, disk: Disk, w: Which, n: nat, limit: nat)
    requires l.Map(w, 0) == n < |disk| && l.Limit(w, 0) == limit <= 8 * |disk[n]|
    ensures l.GroupFree(disk, w, 0) == ClearBits(disk[n], limit) && l.Free(disk, w, 1) == l.GroupFree(disk, w, 0)
  {
    hide ClearBits;
    assert l.Free(disk, w, 0) == 0;
  }

  lemma FreshDesc(blocks: nat, inodes: nat, disk: Disk)
    requires Small(blocks, inodes, disk)
    ensures FRESH.Described(disk) && Half(disk, 2, 12) == 11 - blocks && Half(disk, 2, 14) == 16 - inodes
  {
    FreshGeometry();
    var d := disk[2];
    var head: seq<byte> := [3, 0, 0, 0, 4, 0, 0, 0, 5, 0, 0, 0, 11 - blocks, 0, 16 - inodes, 0];
    assert d[..16] == head;
    assert forall i :: 0 <= i < 16 ==> d[i] == head[i];
    assert FRESH.DescribedAt(disk, 0);
  }

  lemma FreshSuper(blocks: nat, inodes: nat, disk: Disk)
    requires Small(blocks, inodes, disk)
    ensures FRESH.Shaped(disk) && Word(disk, 1, 12) == 11 - blocks && Word(disk, 1, 16) == 16 - inodes
  {
    var s := disk[1];
    var head: seq<byte> := [0, 0, 0, 0, 0, 0, 0, 0, 0, 0, 0, 0, 11 - blocks, 0, 0, 0, 16 - inodes, 0, 0, 0];
    assert s[..20] == head;
    assert forall i :: 0 <= i < 20 ==> s[i] == head[i];
  }

  lemma FreshBooked(blocks: nat, inodes: nat, disk: Disk)
    requires Small(blocks, inodes, disk)
    ensures Booked(FRESH, disk, 11 - blocks, 16 - inodes)
  {
    FreshOk();
    FreshGeometry();
    FreshMaps(blocks, inodes, disk);
    FreshDesc(blocks, inodes, disk);
    FreshSuper(blocks, inodes, disk);
    OnesCleared(blocks, 11);
    OnesCleared(inodes, 16);
    GroupFreeIs(FRESH, disk, Blocks, 3, 11);
    GroupFreeIs(FRESH, disk, Inodes, 4, 16);
    CountedIs(FRESH, disk, 11 - blocks, 16 - inodes);
    BookedIs(FRESH, disk, 11 - blocks, 16 - inodes);
  }

  lemma CountedIs(l: Layout, disk: Disk, blocks: nat, inodes: nat)
    requires l.Groups() == 1 && l.DescBlock(0) == 2 && l.DescAt(0) == 0 && l.SuperBlock() == 1 && l.SuperAt() == 0
    requires Half(disk, 2, 12) == l.GroupFree(disk, Blocks, 0) && Half(disk, 2, 14) == l.GroupFree(disk, Inodes, 0)
    requires blocks == l.Free(disk, Blocks, 1) == Word(disk, 1, 12)
    requires inodes == l.Free(disk, Inodes, 1) == Word(disk, 1, 16)
    ensures l.Counted(disk, blocks, inodes)
  {
    hide ClearBits, Get16, Get32;
    assert l.GroupCounted(disk, 0);
  }

  lemma BookedIs(l: Layout, disk: Disk, fb: nat, fi: nat)
    requires l.Ok() && l.Shaped(disk) && l.Described(disk) && l.Counted(disk, fb, fi)
    ensures Booked(l, disk, fb, fi)
  {}

  lemma FreshMarks(blocks: nat, inodes: nat, disk: Disk, n: nat)
    requires Small(blocks, inodes, disk)
    ensures n < 12 ==> (FRESH.InUse(disk, n) <==> 1 <= n <= blocks)
    ensures InodeInUse(FRESH, disk, n) <==> 0 < n <= inodes
  {
    if 1 <= n < 12 {
      OnesAre(blocks, n - 1);
      assert FRESH.GroupOf(n) == 0 && FRESH.IndexOf(n) == n - 1;
    }
    if 0 < n <= 16 {
      OnesAre(inodes, n - 1);
    }
  }

  lemma FreshUsed(blocks: nat, inodes: nat, disk: Disk)
    requires Small(blocks, inodes, disk)
    ensures forall n :: n in Used(FRESH, disk) <==> 1 <= n <= blocks
  {
    forall n: nat | n < 12
      ensures FRESH.InUse(disk, n) <==> 1 <= n <= blocks
    {
      hide *;
      FreshMarks(blocks, inodes, disk, n);
    }
  }

  // ----- the fresh volume -----

  /** Inode 2, a directory with two links, in the second slot. */
  const TABLE: Block := EMPTY[128 := 0xed][129 := 0x41][154 := 2]
  const DISK: Disk := Medium(6, 10, TABLE, EMPTY, EMPTY)
  const ROOT := Inode(2, Directory, 0, 2, 0, seq(15, _ => 0))
  const INODES: map<nat, Inode> := map[2 := ROOT]

  lemma {:induction false} NoPointers(disk: Disk, blocks: seq<u32>, p: Path)
    requires forall k :: 0 <= k < |blocks| ==> blocks[k] == 0
    ensures PtrAt(disk, blocks, p) == 0
    decreases |p|
  {
    if |p| > 1 {
      NoPointers(disk, blocks, p[..|p| - 1]);
    }
  }

  lemma FreshOwned()
    ensures Owned(FRESH, DISK, Used(FRESH, DISK), INODES, map[])
  {
    MediumSmall(6, 10, TABLE, EMPTY, EMPTY);
    FreshUsed(6, 10, DISK);
    forall f, p | ValidPath(FRESH, p)
      ensures OwnedAt(FRESH, DISK, INODES, map[], f, p)
    {
      NoPointers(DISK, ROOT.blocks, p);
    }
    forall f | f in INODES
      ensures INODES[f].sectors == FRESH.blockSize / 512 * |Held(map[], f)|
    {
      assert Held(map[], f) == {};
    }
    assert Tree(FRESH, DISK, INODES, map[]);
    assert Claimed(FRESH, Used(FRESH, DISK), map[]);
  }

  lemma FreshSynced()
    ensures Synced(FRESH, DISK, INODES, 0)
  {
    var b := TABLE;
    assert SlotBlock(FRESH, 2) == 5 && SlotAt(FRESH, 2) == 128;
    assert Get16(b, 128) == 0x41ed && Get16(b, 154) == 2;
    assert Get32(b, 132) == 0 && Get32(b, 156) == 0;
    forall i | 0 <= i < 15
      ensures Get32(b, 168 + 4 * i) == 0
    {
      assert b[168 + 4 * i] == 0 && b[169 + 4 * i] == 0 && b[170 + 4 * i] == 0 && b[171 + 4 * i] == 0;
    }
    assert PointersAt(b, 128) == ROOT.blocks;
    assert Parse(2, b, 128) == ROOT;
  }

  lemma FreshTrimmed()
    ensures AllTrimmed(FRESH, DISK, INODES, 0) && AllTidy(FRESH, DISK, INODES) && Listing(FRESH, DISK, ROOT) == []
  {
    hide PtrAt, PathOf;
    forall j: nat
      ensures PtrAt(DISK, ROOT.blocks, PathOf(FRESH, j)) == 0
    {
      NoPointers(DISK, ROOT.blocks, PathOf(FRESH, j));
    }
    assert BlocksFor(FRESH, 0) == 0;
  }

  lemma FreshListed()
    ensures Listed(FRESH, DISK, INODES) && ReservedMarked(FRESH, DISK)
  {
    MediumSmall(6, 10, TABLE, EMPTY, EMPTY);
    forall n: nat | 0 < n < 11
      ensures InodeInUse(FRESH, DISK, n)
    {
      FreshMarks(6, 10, DISK, n);
    }
  }

  lemma FreshReferenced()
    ensures Referenced(Dirs(FRESH, DISK, INODES), INODES + map[])
  {
    FreshTrimmed();
    hide Listing;
    assert NameMap([]) == map[];
    assert forall n :: Refs(Dirs(FRESH, DISK, INODES), n) == {};
  }

  /** Everything a mounted volume is taken to satisfy holds of a fresh one, and all its blocks are reached. */
  lemma FreshIsMountable()
    ensures Volume(FRESH, DISK, 5, 6, INODES, map[]) && 0 !in INODES && AllReached(FRESH, DISK, INODES)
    ensures Synced(FRESH, DISK, INODES, 0) && AllTrimmed(FRESH, DISK, INODES, 0)
    ensures Listed(FRESH, DISK, INODES) && AllTidy(FRESH, DISK, INODES) && ReservedMarked(FRESH, DISK)
    ensures Sealed(FRESH, DISK, INODES, map[]) && Referenced(Dirs(FRESH, DISK, INODES), INODES + map[])
  {
    MediumSmall(6, 10, TABLE, EMPTY, EMPTY);
    FreshBooked(6, 10, DISK);
    FreshOwned();
    FreshSynced();
    FreshTrimmed();
    FreshListed();
    FreshReferenced();
    assert 0 !in INODES;
    hide *;
    VolumeFacts(FRESH, DISK, 5, 6, INODES, map[]);
    NothingLostIff(FRESH, DISK, INODES, map[]);
    NoneSealed(FRESH, DISK, INODES);
  }

  lemma NoneSealed(l: Layout, disk: Disk, ino: map<nat, Inode>)
    ensures Sealed(l, disk, ino, map[])
  {}

  // ----- a free inode that is not found -----

  /** Five of the reserved inodes marked and nothing else: eleven inodes free, and none to be had. */
  lemma FreeButNotFound()
    ensures var d := Medium(6, 5, TABLE, EMPTY, EMPTY);
            Booked(FRESH, d, 5, 11) && !InodeInUse(FRESH, d, FRESH.firstInode) && !Takable(FRESH, d)
  {
    var d := Medium(6, 5, TABLE, EMPTY, EMPTY);
    MediumSmall(6, 5, TABLE, EMPTY, EMPTY);
    FreshBooked(6, 5, d);
    FreshGeometry();
    FreshMarks(6, 5, d, 11);
    FreshMaps(6, 5, d);
    forall i | 0 <= i < 16 ensures Marked(d, 4, i) <==> i < 5 {
      OnesAre(5, i);
    }
    forall g: nat, i: nat | g < FRESH.Groups() && FirstClear(FRESH, d, g, i) ensures InodeNumber(FRESH, g, i) < FRESH.firstInode {
      assert g == 0 && !Marked(d, 4, 5);
    }
  }
}
