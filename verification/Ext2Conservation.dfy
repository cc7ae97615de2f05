/** Every block of a sound volume is accounted for once: free, metadata, or held by a file that counts it. */
module Ext2Conservation {
  import opened Common
  import opened Ext2Layout
  import opened Ext2Alloc
  import opened Ext2Map
  import opened Ext2Volume

  /** The blocks in `[lo, hi)` whose bit is clear. */
  ghost function FreeIn(l: Layout, disk: Disk, lo: nat, hi: nat): set<nat>
  {
    set n: nat | lo <= n < hi && !l.InUse(disk, n)
  }

  lemma FreeInStep(l: Layout, disk: Disk, lo: nat, hi: nat)
    requires lo <= hi
    ensures |FreeIn(l, disk, lo, hi + 1)| == |FreeIn(l, disk, lo, hi)| + if l.InUse(disk, hi) then 0 else 1
  {
    if l.InUse(disk, hi) {
      assert FreeIn(l, disk, lo, hi + 1) == FreeIn(l, disk, lo, hi);
    } else {
      assert FreeIn(l, disk, lo, hi + 1) == FreeIn(l, disk, lo, hi) + {hi};
    }
  }

  lemma FreeInSplit(l: Layout, disk: Disk, lo: nat, mid: nat, hi: nat)
    requires lo <= mid <= hi
    ensures |FreeIn(l, disk, lo, hi)| == |FreeIn(l, disk, lo, mid)| + |FreeIn(l, disk, mid, hi)|
  {
    assert FreeIn(l, disk, lo, hi) == FreeIn(l, disk, lo, mid) + FreeIn(l, disk, mid, hi);
  }

  lemma {:induction false} GroupFreeIs(l: Layout, disk: Disk, g: nat, i: nat)
    requires l.Ok() && l.Shaped(disk) && g < l.Groups() && i <= l.Limit(Blocks, g)
    ensures Clear(disk, l.Map(Blocks, g), i) == |FreeIn(l, disk, l.GroupFirst(g), l.GroupFirst(g) + i)|
  {
    var lo := l.GroupFirst(g);
    LimitFits(l, Blocks, g);
    BookkeepingApart(l, Blocks, g, g);
    if i == 0 {
      assert FreeIn(l, disk, lo, lo) == {};
    } else {
      GroupFreeIs(l, disk, g, i - 1);
      NumberOf(l, g, i - 1);
      FreeInStep(l, disk, lo, lo + i - 1);
    }
  }

  /** Where the first `k` groups end. */
  function GroupsEnd(l: Layout, k: nat): nat { if l.GroupFirst(k) <= l.blocksCount then l.GroupFirst(k) else l.blocksCount }

  /** The free counts add up to the number of free blocks. */
  lemma {:induction false} FreeIsFree(l: Layout, disk: Disk, k: nat)
    requires l.Ok() && l.Shaped(disk) && k <= l.Groups()
    ensures l.firstDataBlock <= GroupsEnd(l, k)
    ensures l.Free(disk, Blocks, k) == |FreeIn(l, disk, l.firstDataBlock, GroupsEnd(l, k))|
  {
    hide *;
    if k == 0 {
      NoGroups(l, disk);
    } else {
      FreeIsFree(l, disk, k - 1);
      EndStep(l, k);
      FreeStep(l, disk, k);
      GroupFreeIs(l, disk, k - 1, l.Limit(Blocks, k - 1));
      FreeInSplit(l, disk, l.firstDataBlock, GroupsEnd(l, k - 1), GroupsEnd(l, k));
    }
  }

  lemma NoGroups(l: Layout, disk: Disk)
    requires l.Ok()
    ensures GroupsEnd(l, 0) == l.firstDataBlock && l.Free(disk, Blocks, 0) == 0
    ensures FreeIn(l, disk, l.firstDataBlock, l.firstDataBlock) == {}
  {
    assert l.HasRole(l.SuperBlock(), Super);
  }

  lemma EndStep(l: Layout, k: nat)
    requires l.Ok() && 0 < k <= l.Groups()
    ensures l.firstDataBlock <= GroupsEnd(l, k - 1) == l.GroupFirst(k - 1)
    ensures GroupsEnd(l, k) == l.GroupFirst(k - 1) + l.Limit(Blocks, k - 1) && l.Limit(Blocks, k - 1) > 0
  {
    MulMono(k - 1, l.Groups() - 1, l.blocksPerGroup);
    assert l.GroupFirst(k) == l.GroupFirst(k - 1) + l.blocksPerGroup;
  }

  lemma FreeStep(l: Layout, disk: Disk, k: nat)
    requires k > 0
    ensures l.Free(disk, Blocks, k) ==
            l.Free(disk, Blocks, k - 1) + Clear(disk, l.Map(Blocks, k - 1), l.Limit(Blocks, k - 1))
  {}

  ghost function Range(lo: nat, hi: nat): (r: set<nat>)
    ensures forall n :: n in r <==> lo <= n < hi
    ensures lo <= hi ==> |r| == hi - lo
  {
    if lo >= hi then {} else Range(lo, hi - 1) + {hi - 1}
  }

  /** Free blocks, metadata blocks and owned blocks make up the volume, with none counted twice. */
  lemma EveryBlockAccounted(l: Layout, disk: Disk, fb: nat, fi: nat, ino: map<nat, Inode>, owner: map<nat, Claim>)
    requires Volume(l, disk, fb, fi, ino, owner)
    ensures fb + |l.roles.Keys| + |owner.Keys| == l.blocksCount - l.firstDataBlock
  {
    hide *;
    VolumeFacts(l, disk, fb, fi, ino, owner);
    FreeIsUnused(l, disk, fb, fi);
    UsedSplits(l, disk, owner);
  }

  lemma FreeIsUnused(l: Layout, disk: Disk, fb: nat, fi: nat)
    requires Booked(l, disk, fb, fi)
    ensures fb + |Used(l, disk)| == l.blocksCount - l.firstDataBlock
  {
    BookedFacts(l, disk, fb, fi);
    BooksOpened(l, disk, fb, fi);
    FreeIsFree(l, disk, l.Groups());
    UsedAndFree(l, disk);
  }

  /** Freeing a block that is not in use marks nothing and counts one block too many. */
  lemma FreedUnused(l: Layout, d0: Disk, d1: Disk, d2: Disk, d3: Disk, n: nat, g: nat, i: nat, fb: nat, fi: nat, v: u16)
    requires Booked(l, d0, fb, fi) && g < l.Groups() && i < l.Limit(Blocks, g) && n == l.GroupFirst(g) + i
    requires n !in Used(l, d0) && fb + 1 < 0x1_0000_0000 && fi < 0x1_0000_0000
    requires Toggled(l, d0, d1, Blocks, g, i, false) && Recounted(l, d1, d2, Blocks, g, v) && Flushed(l, d2, d3, fb + 1, fi)
    ensures Used(l, d3) == Used(l, d0) && !Booked(l, d3, fb + 1, fi)
  {
    hide *;
    BookedFacts(l, d0, fb, fi);
    BooksWritten(l, d0, d1, d2, d3, Blocks, g, i, false, v, fb + 1, fi);
    UsedMoves(l, d0, d3, g, i, false);
    FreeIsUnused(l, d0, fb, fi);
    if Booked(l, d3, fb + 1, fi) {
      FreeIsUnused(l, d3, fb + 1, fi);
    }
  }

  lemma UsedSplits(l: Layout, disk: Disk, owner: map<nat, Claim>)
    requires Claimed(l, Used(l, disk), owner)
    ensures |Used(l, disk)| == |l.roles.Keys| + |owner.Keys|
  {
    assert Used(l, disk) == l.roles.Keys + owner.Keys;
    assert l.roles.Keys !! owner.Keys;
  }

  lemma UsedAndFree(l: Layout, disk: Disk)
    requires l.firstDataBlock <= l.blocksCount
    ensures |Used(l, disk)| + |FreeIn(l, disk, l.firstDataBlock, l.blocksCount)| == l.blocksCount - l.firstDataBlock
  {
    assert Range(l.firstDataBlock, l.blocksCount) == Used(l, disk) + FreeIn(l, disk, l.firstDataBlock, l.blocksCount);
    assert Used(l, disk) !! FreeIn(l, disk, l.firstDataBlock, l.blocksCount);
  }

  // ----- what the files say they hold -----

  ghost function SectorsOf(ino: map<nat, Inode>, files: set<nat>): nat
  {
    if files == {} then 0
    else
      var f :| f in files;
      (if f in ino then ino[f].sectors else 0) + SectorsOf(ino, files - {f})
  }

  ghost function HeldBy(owner: map<nat, Claim>, files: set<nat>): set<nat>
  {
    set n | n in owner && owner[n].file in files
  }

  lemma HeldBySplit(owner: map<nat, Claim>, files: set<nat>, f: nat)
    requires f in files
    ensures |HeldBy(owner, files)| == |Held(owner, f)| + |HeldBy(owner, files - {f})|
  {
    assert HeldBy(owner, files) == Held(owner, f) + HeldBy(owner, files - {f});
    assert Held(owner, f) !! HeldBy(owner, files - {f});
  }

  lemma {:induction false} SectorsHeld(l: Layout, ino: map<nat, Inode>, owner: map<nat, Claim>, files: set<nat>)
    requires SectorsTrue(l, ino, owner) && files <= ino.Keys
    ensures SectorsOf(ino, files) == l.blockSize / 512 * |HeldBy(owner, files)|
    decreases |files|
  {
    if files == {} {
      assert HeldBy(owner, files) == {};
    } else {
      var f :| f in files && SectorsOf(ino, files) == ino[f].sectors + SectorsOf(ino, files - {f});
      SectorsHeld(l, ino, owner, files - {f});
      HeldBySplit(owner, files, f);
      Distribute(l.blockSize / 512, |Held(owner, f)|, |HeldBy(owner, files - {f})|);
    }
  }

  /**
   Conservation: the superblock's free count, the metadata, the blocks left behind and the
   sector counts of all inodes together add up to the volume. Freeing and allocating only
   move blocks between them.
   */
  lemma FreePlusHeldIsConstant(l: Layout, disk: Disk, fb: nat, fi: nat, ino: map<nat, Inode>, owner: map<nat, Claim>)
    requires Volume(l, disk, fb, fi, ino, owner) && 0 !in ino
    ensures l.blockSize / 512 * (fb + |l.roles.Keys| + |Lost(owner)|) + SectorsOf(ino, ino.Keys) ==
            l.blockSize / 512 * (l.blocksCount - l.firstDataBlock)
  {
    hide *;
    EveryBlockAccounted(l, disk, fb, fi, ino, owner);
    OwnersAreFiles(l, disk, fb, fi, ino, owner);
    SectorsHeld(l, ino, owner, ino.Keys);
    AllHeld(ino, owner);
    Distribute(l.blockSize / 512, fb + |l.roles.Keys| + |Lost(owner)|, |HeldBy(owner, ino.Keys)|);
  }

  lemma OwnersAreFiles(l: Layout, disk: Disk, fb: nat, fi: nat, ino: map<nat, Inode>, owner: map<nat, Claim>)
    requires Volume(l, disk, fb, fi, ino, owner)
    ensures SectorsTrue(l, ino, owner) && forall n :: n in owner && owner[n].file != 0 ==> owner[n].file in ino
  {
    hide Booked, SectorsTrue, Claimed;
    forall n | n in owner && owner[n].file != 0 ensures owner[n].file in ino {
      assert ClaimHolds(l, disk, ino, owner, n);
    }
  }

  lemma AllHeld(ino: map<nat, Inode>, owner: map<nat, Claim>)
    requires 0 !in ino && forall n :: n in owner && owner[n].file != 0 ==> owner[n].file in ino
    ensures |owner.Keys| == |Lost(owner)| + |HeldBy(owner, ino.Keys)|
  {
    assert owner.Keys == Lost(owner) + HeldBy(owner, ino.Keys);
    assert Lost(owner) !! HeldBy(owner, ino.Keys);
  }

  lemma Distribute(a: nat, b: nat, c: nat)
    ensures a * (b + c) == a * b + a * c
  {}
}
