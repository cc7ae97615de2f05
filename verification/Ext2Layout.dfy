/**
 Where an ext2 volume keeps its bookkeeping, and what that bookkeeping says: block and
 inode bitmaps, and the free counts kept twice, per group and in the superblock.
 */
module Ext2Layout {
  import opened Common
  import opened Ext2Bits

  type Disk = seq<Block>

  /** The 32-bit field at `at` of block `n`, or -1 where there is none. */
  function Word(disk: Disk, n: int, at: nat): int
  {
    if 0 <= n < |disk| && at + 4 <= |disk[n]| then Get32(disk[n], at) else -1
  }

  /** The 16-bit field at `at` of block `n`, or -1 where there is none. */
  function Half(disk: Disk, n: int, at: nat): int
  {
    if 0 <= n < |disk| && at + 2 <= |disk[n]| then Get16(disk[n], at) else -1
  }

  /** How many of the first `limit` bits of block `n` are clear. */
  function Clear(disk: Disk, n: int, limit: int): nat
  {
    if 0 <= n < |disk| && 0 <= limit <= 8 * |disk[n]| then ClearBits(disk[n], limit) else 0
  }

  /** Bit `i` of block `n`. */
  predicate Marked(disk: Disk, n: int, i: int)
  {
    0 <= n < |disk| && 0 <= i && i / 8 < |disk[n]| && BitAt(disk[n], i)
  }

  /** Which of the two bitmaps of a group. */
  datatype Which = Blocks | Inodes {
    function Other(): Which { if this == Blocks then Inodes else Blocks }
  }

  /** What a metadata block is for. */
  datatype Role = Super | Desc(index: nat) | Bitmap(which: Which, group: nat) | Table(group: nat, index: nat)

  /** What the superblock and the group descriptors fix once and for all. */
  datatype Layout = Layout(blockSize: nat, firstDataBlock: nat, blocksCount: nat, blocksPerGroup: nat,
                           inodesCount: nat, inodesPerGroup: nat, inodeSize: nat, firstInode: nat,
                           blockBitmaps: seq<nat>, inodeBitmaps: seq<nat>, tables: seq<nat>,
                           roles: map<nat, Role>)
  {
    function Groups(): nat { |blockBitmaps| }

    function Map(w: Which, g: nat): nat
    {
      if w == Blocks then (if g < |blockBitmaps| then blockBitmaps[g] else 0)
      else (if g < |inodeBitmaps| then inodeBitmaps[g] else 0)
    }

    function TableOf(g: nat): nat { if g < |tables| then tables[g] else 0 }

    function GroupFirst(g: nat): nat { g * blocksPerGroup + firstDataBlock }

    /** How many bits of a group's bitmap stand for something. */
    function Limit(w: Which, g: nat): int
    {
      if w == Inodes then inodesPerGroup else Min(blocksPerGroup, blocksCount - GroupFirst(g))
    }

    function DescPerBlock(): nat { Max(1, blockSize / 32) }

    function DescBlock(g: nat): nat { firstDataBlock + 1 + g / DescPerBlock() }

    function DescAt(g: nat): nat { g % DescPerBlock() * 32 }

    function SuperBlock(): nat { if blockSize == 1024 then 1 else 0 }

    function SuperAt(): nat { if blockSize == 1024 then 0 else 1024 }

    function InodesPerBlock(): nat { Max(1, if inodeSize == 0 then 1 else blockSize / inodeSize) }

    predicate Geometry()
    {
      && blockSize in {1024, 2048, 4096}
      && firstDataBlock == (if blockSize == 1024 then 1 else 0)
      && 0 < blocksPerGroup <= 8 * blockSize && 0 < inodesPerGroup <= 8 * blockSize
      && 128 <= inodeSize <= blockSize && blockSize % inodeSize == 0
      && blocksCount < (if blockSize == 1024 then 0x8000_0000 else if blockSize == 2048 then 0x4000_0000 else 0x2000_0000)
      && inodesCount < 0x1_0000_0000
      && |inodeBitmaps| == |tables| == Groups() > 0
      && inodesCount == Groups() * inodesPerGroup
      && GroupFirst(Groups() - 1) < blocksCount <= GroupFirst(Groups())
    }

    predicate HasRole(n: nat, r: Role) { n in roles && roles[n] == r }

    /** No block has two jobs, and every block with a job is on the volume. */
    ghost predicate Placed()
    {
      && (forall n :: n in roles ==> firstDataBlock <= n < blocksCount)
      && HasRole(SuperBlock(), Super)
      && (forall g :: 0 <= g < Groups() ==> HasRole(DescBlock(g), Desc(g / DescPerBlock())))
      && (forall w, g :: 0 <= g < Groups() ==> HasRole(Map(w, g), Bitmap(w, g)))
      && (forall g, k {:trigger Table(g, k)} ::
            0 <= g < Groups() && 0 <= k <= (inodesPerGroup - 1) / InodesPerBlock() ==>
              HasRole(TableOf(g) + k, Table(g, k)))
    }

    ghost predicate Ok() { Geometry() && Placed() }

    /** A block that taking or giving back a data block leaves alone. */
    predicate Kept(n: nat) { n !in roles || roles[n].Table? || (roles[n].Bitmap? && roles[n].which == Inodes) }

    /** A block that may hold a file's data or pointers. */
    predicate IsData(n: int) { firstDataBlock <= n < blocksCount && n !in roles }

    ghost predicate Shaped(disk: Disk)
    {
      |disk| == blocksCount && forall n :: 0 <= n < |disk| ==> |disk[n]| == blockSize
    }

    /** The descriptors name each group's bitmaps and inode table. */
    ghost predicate Described(disk: Disk)
    {
      forall g :: 0 <= g < Groups() ==> DescribedAt(disk, g)
    }

    predicate DescribedAt(disk: Disk, g: nat)
    {
      && DescAt(g) + 32 <= blockSize
      && Word(disk, DescBlock(g), DescAt(g)) == Map(Blocks, g)
      && Word(disk, DescBlock(g), DescAt(g) + 4) == Map(Inodes, g)
      && Word(disk, DescBlock(g), DescAt(g) + 8) == TableOf(g)
    }

    // ----- counts -----

    function GroupFree(disk: Disk, w: Which, g: nat): nat { Clear(disk, Map(w, g), Limit(w, g)) }

    function Free(disk: Disk, w: Which, k: nat): nat
    {
      if k == 0 then 0 else Free(disk, w, k - 1) + GroupFree(disk, w, k - 1)
    }

    ghost predicate GroupsCounted(disk: Disk)
    {
      forall g :: 0 <= g < Groups() ==> GroupCounted(disk, g)
    }

    predicate GroupCounted(disk: Disk, g: nat) { CountedFor(disk, Blocks, g) && CountedFor(disk, Inodes, g) }

    predicate CountedFor(disk: Disk, w: Which, g: nat)
    {
      Half(disk, DescBlock(g), DescAt(g) + CountField(w)) == GroupFree(disk, w, g)
    }

    /** Every free count, per group and in total, is the number of clear bits. */
    ghost predicate Counted(disk: Disk, freeBlocks: nat, freeInodes: nat)
    {
      && GroupsCounted(disk)
      && freeBlocks == Free(disk, Blocks, Groups()) == Word(disk, SuperBlock(), SuperAt() + 12)
      && freeInodes == Free(disk, Inodes, Groups()) == Word(disk, SuperBlock(), SuperAt() + 16)
    }

    // ----- block numbers -----

    function GroupOf(n: int): int { if blocksPerGroup == 0 then 0 else (n - firstDataBlock) / blocksPerGroup }

    function IndexOf(n: int): int { if blocksPerGroup == 0 then 0 else (n - firstDataBlock) % blocksPerGroup }

    predicate InUse(disk: Disk, n: int)
    {
      firstDataBlock <= n < blocksCount && 0 <= GroupOf(n) && Marked(disk, Map(Blocks, GroupOf(n)), IndexOf(n))
    }
  }

  /** Where a descriptor keeps each free count. */
  function CountField(w: Which): nat { if w == Blocks then 12 else 14 }

  // ----- geometry -----

  lemma MulMono(a: nat, b: nat, c: nat)
    requires a <= b
    ensures a * c <= b * c
  {}

  lemma LimitFits(l: Layout, w: Which, g: nat)
    requires l.Geometry() && g < l.Groups()
    ensures 0 < l.Limit(w, g) <= 8 * l.blockSize
  {
    MulMono(g, l.Groups() - 1, l.blocksPerGroup);
  }

  /** Two descriptors in one block do not overlap. */
  lemma DescApart(l: Layout, g: nat, h: nat)
    requires l.Geometry() && g != h && l.DescBlock(g) == l.DescBlock(h)
    ensures l.DescAt(g) + 32 <= l.DescAt(h) || l.DescAt(h) + 32 <= l.DescAt(g)
  {
    var per := l.DescPerBlock();
    assert g == g / per * per + g % per && h == h / per * per + h % per;
  }

  /** Bitmaps, descriptors and the superblock are different blocks. */
  lemma BookkeepingApart(l: Layout, w: Which, g: nat, h: nat)
    requires l.Ok() && g < l.Groups() && h < l.Groups()
    ensures l.Map(w, g) != l.DescBlock(h) && l.Map(w, g) != l.SuperBlock() && l.DescBlock(h) != l.SuperBlock()
    ensures l.Map(w, g) < l.blocksCount && l.DescBlock(h) < l.blocksCount && l.SuperBlock() < l.blocksCount
  {
    assert l.HasRole(l.Map(w, g), Bitmap(w, g)) && l.HasRole(l.DescBlock(h), Desc(h / l.DescPerBlock()));
  }

  lemma BitmapsApart(l: Layout, w: Which, g: nat, w': Which, g': nat)
    requires l.Ok() && g < l.Groups() && g' < l.Groups() && (w, g) != (w', g')
    ensures l.Map(w, g) != l.Map(w', g')
  {
    assert l.HasRole(l.Map(w, g), Bitmap(w, g)) && l.HasRole(l.Map(w', g'), Bitmap(w', g'));
  }

  /** Block numbers and (group, bit) pairs correspond. */
  lemma NumberOf(l: Layout, g: nat, i: nat)
    requires l.Geometry() && g < l.Groups() && i < l.Limit(Blocks, g)
    ensures var n := l.GroupFirst(g) + i;
            l.firstDataBlock <= n < l.blocksCount && l.GroupOf(n) == g && l.IndexOf(n) == i
  {
    DivModOf(g, i, l.blocksPerGroup);
  }

  lemma PlaceOf(l: Layout, n: nat)
    requires l.Geometry() && l.firstDataBlock <= n < l.blocksCount
    ensures var g, i := l.GroupOf(n), l.IndexOf(n);
            0 <= g < l.Groups() && 0 <= i < l.Limit(Blocks, g) && n == l.GroupFirst(g) + i
  {
    PlaceMath(n - l.firstDataBlock, l.blocksPerGroup, l.Groups());
  }

  lemma PlaceMath(m: nat, per: nat, groups: nat)
    requires per > 0 && m < groups * per
    ensures 0 <= m / per < groups && 0 <= m % per < per && m == m / per * per + m % per
  {
    if m / per >= groups {
      MulMono(groups, m / per, per);
    }
  }

  lemma DivModOf(g: nat, i: nat, per: nat)
    requires i < per
    ensures (g * per + i) / per == g && (g * per + i) % per == i
  {
    var m := g * per + i;
    assert m == m / per * per + m % per;
    if m / per > g {
      MulMono(g + 1, m / per, per);
    }
    if m / per < g {
      MulMono(m / per + 1, g, per);
    }
  }
}
