/** What shortening a file does: which blocks it gives back, and which bytes turn into holes. */
module Ext2Trim {
  import opened Common
  import opened Ext2Bits
  import opened Ext2Layout
  import opened Ext2Alloc
  import opened Ext2Map
  import opened Ext2Volume
  import opened Ext2Inode
  import opened Ext2Steps

  // ----- giving one block back -----

  lemma FreeFacts(l: Layout, d: Disk, fb: nat, fi: nat, n: nat)
    requires Booked(l, d, fb, fi) && l.firstDataBlock <= n < l.blocksCount
    ensures l.Ok() && l.Shaped(d) && l.blocksPerGroup > 0
    ensures var g, i := (n - l.firstDataBlock) / l.blocksPerGroup, (n - l.firstDataBlock) % l.blocksPerGroup;
            && 0 <= g < l.Groups() && 0 <= i < l.Limit(Blocks, g) && n == l.GroupFirst(g) + i && i / 8 < l.blockSize
            && l.DescAt(g) + 32 <= l.blockSize && l.DescBlock(g) < |d| && |d[l.DescBlock(g)]| == l.blockSize
            && Get32(d[l.DescBlock(g)], l.DescAt(g)) == l.Map(Blocks, g) < l.blocksCount == |d|
            && |d[l.Map(Blocks, g)]| == l.blockSize
            && (n in Used(l, d) ==> Marked(d, l.Map(Blocks, g), i))
  {
    BookedFacts(l, d, fb, fi);
    PlaceOf(l, n);
    FreePlace(l, d, fb, fi, n, l.GroupOf(n), l.IndexOf(n));
  }

  lemma FreePlace(l: Layout, d: Disk, fb: nat, fi: nat, n: nat, g: nat, i: nat)
    requires Booked(l, d, fb, fi) && g < l.Groups() && i < l.Limit(Blocks, g) && n == l.GroupFirst(g) + i
    ensures i / 8 < l.blockSize && l.DescAt(g) + 32 <= l.blockSize
    ensures l.DescBlock(g) < |d| && |d[l.DescBlock(g)]| == l.blockSize
    ensures Get32(d[l.DescBlock(g)], l.DescAt(g)) == l.Map(Blocks, g) < l.blocksCount == |d|
    ensures |d[l.Map(Blocks, g)]| == l.blockSize
  {
    BookedFacts(l, d, fb, fi);
    ScanFacts(l, d, g);
    ShapedAt(l, d, l.Map(Blocks, g));
  }

  lemma ShapedAt(l: Layout, d: Disk, n: nat)
    requires l.Shaped(d) && n < l.blocksCount
    ensures n < |d| && |d[n]| == l.blockSize
  {}

  /** The whole of `free_block`, for a block in use. */
  lemma FreedBy(l: Layout, d0: Disk, d1: Disk, d2: Disk, d3: Disk, n: nat, g: nat, i: nat, fb: nat, fi: nat, v: int)
    requires Booked(l, d0, fb, fi) && g < l.Groups() && i < l.Limit(Blocks, g) && n == l.GroupFirst(g) + i
    requires Marked(d0, l.Map(Blocks, g), i) && Toggled(l, d0, d1, Blocks, g, i, false)
    requires v == Half(d1, l.DescBlock(g), l.DescAt(g) + CountField(Blocks)) + 1
    ensures 0 <= v < 0x1_0000 && fb + 1 < 0x1_0000_0000 && fi < 0x1_0000_0000
    ensures Recounted(l, d1, d2, Blocks, g, v) && Flushed(l, d2, d3, fb + 1, fi) ==>
              Booked(l, d3, fb + 1, fi) && Dropped(l, d0, d3, n)
  {
    hide *;
    BookedFacts(l, d0, fb, fi);
    RebookedIsBooked(l, d0, d1, d2, d3, Blocks, g, i, false, fb, fi, v, fb + 1, fi);
    if Recounted(l, d1, d2, Blocks, g, v) && Flushed(l, d2, d3, fb + 1, fi) {
      BooksWritten(l, d0, d1, d2, d3, Blocks, g, i, false, v, fb + 1, fi);
      UsedMoves(l, d0, d3, g, i, false);
      DroppedIs(l, d0, d3, n);
    }
  }

  lemma DroppedIs(l: Layout, d: Disk, d': Disk, n: nat)
    requires Used(l, d') == Used(l, d) - {n} && BooksOnly(l, d, d', -1)
    ensures Dropped(l, d, d', n)
  {}

  // ----- clearing one pointer -----

  /** Byte `off` of a file lies in the block at position `p`. */
  predicate LiesAt(l: Layout, off: nat, p: Path) { PathAt(l, off) == p }

  /** Exactly the bytes that position `(f, p)` held turned into a hole. */
  ghost predicate Holed(l: Layout, d: Disk, d': Disk, i: map<nat, Inode>, i': map<nat, Inode>, f: nat, p: Path)
  {
    && i'.Keys == i.Keys
    && forall g, off: nat {:trigger FileByte(l, d', i'[g], off)} {:trigger FileByte(l, d, i[g], off)} :: g in i ==>
         FileByte(l, d', i'[g], off) == if g == f && LiesAt(l, off, p) then 0 else FileByte(l, d, i[g], off)
  }

  lemma HoledBy(l: Layout, d: Disk, d': Disk, ino: map<nat, Inode>, ino': map<nat, Inode>, owner: map<nat, Claim>,
                f: nat, p: Path)
    requires l.Geometry() && Tree(l, d, ino, owner) && OnlyPtr(l, d, d', ino, ino', f, p, 0)
    requires |d'| == |d| && forall m :: m in owner && Leaf(owner[m].path) && m < |d| ==> d'[m] == d[m]
    ensures Holed(l, d, d', ino, ino', f, p)
  {
    forall g, off: nat {:trigger FileByte(l, d', ino'[g], off)} {:trigger FileByte(l, d, ino[g], off)} | g in ino
      ensures FileByte(l, d', ino'[g], off) == if g == f && LiesAt(l, off, p) then 0 else FileByte(l, d, ino[g], off)
    {
      DetachedContents(l, d, d', ino, ino', owner, f, p, g, off);
    }
  }

  /** Giving back the block of one of the inode's first thirteen slots. */
  lemma {:induction false} DropFromSlot(l: Layout, d: Disk, d': Disk, ino: map<nat, Inode>, ino': map<nat, Inode>,
                     owner: map<nat, Claim>, f: nat, slot: nat, n: nat)
    requires l.Geometry() && Owned(l, d, Used(l, d), ino, owner) && Dropped(l, d, d', n)
    requires f in ino && slot <= 12 && ino[f].blocks[slot] == n != 0 && Counts(l, ino, ino', f, false)
    requires f in ino' && ino' == ino[f := ino'[f]] && ino'[f].blocks == ino[f].blocks[slot := 0]
    requires slot == 12 ==> forall k :: 0 <= k < l.blockSize / 4 ==> Entry(d, n, k) == 0
    ensures Owned(l, d', Used(l, d'), ino', owner - {n})
    ensures OnlyPtr(l, d, d', ino, ino', f, [slot], 0) && Holed(l, d, d', ino, ino', f, [slot])
  {
    OwnedIsData(l, d, ino, owner);
    assert SamePointers(d, d', owner);
    SlotSet(l, d, d', ino, ino', owner, f, slot, 0);
    assert PtrAt(d, ino[f].blocks, [slot]) == n;
    DetachOwned(l, d, d', Used(l, d), ino, ino', owner, f, [slot], n);
    HoledBy(l, d, d', ino, ino', owner, f, [slot]);
  }

  /** Clearing an entry of an indirect block and giving back the block it named. */
  lemma {:induction false} DropFromEntry(l: Layout, d: Disk, d1: Disk, d2: Disk, ino: map<nat, Inode>, ino': map<nat, Inode>,
                      owner: map<nat, Claim>, f: nat, k: nat, n: nat)
    requires l.Geometry() && Owned(l, d, Used(l, d), ino, owner) && l.Shaped(d) && f in ino && ino[f].blocks[12] != 0
    requires k < l.blockSize / 4 && PtrAt(d, ino[f].blocks, [12, k]) == n != 0 && Counts(l, ino, ino', f, false)
    requires f in ino' && ino' == ino[f := ino'[f]] && ino'[f].blocks == ino[f].blocks
    requires var i := ino[f].blocks[12]; i < |d| && d1 == d[i := Put32(d[i], 4 * k, 0)]
    requires Used(l, d2) == Used(l, d) - {n} && BooksOnly(l, d1, d2, -1)
    ensures Owned(l, d2, Used(l, d2), ino', owner - {n})
    ensures OnlyPtr(l, d, d2, ino, ino', f, [12, k], 0) && Holed(l, d, d2, ino, ino', f, [12, k])
  {
    var i := ino[f].blocks[12];
    OwnedIsData(l, d, ino, owner);
    assert OwnedAt(l, d, ino, owner, f, [12]);
    assert i in owner && owner[i] == Claim(f, [12]) && d2[i] == d1[i];
    forall j | 0 <= j < l.blockSize / 4 && j != k ensures Word(d2, i, 4 * j) == Word(d, i, 4 * j) {
      Get32Same(d[i], d1[i], 4 * k, 4, 4 * j);
    }
    EntrySet(l, d, d2, ino, owner, f, k, 0);
    SameBlocks(l, d, d2, ino, ino', f, [12, k], 0);
    DetachOwned(l, d, d2, Used(l, d), ino, ino', owner, f, [12, k], n);
    HoledBy(l, d, d2, ino, ino', owner, f, [12, k]);
  }

  /** A file that owns a block has that block's sectors to give back. */
  lemma SectorsCover(l: Layout, d: Disk, used: set<nat>, ino: map<nat, Inode>, owner: map<nat, Claim>, f: nat, p: Path)
    requires Owned(l, d, used, ino, owner) && f in ino && ValidPath(l, p) && PtrAt(d, ino[f].blocks, p) != 0
    ensures l.blockSize / 512 <= ino[f].sectors && PtrAt(d, ino[f].blocks, p) in used
    ensures PtrAt(d, ino[f].blocks, p) !in l.roles
    ensures l.firstDataBlock <= PtrAt(d, ino[f].blocks, p) < l.blocksCount
  {
    var n := PtrAt(d, ino[f].blocks, p);
    assert OwnedAt(l, d, ino, owner, f, p) && ClaimHolds(l, d, ino, owner, n);
    assert n in Held(owner, f);
    MulMono(1, |Held(owner, f)|, l.blockSize / 512);
  }

  lemma CountsOneLess(l: Layout, ino: map<nat, Inode>, ino': map<nat, Inode>, i: Inode, i': Inode)
    requires i.number in ino && ino[i.number] == i && ino' == ino[i.number := i'] && |i.blocks| == 15
    requires l.blockSize / 512 <= i.sectors
    requires i' == i.(sectors := i.sectors - l.blockSize / 512, blocks := i'.blocks)
    requires |i'.blocks| == 15 && i'.blocks[13] == i.blocks[13] && i'.blocks[14] == i.blocks[14]
    ensures Counts(l, ino, ino', i.number, false) && SameIdentity(i, i')
  {}

  lemma DropFacts(l: Layout, d: Disk, d': Disk, n: nat)
    requires Dropped(l, d, d', n)
    ensures Used(l, d') == Used(l, d) - {n} && BooksOnly(l, d, d', -1) && SameTables(l, d, d')
  {}

  /** Nothing hangs from the inode's indirect block. */
  ghost predicate Emptied(l: Layout, d: Disk, blocks: seq<u32>)
  {
    forall k: nat :: k < l.blockSize / 4 ==> PtrAt(d, blocks, [12, k]) == 0
  }

  lemma EmptiedEntries(l: Layout, d: Disk, blocks: seq<u32>)
    requires |blocks| == 15 && Emptied(l, d, blocks)
    ensures forall k :: 0 <= k < l.blockSize / 4 ==> Entry(d, blocks[12], k) == 0
  {
    forall k | 0 <= k < l.blockSize / 4 ensures Entry(d, blocks[12], k) == 0 {
      assert [12, k][..1] == [12];
      assert PtrAt(d, blocks, [12, k]) == Entry(d, blocks[12], k);
    }
  }

  lemma SlotFacts(l: Layout, d: Disk, used: set<nat>, ino: map<nat, Inode>, owner: map<nat, Claim>, i: Inode, slot: nat)
    requires l.Geometry() && Owned(l, d, used, ino, owner) && i.number in ino && ino[i.number] == i
    requires |i.blocks| == 15 && slot <= 12 && i.blocks[slot] != 0
    ensures PtrAt(d, i.blocks, [slot]) == i.blocks[slot] && ValidPath(l, [slot])
    ensures l.blockSize / 512 <= i.sectors && i.blocks[slot] in used
    ensures l.firstDataBlock <= i.blocks[slot] < l.blocksCount
  {
    SectorsCover(l, d, used, ino, owner, i.number, [slot]);
  }

  lemma DroppedSlot(l: Layout, d: Disk, d': Disk, ino: map<nat, Inode>, ino': map<nat, Inode>, owner: map<nat, Claim>,
                    i: Inode, i': Inode, slot: nat)
    requires l.Geometry() && Owned(l, d, Used(l, d), ino, owner) && i.number in ino && ino[i.number] == i
    requires |i.blocks| == 15 && slot <= 12 && i.blocks[slot] != 0 && l.blockSize / 512 <= i.sectors
    requires Dropped(l, d, d', i.blocks[slot]) && (slot == 12 ==> Emptied(l, d, i.blocks))
    requires i' == i.(blocks := i.blocks[slot := 0], sectors := i.sectors - l.blockSize / 512)
    requires ino' == ino[i.number := i']
    ensures Owned(l, d', Used(l, d'), ino', owner - {i.blocks[slot]})
    ensures OnlyPtr(l, d, d', ino, ino', i.number, [slot], 0) && Holed(l, d, d', ino, ino', i.number, [slot])
    ensures SameTables(l, d, d') && SameIdentity(i, i')
  {
    hide *;
    if slot == 12 {
      EmptiedEntries(l, d, i.blocks);
    }
    CountsOneLess(l, ino, ino', i, i');
    DropFacts(l, d, d', i.blocks[slot]);
    DropFromSlot(l, d, d', ino, ino', owner, i.number, slot, i.blocks[slot]);
  }

  lemma EntryOwned(l: Layout, d: Disk, fb: nat, fi: nat, ino: map<nat, Inode>, owner: map<nat, Claim>, i: Inode, k: nat)
    requires Booked(l, d, fb, fi) && Owned(l, d, Used(l, d), ino, owner) && i.number in ino && ino[i.number] == i
    requires |i.blocks| == 15 && i.blocks[12] != 0 && k < l.blockSize / 4 && PtrAt(d, i.blocks, [12, k]) != 0
    ensures l.blockSize / 512 <= i.sectors && PtrAt(d, i.blocks, [12, k]) in Used(l, d) && ValidPath(l, [12, k])
    ensures l.firstDataBlock <= PtrAt(d, i.blocks, [12, k]) < l.blocksCount
    ensures i.blocks[12] !in l.roles && i.blocks[12] < |d| && |d[i.blocks[12]]| == l.blockSize && 4 * k + 4 <= l.blockSize
    ensures PtrAt(d, i.blocks, [12, k]) == Get32(d[i.blocks[12]], 4 * k)
  {
    BookedFacts(l, d, fb, fi);
    OwnedTree(l, d, Used(l, d), ino, owner);
    SectorsCover(l, d, Used(l, d), ino, owner, i.number, [12, k]);
    IndirectIsData(l, d, ino, owner, i);
    EntryFacts(l, d, ino, owner, i, k);
    ShapedAt(l, d, i.blocks[12]);
  }

  lemma DroppedEntry(l: Layout, d: Disk, d1: Disk, d2: Disk, ino: map<nat, Inode>, ino': map<nat, Inode>,
                     owner: map<nat, Claim>, i: Inode, i': Inode, k: nat, n: nat)
    requires l.Geometry() && l.Shaped(d) && Owned(l, d, Used(l, d), ino, owner)
    requires i.number in ino && ino[i.number] == i && |i.blocks| == 15 && i.blocks[12] != 0 && l.blockSize / 512 <= i.sectors
    requires k < l.blockSize / 4 && PtrAt(d, i.blocks, [12, k]) == n != 0 && i.blocks[12] !in l.roles
    requires i.blocks[12] < |d| && 4 * k + 4 <= |d[i.blocks[12]]| && d1 == d[i.blocks[12] := Put32(d[i.blocks[12]], 4 * k, 0)]
    requires Used(l, d1) == Used(l, d) && Dropped(l, d1, d2, n)
    requires i' == i.(sectors := i.sectors - l.blockSize / 512) && ino' == ino[i.number := i']
    ensures Owned(l, d2, Used(l, d2), ino', owner - {n})
    ensures OnlyPtr(l, d, d2, ino, ino', i.number, [12, k], 0) && Holed(l, d, d2, ino, ino', i.number, [12, k])
    ensures SameTables(l, d, d2) && SameIdentity(i, i')
  {
    hide *;
    CountsOneLess(l, ino, ino', i, i');
    DropFacts(l, d1, d2, n);
    DropFromEntry(l, d, d1, d2, ino, ino', owner, i.number, k, n);
    DataWriteTables(l, d, d1, i.blocks[12]);
    TablesTwice(l, d, d1, d2);
  }

  lemma DataWriteTables(l: Layout, d: Disk, d': Disk, n: nat)
    requires n !in l.roles && |d'| == |d| && forall m :: 0 <= m < |d| && m != n ==> d'[m] == d[m]
    ensures SameTables(l, d, d')
  {}

  // ----- a run of blocks -----

  function BlockIndex(l: Layout, off: nat): nat { if l.blockSize == 0 then 0 else off / l.blockSize }

  /** Exactly the bytes in file blocks `[from, to)` of file `f` turned into holes. */
  ghost predicate Cut(l: Layout, d: Disk, d': Disk, i: map<nat, Inode>, i': map<nat, Inode>, f: nat, from: nat, to: nat)
  {
    && i'.Keys == i.Keys
    && forall g, off: nat {:trigger FileByte(l, d', i'[g], off)} {:trigger FileByte(l, d, i[g], off)} :: g in i ==>
         FileByte(l, d', i'[g], off) == if g == f && from <= BlockIndex(l, off) < to then 0 else FileByte(l, d, i[g], off)
  }

  /** Exactly the pointers of file blocks `[from, to)` of file `f` were cleared. */
  ghost predicate Freed(l: Layout, d: Disk, d': Disk, i: map<nat, Inode>, i': map<nat, Inode>, f: nat, from: nat, to: nat)
  {
    && i'.Keys == i.Keys
    && forall g, j: nat {:trigger PtrAt(d', i'[g].blocks, PathOf(l, j))} {:trigger PtrAt(d, i[g].blocks, PathOf(l, j))} ::
         g in i ==> PtrAt(d', i'[g].blocks, PathOf(l, j)) ==
                    if g == f && from <= j < to then 0 else PtrAt(d, i[g].blocks, PathOf(l, j))
  }

  lemma CutMore(l: Layout, d: Disk, d1: Disk, d2: Disk, i: map<nat, Inode>, i1: map<nat, Inode>, i2: map<nat, Inode>,
                f: nat, from: nat, to: nat, p: Path)
    requires l.Geometry() && p == PathOf(l, to) && p != [] && from <= to
    requires Cut(l, d, d1, i, i1, f, from, to) && Holed(l, d1, d2, i1, i2, f, p)
    ensures Cut(l, d, d2, i, i2, f, from, to + 1)
  {
    forall g, off: nat {:trigger FileByte(l, d2, i2[g], off)} {:trigger FileByte(l, d, i[g], off)} | g in i
      ensures FileByte(l, d2, i2[g], off) ==
              if g == f && from <= BlockIndex(l, off) < to + 1 then 0 else FileByte(l, d, i[g], off)
    {
      assert FileByte(l, d1, i1[g], off) ==
             if g == f && from <= BlockIndex(l, off) < to then 0 else FileByte(l, d, i[g], off);
      if LiesAt(l, off, p) {
        PathOfInjective(l, off / l.blockSize, to);
      }
    }
  }

  lemma FreedMore(l: Layout, d: Disk, d1: Disk, d2: Disk, i: map<nat, Inode>, i1: map<nat, Inode>, i2: map<nat, Inode>,
                  f: nat, from: nat, to: nat, p: Path)
    requires l.Geometry() && p == PathOf(l, to) && p != [] && from <= to
    requires Freed(l, d, d1, i, i1, f, from, to) && OnlyPtr(l, d1, d2, i1, i2, f, p, 0)
    ensures Freed(l, d, d2, i, i2, f, from, to + 1)
  {
    forall g, j: nat {:trigger PtrAt(d2, i2[g].blocks, PathOf(l, j))} {:trigger PtrAt(d, i[g].blocks, PathOf(l, j))} | g in i
      ensures PtrAt(d2, i2[g].blocks, PathOf(l, j)) ==
              if g == f && from <= j < to + 1 then 0 else PtrAt(d, i[g].blocks, PathOf(l, j))
    {
      if PathOf(l, j) != [] {
        PathOfIsLeaf(l, j);
        if PathOf(l, j) == p {
          PathOfInjective(l, j, to);
        }
        var c := Claim(g, PathOf(l, j));
      }
    }
  }

  /** A hole is already what a cut leaves behind. */
  lemma CutHole(l: Layout, d: Disk, d1: Disk, i: map<nat, Inode>, i1: map<nat, Inode>, f: nat, from: nat, to: nat)
    requires f in i && from <= to && Cut(l, d, d1, i, i1, f, from, to) && Freed(l, d, d1, i, i1, f, from, to)
    requires PtrAt(d1, i1[f].blocks, PathOf(l, to)) == 0
    ensures Cut(l, d, d1, i, i1, f, from, to + 1) && Freed(l, d, d1, i, i1, f, from, to + 1)
  {
    forall off: nat | BlockIndex(l, off) == to ensures FileByte(l, d1, i1[f], off) == 0 {
      assert l.blockSize != 0 ==> PathAt(l, off) == PathOf(l, to);
    }
  }

  lemma CutNone(l: Layout, d: Disk, i: map<nat, Inode>, f: nat, from: nat)
    ensures Cut(l, d, d, i, i, f, from, from) && Freed(l, d, d, i, i, f, from, from)
  {}

  /** How far a truncation has got. */
  ghost predicate Cutting(l: Layout, d: Disk, d': Disk, i: map<nat, Inode>, i': map<nat, Inode>, a: Inode, b: Inode,
                          from: nat, to: nat)
  {
    && a.number in i && i[a.number] == a && i' == i[a.number := b] && SameIdentity(a, b) && SameTables(l, d, d')
    && Cut(l, d, d', i, i', a.number, from, to) && Freed(l, d, d', i, i', a.number, from, to)
  }

  lemma CuttingIs(l: Layout, d: Disk, d': Disk, i: map<nat, Inode>, i': map<nat, Inode>, a: Inode, b: Inode,
                  from: nat, to: nat)
    ensures Cutting(l, d, d', i, i', a, b, from, to) <==>
              && a.number in i && i[a.number] == a && i' == i[a.number := b] && SameIdentity(a, b) && SameTables(l, d, d')
              && Cut(l, d, d', i, i', a.number, from, to) && Freed(l, d, d', i, i', a.number, from, to)
  {
    hide Cut;
    hide Freed;
    hide SameTables;
  }

  lemma CuttingStep(l: Layout, d: Disk, d1: Disk, d2: Disk, i: map<nat, Inode>, i1: map<nat, Inode>, i2: map<nat, Inode>,
                    a: Inode, b: Inode, c: Inode, from: nat, to: nat, p: Path)
    requires l.Geometry() && p == PathOf(l, to) && p != [] && from <= to && Cutting(l, d, d1, i, i1, a, b, from, to)
    requires i2 == i1[b.number := c] && SameIdentity(b, c) && SameTables(l, d1, d2)
    requires OnlyPtr(l, d1, d2, i1, i2, b.number, p, 0) && Holed(l, d1, d2, i1, i2, b.number, p)
    ensures Cutting(l, d, d2, i, i2, a, c, from, to + 1)
  {
    hide *;
    CuttingIs(l, d, d1, i, i1, a, b, from, to);
    SameNumber(a, b);
    SameNumber(b, c);
    SameIdentityIs(a, c);
    TablesTwice(l, d, d1, d2);
    CutMore(l, d, d1, d2, i, i1, i2, a.number, from, to, p);
    FreedMore(l, d, d1, d2, i, i1, i2, a.number, from, to, p);
    CuttingIs(l, d, d2, i, i2, a, c, from, to + 1);
  }

  lemma CuttingSkip(l: Layout, d: Disk, d1: Disk, i: map<nat, Inode>, i1: map<nat, Inode>, a: Inode, b: Inode,
                    from: nat, to: nat)
    requires from <= to && Cutting(l, d, d1, i, i1, a, b, from, to) && PtrAt(d1, b.blocks, PathOf(l, to)) == 0
    ensures Cutting(l, d, d1, i, i1, a, b, from, to + 1)
  {
    hide *;
    CuttingIs(l, d, d1, i, i1, a, b, from, to);
    CutHole(l, d, d1, i, i1, a.number, from, to);
    CuttingIs(l, d, d1, i, i1, a, b, from, to + 1);
  }

  lemma CuttingStart(l: Layout, d: Disk, i: map<nat, Inode>, a: Inode, from: nat)
    requires a.number in i && i[a.number] == a && |a.blocks| == 15
    ensures Cutting(l, d, d, i, i, a, a, from, from)
  {
    CutNone(l, d, i, a.number, from);
    hide Cut;
    hide Freed;
  }

  /** Once every block past `from` is gone, nothing hangs from the indirect block. */
  lemma CutEmpties(l: Layout, d: Disk, d1: Disk, i: map<nat, Inode>, i1: map<nat, Inode>, a: Inode, b: Inode,
                   from: nat, to: nat)
    requires Cutting(l, d, d1, i, i1, a, b, from, to) && AllTrimmed(l, d, i, 0) && 0 !in i
    requires from <= 12 && to == BlocksFor(l, a.size)
    ensures Emptied(l, d1, b.blocks)
  {
    assert Trimmed(l, d, a, to);
    forall k: nat | k < l.blockSize / 4 ensures PtrAt(d1, b.blocks, [12, k]) == 0 {
      PathOfIndirect(l, k);
      assert PtrAt(d1, i1[a.number].blocks, PathOf(l, 12 + k)) ==
             if from <= 12 + k < to then 0 else PtrAt(d, i[a.number].blocks, PathOf(l, 12 + k));
    }
  }

  /** The indirect block itself holds no byte of the file. */
  lemma CuttingIndirect(l: Layout, d: Disk, d1: Disk, d2: Disk, i: map<nat, Inode>, i1: map<nat, Inode>,
                        i2: map<nat, Inode>, a: Inode, b: Inode, c: Inode, from: nat, to: nat)
    requires l.Geometry() && Cutting(l, d, d1, i, i1, a, b, from, to)
    requires i2 == i1[b.number := c] && SameIdentity(b, c) && SameTables(l, d1, d2)
    requires OnlyPtr(l, d1, d2, i1, i2, b.number, [12], 0) && Holed(l, d1, d2, i1, i2, b.number, [12])
    ensures Cutting(l, d, d2, i, i2, a, c, from, to)
  {
    hide *;
    CuttingIs(l, d, d1, i, i1, a, b, from, to);
    SameNumber(a, b);
    SameNumber(b, c);
    SameIdentityIs(a, c);
    TablesTwice(l, d, d1, d2);
    CutSame(l, d, d1, d2, i, i1, i2, a.number, from, to);
    ElsewhereSet(l, d1, d2, i1, i2, a.number, 0, -1);
    FreedSame(l, d, d1, d2, i, i1, i2, a.number, from, to);
    CuttingIs(l, d, d2, i, i2, a, c, from, to);
  }

  lemma CutSame(l: Layout, d: Disk, d1: Disk, d2: Disk, i: map<nat, Inode>, i1: map<nat, Inode>, i2: map<nat, Inode>,
                f: nat, from: nat, to: nat)
    requires l.Geometry() && Cut(l, d, d1, i, i1, f, from, to) && Holed(l, d1, d2, i1, i2, f, [12])
    ensures Cut(l, d, d2, i, i2, f, from, to)
  {
    forall g, off: nat {:trigger FileByte(l, d2, i2[g], off)} {:trigger FileByte(l, d, i[g], off)} | g in i
      ensures FileByte(l, d2, i2[g], off) ==
              if g == f && from <= BlockIndex(l, off) < to then 0 else FileByte(l, d, i[g], off)
    {
      assert FileByte(l, d1, i1[g], off) ==
             if g == f && from <= BlockIndex(l, off) < to then 0 else FileByte(l, d, i[g], off);
      if LiesAt(l, off, [12]) {
        PathOfIsLeaf(l, off / l.blockSize);
      }
    }
  }

  lemma FreedSame(l: Layout, d: Disk, d1: Disk, d2: Disk, i: map<nat, Inode>, i1: map<nat, Inode>, i2: map<nat, Inode>,
                  f: nat, from: nat, to: nat)
    requires Freed(l, d, d1, i, i1, f, from, to) && PointersKept(l, d1, d2, i1, i2, f, -1)
    ensures Freed(l, d, d2, i, i2, f, from, to)
  {
    forall g, j: nat {:trigger PtrAt(d2, i2[g].blocks, PathOf(l, j))} {:trigger PtrAt(d, i[g].blocks, PathOf(l, j))} | g in i
      ensures PtrAt(d2, i2[g].blocks, PathOf(l, j)) ==
              if g == f && from <= j < to then 0 else PtrAt(d, i[g].blocks, PathOf(l, j))
    {
      assert PtrAt(d2, i2[g].blocks, PathOf(l, j)) == PtrAt(d1, i1[g].blocks, PathOf(l, j));
    }
  }

  // ----- the new size -----

  predicate Shortened(i: Inode, j: Inode, length: nat)
  {
    j.number == i.number && j.kind == i.kind && j.links == i.links && j.size == length
  }

  lemma ShortenedIs(i: Inode, j: Inode, length: nat)
    requires Shortened(i, j, length)
    ensures j.number == i.number && j.kind == i.kind && j.links == i.links && j.size == length
  {}

  lemma CutEnds(l: Layout, d: Disk, d1: Disk, fb: nat, fi: nat, i: map<nat, Inode>, i1: map<nat, Inode>,
                i2: map<nat, Inode>, owner: map<nat, Claim>, a: Inode, b: Inode, c: Inode, length: nat)
    requires Booked(l, d1, fb, fi) && Owned(l, d1, Used(l, d1), i1, owner) && 0 !in i && length <= a.size
    requires Cutting(l, d, d1, i, i1, a, b, BlocksFor(l, length), BlocksFor(l, a.size))
    requires Synced(l, d, i, a.number) && Slotted(l, d, a) && AllTrimmed(l, d, i, 0)
    requires BlocksFor(l, length) == BlocksFor(l, a.size) || BlocksFor(l, a.size) <= 12 + l.blockSize / 4
    requires BlocksFor(l, length) <= 12 ==> |b.blocks| == 15 && b.blocks[12] == 0
    requires c == b.(size := length) && i2 == i1[a.number := c]
    ensures i2 == i[a.number := c] && c.number == a.number
    ensures Owned(l, d1, Used(l, d1), i2, owner) && Slotted(l, d1, c) && Synced(l, d1, i2, c.number)
    ensures Cut(l, d, d1, i, i2, a.number, BlocksFor(l, length), BlocksFor(l, a.size)) && AllTrimmed(l, d1, i2, 0)
    ensures Shortened(a, c, length) && SameTables(l, d, d1) && a.number in i && OthersKept(l, d, d1, i, i2, a.number)
  {
    hide *;
    CutEndFacts(l, d, d1, i, i1, i2, a, b, c, length);
    CutCompact(l, d, i, a, b, c, BlocksFor(l, length), BlocksFor(l, a.size));
    CutEndBytes(l, d, d1, i, i1, i2, a.number, BlocksFor(l, length), BlocksFor(l, a.size));
    CutEndTrimmed(l, d, d1, i, i1, i2, a, c, BlocksFor(l, length), BlocksFor(l, a.size));
    ResizeOwned(l, d1, Used(l, d1), i1, i2, owner, c.number);
    SectorsFit(l, d1, fb, fi, i2, owner, c.number);
    BookedFacts(l, d1, fb, fi);
    SlottedKept(l, d, d1, a, c);
    EndSynced(l, d, d1, i, i2, c.number);
    FreedKeepsOthers(l, d, d1, i, i1, i2, a.number, BlocksFor(l, length), BlocksFor(l, a.size));
  }

  lemma FreedKeepsOthers(l: Layout, d: Disk, d1: Disk, i: map<nat, Inode>, i1: map<nat, Inode>, i2: map<nat, Inode>,
                         f: nat, from: nat, to: nat)
    requires Freed(l, d, d1, i, i1, f, from, to) && i2.Keys == i.Keys
    requires (forall g :: g in i && g != f ==> i1[g] == i[g]) && (forall g :: g in i && g != f ==> i2[g] == i[g])
    ensures OthersKept(l, d, d1, i, i2, f)
  {
    forall g, j: nat | g in i && g != f
      ensures PtrAt(d1, i2[g].blocks, PathOf(l, j)) == PtrAt(d, i[g].blocks, PathOf(l, j))
    {
      assert PtrAt(d1, i1[g].blocks, PathOf(l, j)) == PtrAt(d, i[g].blocks, PathOf(l, j));
    }
  }

  lemma CutEndFacts(l: Layout, d: Disk, d1: Disk, i: map<nat, Inode>, i1: map<nat, Inode>, i2: map<nat, Inode>,
                    a: Inode, b: Inode, c: Inode, length: nat)
    requires Cutting(l, d, d1, i, i1, a, b, BlocksFor(l, length), BlocksFor(l, a.size)) && length <= a.size
    requires c == b.(size := length) && i2 == i1[a.number := c]
    ensures a.number in i && i[a.number] == a && i2 == i[a.number := c] && c.number == a.number && c.kind == a.kind
    ensures a.number in i1 && Resized(i1, i2, c.number) && SameTables(l, d, d1) && |c.blocks| == 15 && c.size == length
    ensures Cut(l, d, d1, i, i1, a.number, BlocksFor(l, length), BlocksFor(l, a.size))
    ensures Freed(l, d, d1, i, i1, a.number, BlocksFor(l, length), BlocksFor(l, a.size))
    ensures forall g :: g in i && g != a.number ==> g in i1 && i1[g] == i[g]
    ensures i1.Keys == i.Keys && i2.Keys == i.Keys && i2[a.number].blocks == i1[a.number].blocks
    ensures BlocksFor(l, length) <= BlocksFor(l, a.size) && Shortened(a, c, length) && SameIdentity(a, b)
  {
    CeilMono(l, length, a.size);
    hide Cut;
    hide Freed;
    hide SameTables;
    hide BlocksFor;
  }

  lemma CutCompact(l: Layout, d: Disk, i: map<nat, Inode>, a: Inode, b: Inode, c: Inode, from: nat, to: nat)
    requires a.number in i && i[a.number] == a && AllTrimmed(l, d, i, 0) && 0 !in i && SameIdentity(a, b)
    requires to == BlocksFor(l, a.size) && from <= to && (from == to || to <= 12 + l.blockSize / 4)
    requires (from <= 12 ==> b.blocks[12] == 0) && c.blocks == b.blocks
    ensures Compact(l, c, from)
  {
    assert Trimmed(l, d, a, to);
    hide BlocksFor;
    assert Compact(l, a, to);
  }

  lemma CutEndBytes(l: Layout, d: Disk, d1: Disk, i: map<nat, Inode>, i1: map<nat, Inode>, i2: map<nat, Inode>,
                    f: nat, from: nat, to: nat)
    requires Cut(l, d, d1, i, i1, f, from, to) && Resized(i1, i2, f) && i2.Keys == i.Keys
    ensures Cut(l, d, d1, i, i2, f, from, to)
  {
    forall g, off: nat {:trigger FileByte(l, d1, i2[g], off)} {:trigger FileByte(l, d, i[g], off)} | g in i
      ensures FileByte(l, d1, i2[g], off) ==
              if g == f && from <= BlockIndex(l, off) < to then 0 else FileByte(l, d, i[g], off)
    {
      assert FileByte(l, d1, i2[g], off) == FileByte(l, d1, i1[g], off);
    }
  }

  lemma CutEndTrimmed(l: Layout, d: Disk, d1: Disk, i: map<nat, Inode>, i1: map<nat, Inode>, i2: map<nat, Inode>,
                      a: Inode, c: Inode, from: nat, to: nat)
    requires a.number in i && i[a.number] == a && AllTrimmed(l, d, i, 0) && 0 !in i
    requires Freed(l, d, d1, i, i1, a.number, from, to) && a.number in i1
    requires from == BlocksFor(l, c.size) && to == BlocksFor(l, a.size)
    requires i2 == i[a.number := c] && i2[a.number].blocks == i1[a.number].blocks && i2 == i1[a.number := c]
    requires Compact(l, c, from)
    ensures AllTrimmed(l, d1, i2, 0)
  {
    hide BlocksFor;
    forall g | g in i2 && g != 0 ensures Trimmed(l, d1, i2[g], BlocksFor(l, i2[g].size)) {
      assert Trimmed(l, d, i[g], BlocksFor(l, i[g].size));
      forall j: nat | j >= BlocksFor(l, i2[g].size) ensures PtrAt(d1, i2[g].blocks, PathOf(l, j)) == 0 {
        assert PtrAt(d1, i1[g].blocks, PathOf(l, j)) ==
               if g == a.number && from <= j < to then 0 else PtrAt(d, i[g].blocks, PathOf(l, j));
      }
    }
  }

  lemma CutFlushed(l: Layout, d: Disk, d2: Disk, d3: Disk, i: map<nat, Inode>, i2: map<nat, Inode>, f: nat, from: nat, to: nat)
    requires Cut(l, d, d2, i, i2, f, from, to) && AllTrimmed(l, d2, i2, 0)
    requires SameContents(l, d2, d3, i2, i2) && PointersKept(l, d2, d3, i2, i2, 0, -1)
    ensures Cut(l, d, d3, i, i2, f, from, to) && AllTrimmed(l, d3, i2, 0)
  {
    forall g, off: nat {:trigger FileByte(l, d3, i2[g], off)} {:trigger FileByte(l, d, i[g], off)} | g in i
      ensures FileByte(l, d3, i2[g], off) ==
              if g == f && from <= BlockIndex(l, off) < to then 0 else FileByte(l, d, i[g], off)
    {
      assert FileByte(l, d3, i2[g], off) == FileByte(l, d2, i2[g], off);
    }
    OthersTrimmed(l, d2, d3, i2, i2, 0, -1);
  }

  lemma BlocksForIs(l: Layout, size: nat)
    requires l.blockSize > 0
    ensures BlocksFor(l, size) == (size + l.blockSize - 1) / l.blockSize
  {}
}
