/** What each step of `Fs` does to the volume, as facts about the disk before and after. */
module Ext2Steps {
  import opened Common
  import opened Ext2Bits
  import opened Ext2Layout
  import opened Ext2Alloc
  import opened Ext2Map
  import opened Ext2Volume
  import opened Ext2Inode

  /** Every block of a group is in use. */
  ghost predicate AllMarked(l: Layout, disk: Disk, g: nat)
  {
    forall i :: 0 <= i < l.Limit(Blocks, g) ==> Marked(disk, l.Map(Blocks, g), i)
  }

  lemma ScanFacts(l: Layout, disk: Disk, group: nat)
    requires l.Ok() && l.Shaped(disk) && l.Described(disk)
    ensures l.DescAt(group) + 32 <= l.blockSize
    ensures group >= l.Groups() ==> l.Limit(Blocks, group) <= 0
    ensures group < l.Groups() ==>
              && l.DescBlock(group) < l.blocksCount && l.Map(Blocks, group) < l.blocksCount
              && Word(disk, l.DescBlock(group), l.DescAt(group)) == l.Map(Blocks, group)
              && 0 < l.Limit(Blocks, group) <= 8 * l.blockSize
  {
    DescInBlock(l, group);
    GroupEnd(l, group);
    if group < l.Groups() {
      assert l.DescribedAt(disk, group);
      BookkeepingApart(l, Blocks, group, group);
      LimitFits(l, Blocks, group);
    }
  }

  lemma ToggledIs(l: Layout, d: Disk, d': Disk, w: Which, g: nat, i: nat, on: bool)
    requires l.Map(w, g) < |d| && i / 8 < |d[l.Map(w, g)]| && d' == d[l.Map(w, g) := SetBit(d[l.Map(w, g)], i, on)]
    ensures Toggled(l, d, d', w, g, i, on)
  {}

  lemma TakeFacts(l: Layout, disk: Disk, fb: nat, fi: nat, g: nat, i: nat)
    requires Booked(l, disk, fb, fi) && g < l.Groups() && i < l.Limit(Blocks, g)
    ensures l.Ok() && l.Shaped(disk) && l.Map(Blocks, g) < l.blocksCount == |disk|
    ensures |disk[l.Map(Blocks, g)]| == l.blockSize > i / 8
    ensures l.DescAt(g) + 32 <= l.blockSize && l.GroupFirst(g) + i < l.blocksCount < 0x1_0000_0000
  {
    LimitFits(l, Blocks, g);
    NumberOf(l, g, i);
    BookkeepingApart(l, Blocks, g, g);
    DescInBlock(l, g);
  }

  lemma DescInBlock(l: Layout, g: nat)
    requires l.Geometry()
    ensures l.DescAt(g) + 32 <= l.blockSize
  {
    assert g % l.DescPerBlock() < l.DescPerBlock();
  }

  /** The scan covers every group, and past the last one there is nothing to find. */
  lemma GroupEnd(l: Layout, group: nat)
    requires l.Geometry()
    ensures var groups := (l.blocksCount + l.blocksPerGroup - 1) / l.blocksPerGroup;
            && l.Groups() <= groups
            && (group < groups ==> l.GroupFirst(group) <= l.blocksCount)
            && (group >= l.Groups() ==> l.Limit(Blocks, group) <= 0)
  {
    CeilMath(l.blocksCount, l.blocksPerGroup, l.Groups(), group);
    if group >= l.Groups() {
      MulMono(l.Groups(), group, l.blocksPerGroup);
    }
  }

  lemma CeilMath(n: nat, per: nat, k: nat, g: nat)
    requires per > 0 && k > 0 && (k - 1) * per < n
    ensures k <= (n + per - 1) / per
    ensures g < (n + per - 1) / per ==> g * per < n
  {
    var q := (n + per - 1) / per;
    assert n + per - 1 == q * per + (n + per - 1) % per;
    if q < k {
      MulMono(q, k - 1, per);
    }
    if g < q {
      MulMono(g + 1, q, per);
    }
  }

  /** No block is free. */
  ghost predicate Exhausted(l: Layout, disk: Disk)
  {
    forall n: nat :: l.firstDataBlock <= n < l.blocksCount ==> n in Used(l, disk)
  }

  lemma ReachesPast(at: nat, size: nat, limit: nat)
    requires size > 0 && at / size >= limit
    ensures at >= limit * size
  {
    MulMono(limit, at / size, size);
  }

  lemma PastEnd(l: Layout, disk: Disk, group: nat)
    requires l.Ok() && l.Shaped(disk) && group >= l.Groups()
    requires forall g :: 0 <= g < group && g < l.Groups() ==> AllMarked(l, disk, g)
    ensures Exhausted(l, disk)
  {
    forall n: nat | l.firstDataBlock <= n < l.blocksCount ensures n in Used(l, disk) {
      PlaceOf(l, n);
      assert AllMarked(l, disk, l.GroupOf(n));
    }
  }

  lemma ResolveFacts(l: Layout, disk: Disk, fb: nat, fi: nat, ino: map<nat, Inode>, owner: map<nat, Claim>, inode: Inode)
    requires Volume(l, disk, fb, fi, ino, owner) && inode.number in ino && ino[inode.number] == inode
    ensures l.Geometry() && l.Shaped(disk) && Tree(l, disk, ino, owner) && |inode.blocks| == 15
    ensures forall index: nat :: PathOf(l, index) != [] ==> ValidPath(l, PathOf(l, index))
  {
    forall index: nat | PathOf(l, index) != [] ensures ValidPath(l, PathOf(l, index)) {
      PathOfIsLeaf(l, index);
    }
  }

  lemma PathAtIs(l: Layout, at: nat)
    requires l.blockSize > 0
    ensures PathAt(l, at) == PathOf(l, at / l.blockSize)
  {}

  lemma ChunkMath(at: nat, size: nat, j: nat)
    requires size > 0 && j < size - at % size
    ensures (at + j) / size == at / size && (at + j) % size == at % size + j
  {
    DivModOf(at / size, at % size + j, size);
  }

  lemma ReadFacts(l: Layout, disk: Disk, ino: map<nat, Inode>, owner: map<nat, Claim>, inode: Inode, at: nat)
    requires l.Geometry() && l.Shaped(disk) && Tree(l, disk, ino, owner) && inode.number in ino && ino[inode.number] == inode
    ensures var n := PtrAt(disk, inode.blocks, PathOf(l, at / l.blockSize));
            n != 0 ==> n < |disk| && |disk[n]| == l.blockSize
  {
    if PathOf(l, at / l.blockSize) != [] {
      PathOfIsLeaf(l, at / l.blockSize);
      if PtrAt(disk, inode.blocks, PathOf(l, at / l.blockSize)) != 0 {
        InRange(l, disk, ino, owner, inode, PathOf(l, at / l.blockSize));
      }
    }
  }

  lemma ByteOf(l: Layout, disk: Disk, inode: Inode, at: nat, j: nat)
    requires l.blockSize > 0 && j < l.blockSize - at % l.blockSize
    ensures var n := PtrAt(disk, inode.blocks, PathOf(l, at / l.blockSize));
            n < |disk| && |disk[n]| == l.blockSize ==>
              FileByte(l, disk, inode, at + j) == if n == 0 then 0 else disk[n][at % l.blockSize + j]
    ensures PtrAt(disk, inode.blocks, PathOf(l, at / l.blockSize)) == 0 ==> FileByte(l, disk, inode, at + j) == 0
  {
    ChunkMath(at, l.blockSize, j);
  }

  lemma PathOfCases(l: Layout, index: nat)
    requires l.blockSize / 4 > 0
    ensures var per := l.blockSize / 4;
            PathOf(l, index) ==
               (if index < 12 then [index] + Digits(per, 0, 0)
                else if index < 12 + per then [12] + Digits(per, 1, index - 12)
                else if index < 12 + per + per * per then [13] + Digits(per, 2, index - 12 - per)
                else if index < 12 + per + per * per + per * per * per
                then [14] + Digits(per, 3, index - 12 - per - per * per) else [])
  {}

  lemma DescendStart(disk: Disk, blocks: seq<u32>, p: Path, top: nat)
    requires p != [] && p[0] == top < |blocks|
    ensures PtrAt(disk, blocks, p[..1]) == blocks[top]
  {
    assert p[..1] == [top];
  }

  lemma DescendStep(l: Layout, disk: Disk, ino: map<nat, Inode>, owner: map<nat, Claim>, inode: Inode,
                    p: Path, k: nat, level: nat, within: nat)
    requires l.Shaped(disk) && Tree(l, disk, ino, owner) && inode.number in ino && ino[inode.number] == inode
    requires ValidPath(l, p) && 1 <= k <= |p| && PtrAt(disk, inode.blocks, p[..k]) != 0
    requires level > 0 && l.blockSize / 4 > 0 && p[k..] == Digits(l.blockSize / 4, level, within)
    ensures Power(l.blockSize / 4, level - 1) > 0
    ensures k < |p| && p[k] == within / Power(l.blockSize / 4, level - 1)
    ensures p[k + 1..] == Digits(l.blockSize / 4, level - 1, within % Power(l.blockSize / 4, level - 1))
    ensures PtrAt(disk, inode.blocks, p[..k]) < |disk| && 4 * p[k] + 4 <= |disk[PtrAt(disk, inode.blocks, p[..k])]|
    ensures PtrAt(disk, inode.blocks, p[..k + 1]) == Get32(disk[PtrAt(disk, inode.blocks, p[..k])], 4 * p[k])
  {
    PowerPositive(l.blockSize / 4, level - 1);
    InRange(l, disk, ino, owner, inode, p[..k]);
    assert p[k] == p[k..][0] && p[k..][1..] == p[k + 1..];
    assert p[..k + 1][..k] == p[..k];
  }

  /** Below a hole there are only holes. */
  lemma {:induction false} HoleBelow(disk: Disk, blocks: seq<u32>, p: Path, k: nat)
    requires 1 <= k <= |p| && PtrAt(disk, blocks, p[..k]) == 0
    ensures PtrAt(disk, blocks, p) == 0
    decreases |p| - k
  {
    if k < |p| {
      assert p[..k + 1][..k] == p[..k];
      HoleBelow(disk, blocks, p, k + 1);
    } else {
      assert p[..k] == p;
    }
  }

  /** A pointer met on the way down names a block of the volume. */
  lemma InRange(l: Layout, disk: Disk, ino: map<nat, Inode>, owner: map<nat, Claim>, inode: Inode, p: Path)
    requires l.Shaped(disk) && Tree(l, disk, ino, owner) && inode.number in ino && ino[inode.number] == inode
    requires ValidPath(l, p) && PtrAt(disk, inode.blocks, p) != 0
    ensures PtrAt(disk, inode.blocks, p) < |disk| && |disk[PtrAt(disk, inode.blocks, p)]| == l.blockSize
  {
    var n := PtrAt(disk, inode.blocks, p);
    assert OwnedAt(l, disk, ino, owner, inode.number, p) && ClaimHolds(l, disk, ino, owner, n);
  }

  /** The fields an allocation leaves alone. */
  predicate SameIdentity(i: Inode, j: Inode)
  {
    && j.number == i.number && j.kind == i.kind && j.size == i.size && j.links == i.links
    && |j.blocks| == 15 == |i.blocks| && j.blocks[13] == i.blocks[13] && j.blocks[14] == i.blocks[14]
  }

  /** Work on a directly mapped block leaves the indirect block's pointer alone. */
  predicate SameIndirect(i: Inode, j: Inode, index: int)
  {
    index < 12 ==> |i.blocks| == |j.blocks| == 15 && j.blocks[12] == i.blocks[12]
  }

  lemma SameIndirectIs(i: Inode, j: Inode, index: int)
    requires index < 12 ==> |i.blocks| == |j.blocks| == 15 && j.blocks[12] == i.blocks[12]
    ensures SameIndirect(i, j, index)
  {}

  lemma GrabbedNonzero(l: Layout, d: Disk, d': Disk, n: nat)
    requires Grabbed(l, d, d', n)
    ensures n != 0 && n !in Used(l, d)
  {}

  lemma FilledSlot(l: Layout, d: Disk, d': Disk, ino: map<nat, Inode>, ino': map<nat, Inode>, owner: map<nat, Claim>,
                   inode: Inode, inode': Inode, slot: nat, n: u32)
    requires l.Geometry() && Owned(l, d, Used(l, d), ino, owner) && Grabbed(l, d, d', n)
    requires inode.number in ino && ino[inode.number] == inode && slot <= 12 && |inode.blocks| == 15
    requires inode.blocks[slot] == 0
    requires inode' == inode.(blocks := inode.blocks[slot := n], sectors := inode.sectors + l.blockSize / 512)
    requires ino' == ino[inode.number := inode']
    ensures Owned(l, d', Used(l, d'), ino', owner[n := Claim(inode.number, [slot])])
    ensures OnlyPtr(l, d, d', ino, ino', inode.number, [slot], n) && SameContents(l, d, d', ino, ino')
    ensures SameTables(l, d, d') && SameIdentity(inode, inode')
  {
    assert ino'.Keys == ino.Keys;
    GrabIntoSlot(l, d, d', ino, ino', owner, inode.number, slot, n);
  }

  /** Block `n` holds nothing but zeroes. */
  ghost predicate Blank(l: Layout, d: Disk, n: nat)
  {
    n < |d| && |d[n]| == l.blockSize && forall i :: 0 <= i < |d[n]| ==> d[n][i] == 0
  }

  lemma GrabbedBlank(l: Layout, d: Disk, d': Disk, n: nat)
    requires Grabbed(l, d, d', n)
    ensures Blank(l, d', n)
  {}

  lemma StillBlank(l: Layout, d: Disk, d1: Disk, d2: Disk, m: nat, n: nat, ino: map<nat, Inode>, owner: map<nat, Claim>, i: Inode)
    requires Grabbed(l, d, d1, n) && Owned(l, d, Used(l, d), ino, owner) && i.number in ino && ino[i.number] == i
    requires |i.blocks| == 15 && i.blocks[12] == m != 0
    requires m < |d1| == |d2| && forall k :: 0 <= k < |d1| && k != m ==> d2[k] == d1[k]
    ensures Blank(l, d2, n)
  {
    assert PtrAt(d, i.blocks, [12]) == m;
    assert OwnedAt(l, d, ino, owner, i.number, [12]) && ClaimHolds(l, d, ino, owner, m);
  }

  /** A file block that was there was found with nothing changed; one that was not is new and blank. */
  ghost predicate FoundOrBlank(l: Layout, d: Disk, d': Disk, i: Inode, i': Inode, index: nat, n: nat)
  {
    if PtrAt(d, i.blocks, PathOf(l, index)) != 0 then d' == d && i' == i else Blank(l, d', n)
  }

  lemma FoundIs(l: Layout, d: Disk, i: Inode, index: nat, n: nat)
    requires PtrAt(d, i.blocks, PathOf(l, index)) == n != 0
    ensures FoundOrBlank(l, d, d, i, i, index, n)
  {}

  lemma BlankIs(l: Layout, d: Disk, d': Disk, i: Inode, i': Inode, index: nat, n: nat)
    requires PtrAt(d, i.blocks, PathOf(l, index)) == 0 && Blank(l, d', n)
    ensures FoundOrBlank(l, d, d', i, i', index, n)
  {}

  lemma BlankAgain(l: Layout, d: Disk, d1: Disk, d2: Disk, i: Inode, i1: Inode, i2: Inode, index: nat, n: nat)
    requires FoundOrBlank(l, d1, d2, i1, i2, index, n)
    requires PtrAt(d, i.blocks, PathOf(l, index)) == PtrAt(d1, i1.blocks, PathOf(l, index)) == 0
    ensures FoundOrBlank(l, d, d2, i, i2, index, n)
  {}

  /** File block `index` is `n` now, and was `n` before unless it was a hole. */
  predicate Resolved(l: Layout, d: Disk, d': Disk, i: Inode, i': Inode, index: nat, n: nat)
  {
    var p := PathOf(l, index);
    p != [] && n != 0 && PtrAt(d', i'.blocks, p) == n && (PtrAt(d, i.blocks, p) in {0, n})
  }

  lemma ResolvedIs(l: Layout, d: Disk, d': Disk, i: Inode, i': Inode, index: nat, n: nat)
    requires PathOf(l, index) != [] && n != 0 && PtrAt(d', i'.blocks, PathOf(l, index)) == n
    requires PtrAt(d, i.blocks, PathOf(l, index)) == n
    ensures Resolved(l, d, d', i, i', index, n)
  {}

  /** Every file block but block `index` of file `f` resolves as it did. */
  ghost predicate PointersKept(l: Layout, d: Disk, d': Disk, ino: map<nat, Inode>, ino': map<nat, Inode>,
                               f: nat, index: int)
  {
    && ino'.Keys == ino.Keys
    && forall g, j: nat :: g in ino && !(g == f && j == index) ==>
         PtrAt(d', ino'[g].blocks, PathOf(l, j)) == PtrAt(d, ino[g].blocks, PathOf(l, j))
  }

  /** Every block of every file but `f` resolves as it did, from the inode it had. */
  ghost predicate OthersKept(l: Layout, d: Disk, d': Disk, ino: map<nat, Inode>, ino': map<nat, Inode>, f: nat)
  {
    && ino'.Keys == ino.Keys
    && (forall g :: g in ino && g != f ==> ino'[g] == ino[g])
    && forall g, j: nat :: g in ino && g != f ==>
         PtrAt(d', ino'[g].blocks, PathOf(l, j)) == PtrAt(d, ino[g].blocks, PathOf(l, j))
  }

  lemma AllSame(l: Layout, d: Disk, ino: map<nat, Inode>, f: nat, index: int)
    ensures PointersKept(l, d, d, ino, ino, f, index)
  {}

  lemma PathOfDirect(l: Layout, d: Disk, blocks: seq<u32>, index: nat)
    requires index < 12 < |blocks| && l.blockSize / 4 > 0
    ensures PathOf(l, index) == [index] && PtrAt(d, blocks, PathOf(l, index)) == blocks[index]
  {}

  /** A data position is set: that file block resolves to it and no other changes. */
  lemma LeafSet(l: Layout, d: Disk, d': Disk, ino: map<nat, Inode>, ino': map<nat, Inode>, i: Inode, i': Inode,
                p: Path, n: nat, index: nat)
    requires l.Geometry() && i.number in ino && ino[i.number] == i && ino' == ino[i.number := i'] && n != 0
    requires OnlyPtr(l, d, d', ino, ino', i.number, p, n) && p == PathOf(l, index) && PtrAt(d, i.blocks, p) == 0
    ensures Resolved(l, d, d', i, i', index, n) && PointersKept(l, d, d', ino, ino', i.number, index)
  {
    var c := Claim(i.number, p);
    forall g, j: nat | g in ino && !(g == i.number && j == index)
      ensures PtrAt(d', ino'[g].blocks, PathOf(l, j)) == PtrAt(d, ino[g].blocks, PathOf(l, j))
    {
      if PathOf(l, j) != [] {
        PathOfIsLeaf(l, j);
        var e := Claim(g, PathOf(l, j));
        if PathOf(l, j) == p {
          PathOfInjective(l, j, index);
        }
      }
    }
  }

  /** A change at a pointer block's own position changes no file block. */
  lemma ElsewhereSet(l: Layout, d: Disk, d': Disk, ino: map<nat, Inode>, ino': map<nat, Inode>, f: nat, n: nat, index: int)
    requires l.Geometry() && OnlyPtr(l, d, d', ino, ino', f, [12], n)
    ensures PointersKept(l, d, d', ino, ino', f, index) && PointersKept(l, d, d', ino, ino', f, -1)
  {
    forall g, j: nat | g in ino ensures PtrAt(d', ino'[g].blocks, PathOf(l, j)) == PtrAt(d, ino[g].blocks, PathOf(l, j)) {
      if PathOf(l, j) != [] {
        PathOfIsLeaf(l, j);
        var e := Claim(g, PathOf(l, j));
      }
    }
  }

  lemma KeptAt(l: Layout, d: Disk, d': Disk, ino: map<nat, Inode>, ino': map<nat, Inode>, i: Inode, i': Inode, index: nat)
    requires PointersKept(l, d, d', ino, ino', i.number, -1)
    requires i.number in ino && ino[i.number] == i && ino' == ino[i.number := i']
    ensures PtrAt(d', i'.blocks, PathOf(l, index)) == PtrAt(d, i.blocks, PathOf(l, index))
  {
    assert PtrAt(d', ino'[i.number].blocks, PathOf(l, index)) == PtrAt(d, ino[i.number].blocks, PathOf(l, index));
  }

  lemma Compose(l: Layout, d: Disk, d1: Disk, d2: Disk, i: map<nat, Inode>, i1: map<nat, Inode>, i2: map<nat, Inode>,
                a: Inode, b: Inode, c: Inode, index: nat)
    requires a.number in i && i[a.number] == a && i1 == i[a.number := b] && i2 == i1[b.number := c]
    requires SameIdentity(a, b) && SameIdentity(b, c)
    requires SameTables(l, d, d1) && SameTables(l, d1, d2)
    requires SameContents(l, d, d1, i, i1) && SameContents(l, d1, d2, i1, i2)
    requires PointersKept(l, d, d1, i, i1, a.number, -1) && PointersKept(l, d1, d2, i1, i2, b.number, index)
    ensures i2 == i[a.number := c] && SameIdentity(a, c) && SameTables(l, d, d2) && SameContents(l, d, d2, i, i2)
    ensures PointersKept(l, d, d2, i, i2, a.number, index)
    ensures forall n: nat :: Resolved(l, d1, d2, b, c, index, n) ==> Resolved(l, d, d2, a, c, index, n)
  {
    assert forall g, off: nat :: g in i ==> FileByte(l, d1, i1[g], off) == FileByte(l, d, i[g], off);
    assert PtrAt(d1, i1[a.number].blocks, PathOf(l, index)) == PtrAt(d, i[a.number].blocks, PathOf(l, index));
    forall g, j: nat | g in i && !(g == a.number && j == index)
      ensures PtrAt(d2, i2[g].blocks, PathOf(l, j)) == PtrAt(d, i[g].blocks, PathOf(l, j))
    {
      assert PtrAt(d1, i1[g].blocks, PathOf(l, j)) == PtrAt(d, i[g].blocks, PathOf(l, j));
    }
  }

  lemma EntryFacts(l: Layout, d: Disk, ino: map<nat, Inode>, owner: map<nat, Claim>, inode: Inode, k: nat)
    requires l.Geometry() && l.Shaped(d) && Tree(l, d, ino, owner) && inode.number in ino && ino[inode.number] == inode
    requires |inode.blocks| == 15 && inode.blocks[12] != 0 && k < l.blockSize / 4
    ensures inode.blocks[12] < |d| && 4 * k + 4 <= |d[inode.blocks[12]]|
    ensures PtrAt(d, inode.blocks, [12, k]) == Get32(d[inode.blocks[12]], 4 * k)
  {
    assert PtrAt(d, inode.blocks, [12]) == inode.blocks[12];
    InRange(l, d, ino, owner, inode, [12]);
    assert [12, k][..1] == [12];
  }

  lemma IndirectFacts(l: Layout, d: Disk, d': Disk, fb: nat, fi: nat, ino: map<nat, Inode>, owner: map<nat, Claim>,
                      inode: Inode)
    requires l.Geometry() && l.Shaped(d) && Tree(l, d, ino, owner) && inode.number in ino && ino[inode.number] == inode
    requires |inode.blocks| == 15 && inode.blocks[12] != 0 && Booked(l, d', fb, fi)
    ensures inode.blocks[12] < |d'| && |d'[inode.blocks[12]]| == l.blockSize && l.blockSize / 4 * 4 <= l.blockSize
  {
    EntryFacts(l, d, ino, owner, inode, 0);
  }

  lemma FilledEntry(l: Layout, d: Disk, d1: Disk, d2: Disk, fb: nat, fi: nat, ino: map<nat, Inode>,
                    ino': map<nat, Inode>, owner: map<nat, Claim>, inode: Inode, inode': Inode, k: nat, n: u32)
    requires Owned(l, d, Used(l, d), ino, owner) && Grabbed(l, d, d1, n) && Booked(l, d1, fb, fi)
    requires inode.number in ino && ino[inode.number] == inode && |inode.blocks| == 15 && inode.blocks[12] != 0
    requires k < l.blockSize / 4 && PtrAt(d, inode.blocks, [12, k]) == 0
    requires inode' == inode.(sectors := inode.sectors + l.blockSize / 512) && ino' == ino[inode.number := inode']
    requires var i := inode.blocks[12];
             i < |d1| && 4 * k + 4 <= |d1[i]| == l.blockSize && d2 == d1[i := Put32(d1[i], 4 * k, n)]
    ensures Booked(l, d2, fb, fi) && Owned(l, d2, Used(l, d2), ino', owner[n := Claim(inode.number, [12, k])])
    ensures OnlyPtr(l, d, d2, ino, ino', inode.number, [12, k], n) && SameContents(l, d, d2, ino, ino')
    ensures SameTables(l, d, d2) && SameIdentity(inode, inode')
  {
    hide *;
    BookedFacts(l, d1, fb, fi);
    IndirectIsData(l, d, ino, owner, inode);
    DataWriteBooked(l, d1, d2, fb, fi, inode.blocks[12]);
    CountsOneMore(l, ino, ino', inode, inode');
    GrabIntoEntry(l, d, d1, d2, ino, ino', owner, inode.number, k, n);
    EntryTables(l, d, d1, d2, inode.blocks[12], n, inode, inode');
  }

  lemma IndirectIsData(l: Layout, d: Disk, ino: map<nat, Inode>, owner: map<nat, Claim>, inode: Inode)
    requires Owned(l, d, Used(l, d), ino, owner) && inode.number in ino && ino[inode.number] == inode
    requires |inode.blocks| == 15 && inode.blocks[12] != 0
    ensures inode.blocks[12] !in l.roles
  {
    assert PtrAt(d, inode.blocks, [12]) == inode.blocks[12];
    assert OwnedAt(l, d, ino, owner, inode.number, [12]) && ClaimHolds(l, d, ino, owner, inode.blocks[12]);
  }

  lemma CountsOneMore(l: Layout, ino: map<nat, Inode>, ino': map<nat, Inode>, i: Inode, i': Inode)
    requires i.number in ino && ino[i.number] == i && ino' == ino[i.number := i']
    requires i' == i.(sectors := i.sectors + l.blockSize / 512)
    ensures Counts(l, ino, ino', i.number, true)
  {}

  lemma EntryTables(l: Layout, d: Disk, d1: Disk, d2: Disk, m: nat, n: nat, i: Inode, i': Inode)
    requires Grabbed(l, d, d1, n) && m !in l.roles && m < |d1| == |d2| && |i.blocks| == 15
    requires forall k :: 0 <= k < |d1| && k != m ==> d2[k] == d1[k]
    requires i' == i.(sectors := i'.sectors)
    ensures SameTables(l, d, d2) && SameIdentity(i, i')
  {}

  // ----- trimming -----

  /** No data block of `i` lies at or past file block `limit`, and no indirect block leads only there. */
  ghost predicate Trimmed(l: Layout, d: Disk, i: Inode, limit: nat)
  {
    Compact(l, i, limit) && forall j: nat :: j >= limit ==> PtrAt(d, i.blocks, PathOf(l, j)) == 0
  }

  predicate Compact(l: Layout, i: Inode, limit: nat)
  {
    var per := l.blockSize / 4;
    && |i.blocks| == 15
    && (limit <= 12 ==> i.blocks[12] == 0)
    && (limit <= 12 + per ==> i.blocks[13] == 0)
    && (limit <= 12 + per + per * per ==> i.blocks[14] == 0)
  }

  /** How many blocks `size` bytes reach into. */
  function BlocksFor(l: Layout, size: nat): nat
  {
    if l.blockSize == 0 then 0 else (size + l.blockSize - 1) / l.blockSize
  }

  ghost predicate AllTrimmed(l: Layout, d: Disk, ino: map<nat, Inode>, except: nat)
  {
    forall g :: g in ino && g != except ==> Trimmed(l, d, ino[g], BlocksFor(l, ino[g].size))
  }

  // ----- writing an inode back -----

  /** `inode` fits its slot, and the slot was made for an inode of its kind. */
  predicate Slotted(l: Layout, d: Disk, i: Inode)
  {
    && l.inodesPerGroup > 0 && 0 < i.number <= l.inodesCount && Fits(i)
    && SlotBlock(l, i.number) < |d| && SlotAt(l, i.number) + 112 <= |d[SlotBlock(l, i.number)]|
    && KindOf(Get16(d[SlotBlock(l, i.number)], SlotAt(l, i.number))) == i.kind
  }

  lemma LiveSlotted(l: Layout, d: Disk, fb: nat, fi: nat, ino: map<nat, Inode>, owner: map<nat, Claim>, i: Inode)
    requires Volume(l, d, fb, fi, ino, owner) && Synced(l, d, ino, 0) && 0 !in ino && i.number in ino && ino[i.number] == i
    ensures Slotted(l, d, i) && Synced(l, d, ino, i.number)
  {
    hide Volume;
    assert SyncedAt(l, d, i, i.number);
  }

  lemma FlushFacts(l: Layout, d: Disk, fb: nat, fi: nat, i: Inode)
    requires Booked(l, d, fb, fi) && Slotted(l, d, i)
    ensures l.inodesPerGroup > 0 && i.number > 0 && l.InodesPerBlock() > 0 && Fits(i)
    ensures var index := i.number - 1;
            var g, w := index / l.inodesPerGroup, index % l.inodesPerGroup;
            && g >= 0 && l.DescBlock(g) < |d| && l.DescAt(g) + 12 <= |d[l.DescBlock(g)]|
            && Get32(d[l.DescBlock(g)], l.DescAt(g) + 8) + w / l.InodesPerBlock() == SlotBlock(l, i.number)
            && w % l.InodesPerBlock() * l.inodeSize == SlotAt(l, i.number)
    ensures SlotBlock(l, i.number) < |d| && SlotAt(l, i.number) + 112 <= |d[SlotBlock(l, i.number)]|
  {
    hide *;
    BookedFacts(l, d, fb, fi);
    SlottedFacts(l, d, i);
    InodeGroup(l, i.number);
    SlotIs(l, i.number);
    TableField(l, d, (i.number - 1) / l.inodesPerGroup);
  }

  /** `inode_location`: the descriptor's table pointer leads to the inode's slot. */
  lemma LocateFacts(l: Layout, d: Disk, fb: nat, fi: nat, number: nat)
    requires Booked(l, d, fb, fi) && 0 < number <= l.inodesCount
    ensures l.inodesPerGroup > 0 && l.InodesPerBlock() > 0
    ensures var index := number - 1;
            var g, w := index / l.inodesPerGroup, index % l.inodesPerGroup;
            && g >= 0 && l.DescBlock(g) < |d| && l.DescAt(g) + 12 <= |d[l.DescBlock(g)]|
            && Get32(d[l.DescBlock(g)], l.DescAt(g) + 8) + w / l.InodesPerBlock() == SlotBlock(l, number)
            && w % l.InodesPerBlock() * l.inodeSize == SlotAt(l, number)
    ensures SlotBlock(l, number) < |d| && |d[SlotBlock(l, number)]| == l.blockSize
    ensures SlotAt(l, number) + l.inodeSize <= l.blockSize && l.inodeSize >= 128
  {
    hide *;
    BookedFacts(l, d, fb, fi);
    InodeGroup(l, number);
    SlotIs(l, number);
    SlotPlaced(l, number);
    TableField(l, d, (number - 1) / l.inodesPerGroup);
  }

  lemma SlotIs(l: Layout, number: nat)
    requires l.inodesPerGroup > 0 && number > 0
    ensures l.InodesPerBlock() > 0
    ensures SlotBlock(l, number) == l.TableOf((number - 1) / l.inodesPerGroup) + (number - 1) % l.inodesPerGroup / l.InodesPerBlock()
    ensures SlotAt(l, number) == (number - 1) % l.inodesPerGroup % l.InodesPerBlock() * l.inodeSize
  {}

  lemma {:induction false} InodeGroup(l: Layout, number: nat)
    requires l.Geometry() && 0 < number <= l.inodesCount
    ensures l.inodesPerGroup > 0 && 0 <= (number - 1) / l.inodesPerGroup < l.Groups()
  {
    InodeMath(number - 1, l.inodesPerGroup, l.Groups());
  }

  lemma InodeMath(m: nat, per: nat, groups: nat)
    requires per > 0 && m < groups * per
    ensures 0 <= m / per < groups
  {
    MixedRadix(m, per, groups);
  }

  lemma TableField(l: Layout, d: Disk, g: nat)
    requires l.Ok() && l.Shaped(d) && l.Described(d) && g < l.Groups()
    ensures l.DescBlock(g) < |d| && l.DescAt(g) + 12 <= |d[l.DescBlock(g)]|
    ensures Get32(d[l.DescBlock(g)], l.DescAt(g) + 8) == l.TableOf(g)
  {
    assert l.DescribedAt(d, g);
  }

  lemma FlushedInode(l: Layout, d: Disk, d': Disk, fb: nat, fi: nat, ino: map<nat, Inode>, owner: map<nat, Claim>, i: Inode)
    requires Booked(l, d, fb, fi) && Owned(l, d, Used(l, d), ino, owner) && Slotted(l, d, i)
    requires var n, o := SlotBlock(l, i.number), SlotAt(l, i.number); d' == d[n := Patched(d[n], o, i)]
    ensures Booked(l, d', fb, fi) && Owned(l, d', Used(l, d'), ino, owner)
    ensures SyncedAt(l, d', i, i.number) && SlotsKept(l, d, d', i.number)
    ensures SameContents(l, d, d', ino, ino) && PointersKept(l, d, d', ino, ino, 0, -1) && SameInodeMaps(l, d, d')
  {
    hide *;
    BookedFacts(l, d, fb, fi);
    SlottedFacts(l, d, i);
    TableWriteMaps(l, d, d', SlotBlock(l, i.number));
    DataWriteBooked(l, d, d', fb, fi, SlotBlock(l, i.number));
    FlushSyncs(l, d, d', i);
    MetaWrite(l, d, d', Used(l, d), ino, owner, SlotBlock(l, i.number));
  }

  lemma TableWriteMaps(l: Layout, d: Disk, d': Disk, n: nat)
    requires l.Ok() && l.Shaped(d) && n in l.roles && l.roles[n].Table? && |d'| == |d|
    requires forall m :: 0 <= m < |d| && m != n ==> d'[m] == d[m]
    ensures SameInodeMaps(l, d, d')
  {
    forall g | 0 <= g < l.Groups() ensures l.Map(Inodes, g) < |d| && d'[l.Map(Inodes, g)] == d[l.Map(Inodes, g)] {
      assert l.HasRole(l.Map(Inodes, g), Bitmap(Inodes, g));
    }
  }

  lemma ListedEnds(l: Layout, d: Disk, d2: Disk, d3: Disk, i: map<nat, Inode>, i2: map<nat, Inode>)
    requires l.Ok() && l.Shaped(d) && SameTables(l, d, d2) && SameInodeMaps(l, d2, d3)
    requires Listed(l, d, i) && i2.Keys == i.Keys
    ensures Listed(l, d3, i2)
  {
    hide SameTables;
    hide SameInodeMaps;
    hide Listed;
    TablesKeepMaps(l, d, d2);
    ListedFrame(l, d, d2, i, i2);
    ListedFrame(l, d2, d3, i2, i2);
  }

  lemma SlottedFacts(l: Layout, d: Disk, i: Inode)
    requires l.Ok() && l.Shaped(d) && Slotted(l, d, i)
    ensures var n, o := SlotBlock(l, i.number), SlotAt(l, i.number);
            && n in l.roles && l.roles[n].Table? && n < |d| && o + 112 <= |d[n]| == l.blockSize
            && KindOf(Get16(d[n], o)) == i.kind && |Patched(d[n], o, i)| == l.blockSize
    ensures 0 < i.number <= l.inodesCount && Fits(i)
  {
    SlotPlaced(l, i.number);
  }

  /** Rewriting a metadata block changes no file. */
  lemma MetaWrite(l: Layout, d: Disk, d': Disk, used: set<nat>, ino: map<nat, Inode>, owner: map<nat, Claim>, n: nat)
    requires l.Geometry() && Owned(l, d, used, ino, owner) && n in l.roles && |d'| == |d|
    requires forall m :: 0 <= m < |d| && m != n ==> d'[m] == d[m]
    ensures Owned(l, d', used, ino, owner)
    ensures SameContents(l, d, d', ino, ino) && PointersKept(l, d, d', ino, ino, 0, -1)
  {
    OwnedIsData(l, d, ino, owner);
    OwnedFrame(l, d, d', used, ino, owner);
    forall g, off: nat | g in ino ensures FileByte(l, d', ino[g], off) == FileByte(l, d, ino[g], off) {
      var q := PathAt(l, off);
      if q != [] {
        PathOfIsLeaf(l, off / l.blockSize);
        PtrFrame(l, d, d', ino, owner, g, q);
        assert OwnedAt(l, d, ino, owner, g, q);
      }
    }
    PointersSame(l, d, d', ino, owner);
  }

  lemma PointersSame(l: Layout, d: Disk, d': Disk, ino: map<nat, Inode>, owner: map<nat, Claim>)
    requires l.Geometry() && Tree(l, d, ino, owner) && SamePointers(d, d', owner)
    ensures PointersKept(l, d, d', ino, ino, 0, -1)
  {
    forall g, j: nat | g in ino ensures PtrAt(d', ino[g].blocks, PathOf(l, j)) == PtrAt(d, ino[g].blocks, PathOf(l, j)) {
      if PathOf(l, j) != [] {
        PathOfIsLeaf(l, j);
        PtrFrame(l, d, d', ino, owner, g, PathOf(l, j));
      }
    }
  }

  // ----- one block of a write -----

  lemma SameNumber(i: Inode, j: Inode)
    requires SameIdentity(i, j)
    ensures j.number == i.number && j.kind == i.kind && j.size == i.size && j.links == i.links
    ensures |j.blocks| == 15 == |i.blocks| && j.blocks[13] == i.blocks[13] && j.blocks[14] == i.blocks[14]
  {}

  lemma ChunkFacts(l: Layout, d: Disk, d1: Disk, i: map<nat, Inode>, i1: map<nat, Inode>, owner: map<nat, Claim>,
                   a: Inode, b: Inode, index: nat, n: nat, at: nat, len: nat)
    requires l.Geometry() && l.Shaped(d1) && Tree(l, d1, i1, owner) && b.number in i1 && i1[b.number] == b
    requires Resolved(l, d, d1, a, b, index, n) && index < 12 + l.blockSize / 4
    requires index == at / l.blockSize && at % l.blockSize + len <= l.blockSize
    ensures PtrAt(d1, b.blocks, PathOf(l, index)) == n != 0 && n < |d1| && |d1[n]| == l.blockSize
    ensures n !in l.roles && at + len < 0x1_0000_0000
  {
    PathOfIsLeaf(l, index);
    InRange(l, d1, i1, owner, b, PathOf(l, index));
    assert OwnedAt(l, d1, i1, owner, b.number, PathOf(l, index)) && ClaimHolds(l, d1, i1, owner, n);
    assert at == at / l.blockSize * l.blockSize + at % l.blockSize;
    MulMono(index + 1, 12 + 1024, l.blockSize);
  }

  lemma ChunkWritten(l: Layout, d: Disk, d1: Disk, d2: Disk, fb: nat, fi: nat, i: map<nat, Inode>, i1: map<nat, Inode>,
                     owner: map<nat, Claim>, b: Inode, index: nat, n: nat, at: nat, chunk: seq<byte>)
    requires Booked(l, d1, fb, fi) && Owned(l, d1, Used(l, d1), i1, owner) && b.number in i1 && i1[b.number] == b
    requires PtrAt(d1, b.blocks, PathOf(l, index)) == n != 0 && n !in l.roles && n < |d1| && |d1[n]| == l.blockSize
    requires l.blockSize > 0 && index == at / l.blockSize && at % l.blockSize + |chunk| <= l.blockSize
    requires d2 == d1[n := Overwritten(d1[n], at % l.blockSize, chunk)]
    requires SameTables(l, d, d1) && SameContents(l, d, d1, i, i1) && PointersKept(l, d, d1, i, i1, b.number, index)
    ensures Booked(l, d2, fb, fi) && Owned(l, d2, Used(l, d2), i1, owner)
    ensures SameTables(l, d, d2) && Wrote(l, d, d2, i, i1, b.number, at, chunk)
    ensures PointersKept(l, d, d2, i, i1, b.number, index)
  {
    hide *;
    BookedFacts(l, d1, fb, fi);
    OwnedTree(l, d1, Used(l, d1), i1, owner);
    BlockWrite(l, d1, d2, i1, owner, b.number, index, n, at % l.blockSize, chunk);
    DataWriteBooked(l, d1, d2, fb, fi, n);
    OwnedFrame(l, d1, d2, Used(l, d1), i1, owner);
    PointersSame(l, d1, d2, i1, owner);
    ChunkCompose(l, d, d1, d2, i, i1, b.number, index, n, at, chunk);
  }

  lemma OwnedTree(l: Layout, d: Disk, used: set<nat>, ino: map<nat, Inode>, owner: map<nat, Claim>)
    requires Owned(l, d, used, ino, owner)
    ensures Tree(l, d, ino, owner) && Claimed(l, used, owner)
  {}

  lemma ChunkCompose(l: Layout, d: Disk, d1: Disk, d2: Disk, i: map<nat, Inode>, i1: map<nat, Inode>,
                     f: nat, index: nat, n: nat, at: nat, chunk: seq<byte>)
    requires SameTables(l, d, d1) && SameContents(l, d, d1, i, i1) && PointersKept(l, d, d1, i, i1, f, index)
    requires Wrote(l, d1, d2, i1, i1, f, at, chunk) && PointersKept(l, d1, d2, i1, i1, 0, -1)
    requires n !in l.roles && |d1| == |d2| && forall m :: 0 <= m < |d1| && m != n ==> d2[m] == d1[m]
    ensures SameTables(l, d, d2) && Wrote(l, d, d2, i, i1, f, at, chunk) && PointersKept(l, d, d2, i, i1, f, index)
  {
    forall g, off: nat | g in i
      ensures FileByte(l, d2, i1[g], off) ==
              if g == f && at <= off < at + |chunk| then chunk[off - at] else FileByte(l, d, i[g], off)
    {
      assert FileByte(l, d1, i1[g], off) == FileByte(l, d, i[g], off);
    }
    forall g, j: nat | g in i && !(g == f && j == index)
      ensures PtrAt(d2, i1[g].blocks, PathOf(l, j)) == PtrAt(d, i[g].blocks, PathOf(l, j))
    {
      assert PtrAt(d1, i1[g].blocks, PathOf(l, j)) == PtrAt(d, i[g].blocks, PathOf(l, j));
    }
  }

  // ----- a whole write -----

  predicate Grown(i: Inode, j: Inode, end: nat)
  {
    j.number == i.number && j.kind == i.kind && j.links == i.links && j.size == if end > i.size then end else i.size
  }

  lemma GrownIs(i: Inode, j: Inode, end: nat)
    requires Grown(i, j, end)
    ensures j.number == i.number && j.kind == i.kind && j.links == i.links
  {}

  /** How far a write has got: `done` written at `offset` and nothing else, from `(d, i)` to `(d', i')`. */
  ghost predicate Progress(l: Layout, d: Disk, d': Disk, i: map<nat, Inode>, i': map<nat, Inode>, a: Inode, b: Inode,
                           offset: nat, done: seq<byte>)
  {
    && a.number in i && i[a.number] == a && i' == i[a.number := b] && SameIdentity(a, b)
    && SameTables(l, d, d') && Wrote(l, d, d', i, i', a.number, offset, done) && OthersKept(l, d, d', i, i', a.number)
    && Synced(l, d, i, 0) && AllTrimmed(l, d', i', a.number)
    && Trimmed(l, d', b, Max(BlocksFor(l, a.size), BlocksFor(l, offset + |done|)))
  }

  lemma ProgressFacts(l: Layout, d: Disk, d': Disk, i: map<nat, Inode>, i': map<nat, Inode>, a: Inode, b: Inode,
                      offset: nat, done: seq<byte>)
    ensures Progress(l, d, d', i, i', a, b, offset, done) <==>
              && a.number in i && i[a.number] == a && i' == i[a.number := b] && SameIdentity(a, b)
              && SameTables(l, d, d') && Wrote(l, d, d', i, i', a.number, offset, done)
              && OthersKept(l, d, d', i, i', a.number) && Synced(l, d, i, 0) && AllTrimmed(l, d', i', a.number)
              && Trimmed(l, d', b, Max(BlocksFor(l, a.size), BlocksFor(l, offset + |done|)))
  {
    hide Wrote;
    hide Synced;
    hide AllTrimmed;
    hide Trimmed;
    hide SameTables;
    hide OthersKept;
  }

  lemma ProgressStart(l: Layout, d: Disk, i: map<nat, Inode>, a: Inode, offset: nat)
    requires a.number in i && i[a.number] == a && |a.blocks| == 15 && 0 !in i
    requires Synced(l, d, i, 0) && AllTrimmed(l, d, i, 0)
    ensures Progress(l, d, d, i, i, a, a, offset, [])
  {
    hide *;
    NothingDone(l, d, i, a, offset);
    ProgressFacts(l, d, d, i, i, a, a, offset, []);
  }

  lemma NothingDone(l: Layout, d: Disk, i: map<nat, Inode>, a: Inode, offset: nat)
    requires a.number in i && i[a.number] == a && |a.blocks| == 15 && 0 !in i && AllTrimmed(l, d, i, 0)
    ensures i == i[a.number := a] && SameIdentity(a, a) && SameTables(l, d, d) && AllTrimmed(l, d, i, a.number)
    ensures Trimmed(l, d, a, Max(BlocksFor(l, a.size), BlocksFor(l, offset)))
    ensures Wrote(l, d, d, i, i, a.number, offset, []) && OthersKept(l, d, d, i, i, a.number)
  {
    assert Trimmed(l, d, a, BlocksFor(l, a.size));
    hide FileByte;
  }

  lemma ProgressMap(l: Layout, d: Disk, d1: Disk, i: map<nat, Inode>, i1: map<nat, Inode>, a: Inode, b: Inode,
                    offset: nat, done: seq<byte>, i2: map<nat, Inode>, c: Inode)
    requires Progress(l, d, d1, i, i1, a, b, offset, done) && (i2 == i1[b.number := c] || i2 == i1[a.number := c])
    ensures i2 == i[a.number := c] && b.number == a.number && a.number in i1
  {}

  lemma {:induction false} CeilStep(l: Layout, at: nat, len: nat)
    requires l.blockSize > 0 && len > 0
    ensures at / l.blockSize < BlocksFor(l, at + len)
  {
    CeilStepMath(at, len, l.blockSize);
  }

  lemma CeilStepMath(at: nat, len: nat, size: nat)
    requires size > 0 && len > 0
    ensures at / size < (at + len + size - 1) / size
  {
    var n := at + len + size - 1;
    DivModSplit(n, size);
    DivModSplit(at, size);
    if n / size <= at / size {
      MulMono(n / size, at / size, size);
    }
  }

  lemma DivModSplit(n: nat, size: nat)
    requires size > 0
    ensures n == n / size * size + n % size && 0 <= n % size < size
  {}

  lemma CeilMono(l: Layout, a: nat, b: nat)
    requires a <= b
    ensures BlocksFor(l, a) <= BlocksFor(l, b)
  {
    if l.blockSize > 0 {
      DivMono(a + l.blockSize - 1, b + l.blockSize - 1, l.blockSize);
    }
  }

  lemma ProgressStep(l: Layout, d: Disk, d1: Disk, d2: Disk, i: map<nat, Inode>, i1: map<nat, Inode>, i2: map<nat, Inode>,
                     a: Inode, b: Inode, c: Inode, offset: nat, done: seq<byte>, chunk: seq<byte>)
    requires Progress(l, d, d1, i, i1, a, b, offset, done) && l.blockSize > 0 && chunk != []
    requires i2 == i1[b.number := c] && SameIdentity(b, c) && SameTables(l, d1, d2)
    requires Wrote(l, d1, d2, i1, i2, b.number, offset + |done|, chunk)
    requires PointersKept(l, d1, d2, i1, i2, b.number, (offset + |done|) / l.blockSize)
    requires SameIndirect(b, c, (offset + |done|) / l.blockSize)
    ensures Progress(l, d, d2, i, i2, a, c, offset, done + chunk)
  {
    hide *;
    ProgressFacts(l, d, d1, i, i1, a, b, offset, done);
    SameNumber(a, b);
    SameNumber(b, c);
    SameIdentityIs(a, c);
    TablesTwice(l, d, d1, d2);
    TrimStep(l, d1, d2, i1, i2, a, b, c, offset, |done|, |chunk|);
    OthersTrimmed(l, d1, d2, i1, i2, a.number, (offset + |done|) / l.blockSize);
    WroteThen(l, d, d1, d1, d2, i, i1, i1, i2, a.number, offset, done, chunk);
    OthersKeptStep(l, d, d1, d2, i, i1, i2, a.number, (offset + |done|) / l.blockSize);
    ProgressFacts(l, d, d2, i, i2, a, c, offset, done + chunk);
  }

  lemma OthersKeptStep(l: Layout, d: Disk, d1: Disk, d2: Disk, i: map<nat, Inode>, i1: map<nat, Inode>,
                       i2: map<nat, Inode>, f: nat, index: int)
    requires OthersKept(l, d, d1, i, i1, f) && PointersKept(l, d1, d2, i1, i2, f, index)
    requires i2.Keys == i1.Keys && forall g :: g in i1 && g != f ==> i2[g] == i1[g]
    ensures OthersKept(l, d, d2, i, i2, f)
  {
    forall g, j: nat | g in i && g != f
      ensures PtrAt(d2, i2[g].blocks, PathOf(l, j)) == PtrAt(d, i[g].blocks, PathOf(l, j))
    {
      assert PtrAt(d2, i2[g].blocks, PathOf(l, j)) == PtrAt(d1, i1[g].blocks, PathOf(l, j));
    }
  }

  lemma OthersKeptFlushed(l: Layout, d: Disk, d2: Disk, d3: Disk, i: map<nat, Inode>, i2: map<nat, Inode>, f: nat)
    requires OthersKept(l, d, d2, i, i2, f) && PointersKept(l, d2, d3, i2, i2, 0, -1)
    ensures OthersKept(l, d, d3, i, i2, f)
  {
    forall g, j: nat | g in i && g != f
      ensures PtrAt(d3, i2[g].blocks, PathOf(l, j)) == PtrAt(d, i[g].blocks, PathOf(l, j))
    {
      assert PtrAt(d3, i2[g].blocks, PathOf(l, j)) == PtrAt(d2, i2[g].blocks, PathOf(l, j));
    }
  }

  lemma OthersKeptResized(l: Layout, d: Disk, d1: Disk, i: map<nat, Inode>, i1: map<nat, Inode>, i2: map<nat, Inode>, f: nat)
    requires OthersKept(l, d, d1, i, i1, f) && i2.Keys == i1.Keys && forall g :: g in i1 && g != f ==> i2[g] == i1[g]
    ensures OthersKept(l, d, d1, i, i2, f)
  {}

  lemma SameIdentityIs(i: Inode, j: Inode)
    requires j.number == i.number && j.kind == i.kind && j.size == i.size && j.links == i.links
    requires |j.blocks| == 15 == |i.blocks| && j.blocks[13] == i.blocks[13] && j.blocks[14] == i.blocks[14]
    ensures SameIdentity(i, j)
  {}

  lemma TablesTwice(l: Layout, d: Disk, d1: Disk, d2: Disk)
    requires SameTables(l, d, d1) && SameTables(l, d1, d2)
    ensures SameTables(l, d, d2)
  {}

  lemma TrimStep(l: Layout, d1: Disk, d2: Disk, i1: map<nat, Inode>, i2: map<nat, Inode>, a: Inode, b: Inode, c: Inode,
                 offset: nat, done: nat, len: nat)
    requires l.blockSize > 0 && len > 0 && a.number in i1 && i1[a.number] == b && a.number in i2 && i2[a.number] == c
    requires Trimmed(l, d1, b, Max(BlocksFor(l, a.size), BlocksFor(l, offset + done)))
    requires PointersKept(l, d1, d2, i1, i2, a.number, (offset + done) / l.blockSize)
    requires SameIdentity(b, c) && SameIndirect(b, c, (offset + done) / l.blockSize)
    ensures Trimmed(l, d2, c, Max(BlocksFor(l, a.size), BlocksFor(l, offset + (done + len))))
  {
    CeilStep(l, offset + done, len);
    CeilMono(l, offset + done, offset + done + len);
    hide BlocksFor;
    forall j: nat | j >= Max(BlocksFor(l, a.size), BlocksFor(l, offset + (done + len)))
      ensures PtrAt(d2, c.blocks, PathOf(l, j)) == 0
    {
      assert PtrAt(d2, i2[a.number].blocks, PathOf(l, j)) == PtrAt(d1, i1[a.number].blocks, PathOf(l, j));
    }
  }

  lemma OthersTrimmed(l: Layout, d: Disk, d': Disk, i: map<nat, Inode>, i': map<nat, Inode>, f: nat, index: int)
    requires AllTrimmed(l, d, i, f) && PointersKept(l, d, d', i, i', f, index)
    requires i'.Keys == i.Keys && forall g :: g in i && g != f ==> i'[g] == i[g]
    ensures AllTrimmed(l, d', i', f)
  {
    forall g | g in i' && g != f ensures Trimmed(l, d', i'[g], BlocksFor(l, i'[g].size)) {
      forall j: nat | j >= BlocksFor(l, i'[g].size) ensures PtrAt(d', i'[g].blocks, PathOf(l, j)) == 0 {
        assert PtrAt(d', i'[g].blocks, PathOf(l, j)) == PtrAt(d, i[g].blocks, PathOf(l, j));
      }
    }
  }

  /** The new size takes effect: ownership and contents do not depend on it, and the inode is ready to be flushed. */
  lemma WriteEnds(l: Layout, d: Disk, d1: Disk, fb: nat, fi: nat, i: map<nat, Inode>, i1: map<nat, Inode>,
                  i2: map<nat, Inode>, owner: map<nat, Claim>, a: Inode, b: Inode, c: Inode, offset: u64, bytes: seq<byte>)
    requires Booked(l, d1, fb, fi) && Owned(l, d1, Used(l, d1), i1, owner)
    requires Progress(l, d, d1, i, i1, a, b, offset, bytes) && 0 !in i
    requires bytes != [] ==> offset + |bytes| < 0x1_0000_0000
    requires c == b.(size := if offset + |bytes| > b.size then offset + |bytes| else b.size) && i2 == i1[a.number := c]
    requires a.kind == Regular
    ensures Owned(l, d1, Used(l, d1), i2, owner) && Slotted(l, d1, c) && Synced(l, d1, i2, c.number)
    ensures Wrote(l, d, d1, i, i2, a.number, offset, bytes) && AllTrimmed(l, d1, i2, 0) && SameTables(l, d, d1)
    ensures Grown(a, c, offset + |bytes|) && i2 == i[a.number := c] && a.number in i
    ensures OthersKept(l, d, d1, i, i2, a.number)
  {
    hide *;
    ProgressFacts(l, d, d1, i, i1, a, b, offset, bytes);
    OthersKeptResized(l, d, d1, i, i1, i2, a.number);
    EndFacts(l, d, d1, i, i1, i2, a, b, c, offset, bytes);
    ResizeOwned(l, d1, Used(l, d1), i1, i2, owner, c.number);
    SectorsFit(l, d1, fb, fi, i2, owner, c.number);
    BookedFacts(l, d1, fb, fi);
    EndSlotted(l, d, d1, i, a, c);
    EndSynced(l, d, d1, i, i2, c.number);
  }

  lemma EndFacts(l: Layout, d: Disk, d1: Disk, i: map<nat, Inode>, i1: map<nat, Inode>, i2: map<nat, Inode>,
                 a: Inode, b: Inode, c: Inode, offset: u64, bytes: seq<byte>)
    requires Progress(l, d, d1, i, i1, a, b, offset, bytes) && a.kind == Regular
    requires c == b.(size := if offset + |bytes| > b.size then offset + |bytes| else b.size) && i2 == i1[a.number := c]
    requires bytes != [] ==> offset + |bytes| < 0x1_0000_0000
    ensures a.number in i && i[a.number] == a && i2 == i[a.number := c] && c.number == a.number && c.kind == a.kind
    ensures a.number in i1 && Resized(i1, i2, c.number) && SameTables(l, d, d1) && Synced(l, d, i, 0)
    ensures (c.size <= a.size || c.size <= U64_MAX) && |c.blocks| == 15
    ensures Wrote(l, d, d1, i, i2, a.number, offset, bytes) && AllTrimmed(l, d1, i2, 0)
    ensures Grown(a, c, offset + |bytes|)
  {
    hide OthersKept;
    CeilMono(l, a.size, c.size);
    CeilMono(l, offset + |bytes|, c.size);
    assert Trimmed(l, d1, c, BlocksFor(l, c.size));
    forall g, off: nat | g in i
      ensures FileByte(l, d1, i2[g], off) ==
              if g == a.number && offset <= off < offset + |bytes| then bytes[off - offset] else FileByte(l, d, i[g], off)
    {
      assert FileByte(l, d1, i2[g], off) == FileByte(l, d1, i1[g], off);
    }
  }

  /** Only the size of inode `f` differs. */
  predicate Resized(i: map<nat, Inode>, i': map<nat, Inode>, f: nat)
  {
    f in i && i' == i[f := i[f].(size := if f in i' then i'[f].size else 0)]
  }

  lemma ResizeOwned(l: Layout, d: Disk, used: set<nat>, i: map<nat, Inode>, i': map<nat, Inode>,
                    owner: map<nat, Claim>, f: nat)
    requires Owned(l, d, used, i, owner) && Resized(i, i', f)
    ensures Owned(l, d, used, i', owner)
  {
    forall g, p | ValidPath(l, p) ensures OwnedAt(l, d, i', owner, g, p) {
      assert OwnedAt(l, d, i, owner, g, p);
    }
    forall n ensures ClaimHolds(l, d, i', owner, n) {
      assert ClaimHolds(l, d, i, owner, n);
    }
  }

  lemma {:induction false} Below(s: set<nat>, n: nat)
    requires forall m :: m in s ==> m < n
    ensures |s| <= n
  {
    if n == 0 {
      assert s == {};
    } else {
      Below(s - {n - 1}, n - 1);
    }
  }

  /** A sector count fits its 32 bits. */
  lemma SectorsFit(l: Layout, d: Disk, fb: nat, fi: nat, ino: map<nat, Inode>, owner: map<nat, Claim>, f: nat)
    requires Booked(l, d, fb, fi) && Owned(l, d, Used(l, d), ino, owner) && f in ino
    ensures ino[f].sectors < 0x1_0000_0000
  {
    hide *;
    BookedFacts(l, d, fb, fi);
    OwnedTree(l, d, Used(l, d), ino, owner);
    SectorsAre(l, d, Used(l, d), ino, owner, f);
    OwnedIsData(l, d, ino, owner);
    HeldBelow(l, owner, f);
  }

  lemma SectorsAre(l: Layout, d: Disk, used: set<nat>, ino: map<nat, Inode>, owner: map<nat, Claim>, f: nat)
    requires Owned(l, d, used, ino, owner) && f in ino
    ensures ino[f].sectors == l.blockSize / 512 * |Held(owner, f)|
  {
    hide Tree;
    hide Claimed;
  }

  lemma HeldBelow(l: Layout, owner: map<nat, Claim>, f: nat)
    requires forall m :: m in owner ==> l.IsData(m) && m != 0
    ensures |Held(owner, f)| <= l.blocksCount
  {
    Below(Held(owner, f), l.blocksCount);
  }

  lemma EndSlotted(l: Layout, d: Disk, d1: Disk, i: map<nat, Inode>, a: Inode, c: Inode)
    requires l.Ok() && Synced(l, d, i, 0) && SameTables(l, d, d1) && a.number in i && i[a.number] == a && a.number != 0
    requires c.number == a.number && c.kind == a.kind == Regular && |c.blocks| == 15
    requires c.sectors < 0x1_0000_0000 && (c.size <= a.size || c.size <= U64_MAX)
    ensures Slotted(l, d1, c)
  {
    assert SyncedAt(l, d, a, a.number);
    SlotPlaced(l, a.number);
  }

  lemma SlottedKept(l: Layout, d: Disk, d1: Disk, a: Inode, c: Inode)
    requires l.Ok() && Slotted(l, d, a) && SameTables(l, d, d1) && c.number == a.number && c.kind == a.kind
    requires |c.blocks| == 15 && c.sectors < 0x1_0000_0000 && c.size <= a.size
    ensures Slotted(l, d1, c)
  {
    SlotPlaced(l, a.number);
  }

  lemma EndSynced(l: Layout, d: Disk, d1: Disk, i: map<nat, Inode>, i2: map<nat, Inode>, f: nat)
    requires l.Ok() && (Synced(l, d, i, 0) || Synced(l, d, i, f)) && SameTables(l, d, d1)
    requires i2.Keys == i.Keys && (forall n :: n in i && n != f ==> i2[n] == i[n]) && 0 !in i
    ensures Synced(l, d1, i2, f)
  {
    hide SyncedAt;
    hide SameTables;
    hide Layout.Ok;
    assert Synced(l, d, i, f);
    SyncedFrame(l, d, d1, i, i2, f);
  }

  lemma AfterFlush(l: Layout, d: Disk, d2: Disk, d3: Disk, i: map<nat, Inode>, i2: map<nat, Inode>, a: Inode, c: Inode,
                   offset: u64, bytes: seq<byte>)
    requires Wrote(l, d, d2, i, i2, a.number, offset, bytes) && AllTrimmed(l, d2, i2, 0)
    requires SameContents(l, d2, d3, i2, i2) && PointersKept(l, d2, d3, i2, i2, 0, -1)
    ensures Wrote(l, d, d3, i, i2, a.number, offset, bytes) && AllTrimmed(l, d3, i2, 0)
  {
    forall g, off: nat | g in i
      ensures FileByte(l, d3, i2[g], off) ==
              if g == a.number && offset <= off < offset + |bytes| then bytes[off - offset] else FileByte(l, d, i[g], off)
    {
      assert FileByte(l, d3, i2[g], off) == FileByte(l, d2, i2[g], off);
    }
    OthersTrimmed(l, d2, d3, i2, i2, 0, -1);
  }

  lemma NoEntry(d: Disk, blocks: seq<u32>, k: nat)
    requires |blocks| == 15 && blocks[12] == 0
    ensures PtrAt(d, blocks, [12, k]) == 0
  {
    assert [12, k][..1] == [12];
  }
}
