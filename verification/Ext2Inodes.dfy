/** Taking and giving back inodes, and the life of a file from `create` to its last `unlink`. */
module Ext2Inodes {
  import opened Common
  import opened Ext2Bits
  import opened Ext2Layout
  import opened Ext2Alloc
  import opened Ext2Map
  import opened Ext2Volume
  import opened Ext2Inode
  import opened Ext2Steps
  import opened Ext2Trim
  import opened Ext2Names
  import opened Ext2Links
  import opened Ext2Dir
  import opened Ext2Scan
  import opened Ext2Room

  // ----- the inode bitmaps -----

  /** Only inode `n`'s mark and the counts moved: no data, no inode slot, no block's mark. */
  ghost predicate InodeBooks(l: Layout, d: Disk, d': Disk, n: nat, on: bool)
  {
    && |d'| == |d| && Used(l, d') == Used(l, d)
    && (forall m :: 0 <= m < |d| && (m !in l.roles || l.roles[m].Table?) ==> d'[m] == d[m])
    && (forall m: nat :: InodeInUse(l, d', m) == if m == n then on else InodeInUse(l, d, m))
  }

  function InodeNumber(l: Layout, g: nat, i: nat): nat { g * l.inodesPerGroup + i + 1 }

  lemma InodeNumberPlace(l: Layout, g: nat, i: nat)
    requires l.Geometry() && g < l.Groups() && i < l.inodesPerGroup
    ensures var n := InodeNumber(l, g, i);
            0 < n <= l.inodesCount && (n - 1) / l.inodesPerGroup == g && (n - 1) % l.inodesPerGroup == i
  {
    NumberMath(g, i, l.inodesPerGroup, l.Groups());
  }

  lemma NumberMath(g: nat, i: nat, per: nat, groups: nat)
    requires i < per && g < groups
    ensures (g * per + i) / per == g && (g * per + i) % per == i && g * per + i < groups * per
  {
    DivModOf(g, i, per);
    MulMono(g + 1, groups, per);
  }

  lemma InodeMarks(l: Layout, d: Disk, d': Disk, g: nat, i: nat, on: bool, m: nat)
    requires l.Ok() && l.Shaped(d) && l.Shaped(d') && g < l.Groups() && i < l.inodesPerGroup
    requires l.Map(Inodes, g) < |d| && d'[l.Map(Inodes, g)] == SetBit(d[l.Map(Inodes, g)], i, on)
    requires SameOtherMaps(l, d, d', Inodes, g)
    ensures InodeInUse(l, d', m) == if m == InodeNumber(l, g, i) then on else InodeInUse(l, d, m)
  {
    OkGeometry(l);
    InodeNumberPlace(l, g, i);
    var n := InodeNumber(l, g, i);
    if 0 < m <= l.inodesCount {
      InodePlace(l, m);
      var h, k := (m - 1) / l.inodesPerGroup, (m - 1) % l.inodesPerGroup;
      InUseIs(l, d, m);
      InUseIs(l, d', m);
      if h == g {
        MarkAfter(l, d, d', g, i, on, k);
        if k == i {
          SamePlace(m - 1, n - 1, l.inodesPerGroup);
        }
      } else {
      }
    } else {
      NotInUse(l, d, m);
      NotInUse(l, d', m);
    }
  }

  lemma InUseIs(l: Layout, d: Disk, m: nat)
    requires l.inodesPerGroup > 0 && 0 < m <= l.inodesCount
    ensures InodeInUse(l, d, m) == Marked(d, l.Map(Inodes, (m - 1) / l.inodesPerGroup), (m - 1) % l.inodesPerGroup)
  {}

  lemma NotInUse(l: Layout, d: Disk, m: nat)
    requires !(0 < m <= l.inodesCount)
    ensures !InodeInUse(l, d, m)
  {}

  lemma MarkAfter(l: Layout, d: Disk, d': Disk, g: nat, i: nat, on: bool, k: nat)
    requires l.Ok() && l.Shaped(d) && l.Shaped(d') && g < l.Groups() && i < l.inodesPerGroup && k < l.inodesPerGroup
    requires l.Map(Inodes, g) < |d| && d'[l.Map(Inodes, g)] == SetBit(d[l.Map(Inodes, g)], i, on)
    ensures Marked(d', l.Map(Inodes, g), k) == if k == i then on else Marked(d, l.Map(Inodes, g), k)
  {
    LimitFits(l, Inodes, g);
    SetBitAt(d[l.Map(Inodes, g)], i, on, k);
  }

  lemma SamePlace(a: nat, b: nat, per: nat)
    requires per > 0 && a / per == b / per && a % per == b % per
    ensures a == b
  {
    DivModSplit(a, per);
    DivModSplit(b, per);
  }

  /** The whole of `alloc_inode` or `free_inode`, for the bit it settled on. */
  lemma InodeToggled(l: Layout, d0: Disk, d1: Disk, d2: Disk, d3: Disk, g: nat, i: nat, on: bool, fb: nat, fi: nat, v: int)
    requires Booked(l, d0, fb, fi) && g < l.Groups() && i < l.inodesPerGroup && Marked(d0, l.Map(Inodes, g), i) == !on
    requires Toggled(l, d0, d1, Inodes, g, i, on)
    requires v == Half(d1, l.DescBlock(g), l.DescAt(g) + CountField(Inodes)) + if on then -1 else 1
    ensures 0 <= v < 0x1_0000 && fb < 0x1_0000_0000 && 0 <= fi + (if on then -1 else 1) < 0x1_0000_0000
    ensures Recounted(l, d1, d2, Inodes, g, v) && Flushed(l, d2, d3, fb, fi + if on then -1 else 1) ==>
              && Booked(l, d3, fb, fi + if on then -1 else 1)
              && InodeBooks(l, d0, d3, InodeNumber(l, g, i), on)
  {
    BookedFacts(l, d0, fb, fi);
    var fi' := fi + if on then -1 else 1;
    RebookedIsBooked(l, d0, d1, d2, d3, Inodes, g, i, on, fb, fi, v, fb, fi');
    if Recounted(l, d1, d2, Inodes, g, v) && Flushed(l, d2, d3, fb, fi') {
      BooksWritten(l, d0, d1, d2, d3, Inodes, g, i, on, v, fb, fi');
      BlockMapsSame(l, d0, d3, g);
      UsedSame(l, d0, d3);
      forall m: nat ensures InodeInUse(l, d3, m) == if m == InodeNumber(l, g, i) then on else InodeInUse(l, d0, m) {
        InodeMarks(l, d0, d3, g, i, on, m);
      }
    }
  }

  lemma ClearAgain(d: Disk, n: nat, i: nat)
    requires n < |d| && i / 8 < |d[n]| && !Marked(d, n, i)
    ensures SetBit(d[n], i, false) == d[n]
  {
    SetBitSame(d[n], i, false);
  }

  /** Freeing an inode that is not in use marks nothing and counts one inode too many. */
  lemma InodeFreedUnused(l: Layout, d0: Disk, d1: Disk, d2: Disk, d3: Disk, g: nat, i: nat, fb: nat, fi: nat, v: u16)
    requires Booked(l, d0, fb, fi) && g < l.Groups() && l.Map(Inodes, g) < |d0| && i / 8 < |d0[l.Map(Inodes, g)]|
    requires !Marked(d0, l.Map(Inodes, g), i) && fb < 0x1_0000_0000 && fi + 1 < 0x1_0000_0000
    requires Toggled(l, d0, d1, Inodes, g, i, false) && Recounted(l, d1, d2, Inodes, g, v) && Flushed(l, d2, d3, fb, fi + 1)
    ensures !Booked(l, d3, fb, fi + 1)
  {
    hide *;
    BookedFacts(l, d0, fb, fi);
    BooksWritten(l, d0, d1, d2, d3, Inodes, g, i, false, v, fb, fi + 1);
    ClearAgain(d0, l.Map(Inodes, g), i);
    SameBitmapsSameFree(l, d0, d3, Inodes);
    BooksOpened(l, d0, fb, fi);
    if Booked(l, d3, fb, fi + 1) {
      BooksOpened(l, d3, fb, fi + 1);
    }
  }

  lemma BlockMapsSame(l: Layout, d: Disk, d': Disk, g: nat)
    requires SameOtherMaps(l, d, d', Inodes, g)
    ensures |d'| == |d|
    ensures forall h :: 0 <= h < l.Groups() ==> l.Map(Blocks, h) < |d| && d'[l.Map(Blocks, h)] == d[l.Map(Blocks, h)]
  {
    assert Inodes.Other() == Blocks;
  }

  lemma InodeScanFacts(l: Layout, d: Disk, fb: nat, fi: nat, g: nat)
    requires Booked(l, d, fb, fi) && g < l.Groups()
    ensures l.Ok() && l.Shaped(d) && l.DescAt(g) + 32 <= l.blockSize && l.DescBlock(g) < |d| && |d[l.DescBlock(g)]| == l.blockSize
    ensures Get32(d[l.DescBlock(g)], l.DescAt(g) + 4) == l.Map(Inodes, g) < l.blocksCount == |d|
    ensures |d[l.Map(Inodes, g)]| == l.blockSize && l.inodesPerGroup <= 8 * l.blockSize
  {
    assert l.DescribedAt(d, g);
    BookkeepingApart(l, Inodes, g, g);
    DescInBlock(l, g);
  }

  lemma InodeGroups(l: Layout)
    requires l.Geometry()
    ensures l.inodesPerGroup > 0 && (l.inodesCount + l.inodesPerGroup - 1) / l.inodesPerGroup == l.Groups()
  {
    DivModOf(l.Groups(), l.inodesPerGroup - 1, l.inodesPerGroup);
  }

  /** The inodes the volume keeps for itself are all marked, as the format wants them. */
  ghost predicate ReservedMarked(l: Layout, d: Disk)
  {
    forall n: nat :: 0 < n < l.firstInode && n <= l.inodesCount ==> InodeInUse(l, d, n)
  }

  /** Some inode is not in use. */
  ghost predicate InodeFree(l: Layout, d: Disk)
  {
    exists n: nat :: 0 < n <= l.inodesCount && !InodeInUse(l, d, n)
  }

  /** Bit `i` is the first clear one of a group's inode bitmap. */
  predicate FirstClear(l: Layout, d: Disk, g: nat, i: nat)
  {
    && i < l.inodesPerGroup && !Marked(d, l.Map(Inodes, g), i)
    && forall k :: 0 <= k < i ==> Marked(d, l.Map(Inodes, g), k)
  }

  /** Some group's first clear bit stands for an inode that is not reserved. */
  ghost predicate Takable(l: Layout, d: Disk)
  {
    exists g: nat, i: nat :: g < l.Groups() && FirstClear(l, d, g, i) && InodeNumber(l, g, i) >= l.firstInode
  }

  lemma FirstClearIs(l: Layout, d: Disk, g: nat, i: nat)
    requires g < l.Groups() && i < l.inodesPerGroup && !Marked(d, l.Map(Inodes, g), i)
    requires forall k :: 0 <= k < i ==> Marked(d, l.Map(Inodes, g), k)
    ensures FirstClear(l, d, g, i) && (InodeNumber(l, g, i) >= l.firstInode ==> Takable(l, d))
  {}

  /** A group from which nothing is taken: full, or its first clear bit is reserved. */
  ghost predicate Barren(l: Layout, d: Disk, g: nat)
  {
    forall i: nat :: FirstClear(l, d, g, i) ==> InodeNumber(l, g, i) < l.firstInode
  }

  lemma BarrenIs(l: Layout, d: Disk, g: nat, found: Option<nat>)
    requires l.inodesPerGroup <= 8 * l.blockSize
    requires found.None? ==> forall i :: 0 <= i < l.inodesPerGroup && i / 8 < l.blockSize ==> Marked(d, l.Map(Inodes, g), i)
    requires found.Some? ==> FirstClear(l, d, g, found.value) && InodeNumber(l, g, found.value) < l.firstInode
    ensures Barren(l, d, g)
  {
    hide InodeNumber;
  }

  lemma AllBarren(l: Layout, d: Disk)
    requires forall g: nat :: g < l.Groups() ==> Barren(l, d, g)
    ensures !Takable(l, d)
  {
    hide FirstClear, InodeNumber;
    forall g: nat, i: nat | g < l.Groups() && FirstClear(l, d, g, i)
      ensures InodeNumber(l, g, i) < l.firstInode
    {
      assert Barren(l, d, g);
    }
  }

  /** With the reserved inodes marked, as the format wants, an inode can be taken whenever one is free. */
  lemma TakableIffFree(l: Layout, d: Disk)
    requires l.Geometry() && ReservedMarked(l, d)
    ensures Takable(l, d) <==> InodeFree(l, d)
  {
    if g: nat, i: nat :| g < l.Groups() && FirstClear(l, d, g, i) && InodeNumber(l, g, i) >= l.firstInode {
      ClearNumber(l, d, g, i);
    }
    if n: nat :| 0 < n <= l.inodesCount && !InodeInUse(l, d, n) {
      InodePlace(l, n);
      var g := (n - 1) / l.inodesPerGroup;
      var i := LeastClear(l, d, g, (n - 1) % l.inodesPerGroup);
      ClearNumber(l, d, g, i);
    }
  }

  lemma {:induction false} LeastClear(l: Layout, d: Disk, g: nat, n: nat) returns (i: nat)
    requires n < l.inodesPerGroup && !Marked(d, l.Map(Inodes, g), n)
    ensures FirstClear(l, d, g, i)
    decreases n
  {
    if k :| 0 <= k < n && !Marked(d, l.Map(Inodes, g), k) {
      i := LeastClear(l, d, g, k);
    } else {
      i := n;
    }
  }

  lemma ClearNumber(l: Layout, d: Disk, g: nat, i: nat)
    requires l.Geometry() && g < l.Groups() && i < l.inodesPerGroup && !Marked(d, l.Map(Inodes, g), i)
    ensures !InodeInUse(l, d, InodeNumber(l, g, i)) && 0 < InodeNumber(l, g, i) <= l.inodesCount
  {
    InodeNumberPlace(l, g, i);
  }

  // ----- what a change of inode marks leaves alone -----

  /** Inode marks, and the counts of them, are no part of any file or of what owns what. */
  lemma BooksKeepFiles(l: Layout, d: Disk, d': Disk, ino: map<nat, Inode>, owner: map<nat, Claim>)
    requires l.Geometry() && Owned(l, d, Used(l, d), ino, owner) && Used(l, d') == Used(l, d) && |d'| == |d|
    requires forall m :: 0 <= m < |d| && (m !in l.roles || l.roles[m].Table?) ==> d'[m] == d[m]
    ensures Owned(l, d', Used(l, d'), ino, owner)
    ensures SameContents(l, d, d', ino, ino) && PointersKept(l, d, d', ino, ino, 0, -1)
  {
    OwnedIsData(l, d, ino, owner);
    OwnedFrame(l, d, d', Used(l, d), ino, owner);
    forall g, off: nat | g in ino ensures FileByte(l, d', ino[g], off) == FileByte(l, d, ino[g], off) {
      ByteKept(l, d, d', ino, owner, g, off);
    }
    PointersSame(l, d, d', ino, owner);
  }

  lemma ByteKept(l: Layout, d: Disk, d': Disk, ino: map<nat, Inode>, owner: map<nat, Claim>, g: nat, off: nat)
    requires l.Geometry() && Tree(l, d, ino, owner) && SameOwned(d, d', owner) && g in ino
    ensures FileByte(l, d', ino[g], off) == FileByte(l, d, ino[g], off)
  {
    var q := PathAt(l, off);
    if q != [] {
      PathOfIsLeaf(l, off / l.blockSize);
      PtrFrame(l, d, d', ino, owner, g, q);
      assert OwnedAt(l, d, ino, owner, g, q);
    }
  }

  lemma TablesReadSame(l: Layout, d: Disk, d': Disk, ino: map<nat, Inode>, except: nat)
    requires l.Ok() && Synced(l, d, ino, except) && |d'| == |d|
    requires forall m :: 0 <= m < |d| && (m !in l.roles || l.roles[m].Table?) ==> d'[m] == d[m]
    ensures Synced(l, d', ino, except)
  {
    forall n | n in ino && n != except ensures SyncedAt(l, d', ino[n], n) {
      assert SyncedAt(l, d, ino[n], n);
      SlotPlaced(l, n);
    }
  }

  lemma SealedBooks(l: Layout, d: Disk, d': Disk, ino: map<nat, Inode>, sealed: map<nat, Inode>, n: nat, on: bool)
    requires l.Ok() && Sealed(l, d, ino, sealed) && n !in sealed && InodeBooks(l, d, d', n, on)
    ensures Sealed(l, d', ino, sealed)
  {
    hide *;
    SealedFacts(l, d, ino, sealed);
    InodeBooksFacts(l, d, d', n, on);
    TablesReadSame(l, d, d', sealed, 0);
    ListedMarks(l, d, d', sealed, n, on);
    assert sealed - {n} == sealed;
    SealedIs(l, d', ino, sealed);
  }

  lemma SealedFacts(l: Layout, d: Disk, ino: map<nat, Inode>, sealed: map<nat, Inode>)
    requires Sealed(l, d, ino, sealed)
    ensures 0 !in sealed && sealed.Keys !! ino.Keys && (forall n :: n in sealed ==> sealed[n].kind == Other && sealed[n].sectors == 0)
    ensures Synced(l, d, sealed, 0) && Listed(l, d, sealed)
  {}

  lemma SealedIs(l: Layout, d: Disk, ino: map<nat, Inode>, sealed: map<nat, Inode>)
    requires 0 !in sealed && sealed.Keys !! ino.Keys && (forall n :: n in sealed ==> sealed[n].kind == Other && sealed[n].sectors == 0)
    requires Synced(l, d, sealed, 0) && Listed(l, d, sealed)
    ensures Sealed(l, d, ino, sealed)
  {}

  // ----- a new file -----

  /** The slot of a new regular file: zeroes, then the mode and one link. */
  function FreshSlot(b: Block, o: nat, size: nat): (c: Block)
    requires o + size <= |b| && size >= 128
    ensures |c| == |b|
  {
    var z := Overwritten(b, o, Zeroes(size));
    Put16(Put16(z, o, 0x81a4), o + 26, 1)
  }

  function FreshInode(number: nat): Inode { Inode(number, Regular, 0, 1, 0, seq(15, _ => 0)) }

  lemma FreshSlotParses(number: nat, b: Block, o: nat, size: nat)
    requires o + size <= |b| && size >= 128
    ensures Parse(number, FreshSlot(b, o, size), o) == FreshInode(number)
    ensures SameOutside(b, FreshSlot(b, o, size), o, size)
  {
    var z := Overwritten(b, o, Zeroes(size));
    var y := Put16(z, o, 0x81a4);
    var c := Put16(y, o + 26, 1);
    Get16Same(y, c, o + 26, 2, o);
    FreshField(b, o, size, 4);
    FreshField(b, o, size, 28);
    FreshField(b, o, size, 108);
    forall i | 0 <= i < 15 ensures PointersAt(c, o)[i] == 0 {
      FreshField(b, o, size, 40 + 4 * i);
    }
  }

  lemma FreshField(b: Block, o: nat, size: nat, at: nat)
    requires o + size <= |b| && size >= 128 && (4 <= at <= 22 || 28 <= at <= 108)
    ensures Get32(FreshSlot(b, o, size), o + at) == 0
  {
    var c := FreshSlot(b, o, size);
    var p := o + at;
    assert c[p] == 0 && c[p + 1] == 0 && c[p + 2] == 0 && c[p + 3] == 0;
  }

  /** Adding an inode that points at nothing disturbs no one's blocks. */
  lemma EmptyInodeOwned(l: Layout, d: Disk, used: set<nat>, ino: map<nat, Inode>, owner: map<nat, Claim>, i: Inode)
    requires Owned(l, d, used, ino, owner) && i.number != 0 && i.number !in ino && |i.blocks| == 15 && i.sectors == 0
    requires forall k :: 0 <= k < 15 ==> i.blocks[k] == 0
    ensures Owned(l, d, used, ino[i.number := i], owner)
  {
    var ino' := ino[i.number := i];
    forall f, p | ValidPath(l, p) ensures OwnedAt(l, d, ino', owner, f, p) {
      assert OwnedAt(l, d, ino, owner, f, p);
      if f == i.number {
        EmptyPath(d, i.blocks, p);
      }
    }
    forall n ensures ClaimHolds(l, d, ino', owner, n) {
      assert ClaimHolds(l, d, ino, owner, n);
    }
    forall f | f in ino' ensures ino'[f].sectors == l.blockSize / 512 * |Held(owner, f)| {
      if f == i.number {
        forall n | n in owner ensures owner[n].file != f {
          assert ClaimHolds(l, d, ino, owner, n);
        }
        assert Held(owner, f) == {};
      }
    }
  }

  lemma {:induction false} EmptyPath(d: Disk, blocks: seq<u32>, p: Path)
    requires |blocks| == 15 && forall k :: 0 <= k < 15 ==> blocks[k] == 0
    ensures PtrAt(d, blocks, p) == 0
    decreases |p|
  {
    if |p| > 1 {
      EmptyPath(d, blocks, p[..|p| - 1]);
    }
  }

  /** An inode that points at nothing holds nothing. */
  lemma EmptyHolds(l: Layout, d: Disk, used: set<nat>, ino: map<nat, Inode>, owner: map<nat, Claim>, f: nat)
    requires Owned(l, d, used, ino, owner) && f in ino && f != 0
    requires forall k :: 0 <= k < 15 && k < |ino[f].blocks| ==> ino[f].blocks[k] == 0
    ensures Held(owner, f) == {}
  {
    forall n | n in owner ensures owner[n].file != f {
      assert ClaimHolds(l, d, ino, owner, n);
      if owner[n].file == f {
        EmptyPath(d, ino[f].blocks, owner[n].path);
      }
    }
  }

  // ----- what survives a change that touches no file -----

  /** The same bytes and pointers everywhere: nothing about the files is different. */
  lemma FilesKept(l: Layout, d: Disk, d': Disk, ino: map<nat, Inode>, f: nat)
    requires SameContents(l, d, d', ino, ino) && PointersKept(l, d, d', ino, ino, 0, -1)
    ensures 0 !in ino && AllTrimmed(l, d, ino, 0) ==> AllTrimmed(l, d', ino, 0)
    ensures AllTidy(l, d, ino) ==> AllTidy(l, d', ino)
    ensures OthersSame(l, d, d', ino, ino, f)
  {
    hide *;
    OthersAll(l, d, d', ino, f);
    OthersByContents(l, d, d', ino, ino, f);
    if 0 !in ino && AllTrimmed(l, d, ino, 0) {
      OthersTrimmed(l, d, d', ino, ino, 0, -1);
    }
    if AllTidy(l, d, ino) {
      if f in ino {
        SelfSame(l, d, d', ino, f);
      }
      TidyEverywhere(l, d, d', ino, f);
    }
  }

  lemma SelfSame(l: Layout, d: Disk, d': Disk, ino: map<nat, Inode>, f: nat)
    requires SameContents(l, d, d', ino, ino) && PointersKept(l, d, d', ino, ino, 0, -1) && f in ino
    ensures SameFile(l, d, d', ino[f], ino[f])
  {
    forall j: nat ensures Hole(l, d', ino[f], j) == Hole(l, d, ino[f], j) {
      assert PtrAt(d', ino[f].blocks, PathOf(l, j)) == PtrAt(d, ino[f].blocks, PathOf(l, j));
    }
  }

  lemma TidyEverywhere(l: Layout, d: Disk, d': Disk, ino: map<nat, Inode>, f: nat)
    requires AllTidy(l, d, ino) && OthersSame(l, d, d', ino, ino, f) && (f in ino ==> SameFile(l, d, d', ino[f], ino[f]))
    ensures AllTidy(l, d', ino)
  {
    forall g | g in ino && ino[g].kind == Directory ensures TidyDir(l, d', ino[g]) {
      SameDir(l, d, d', ino[g], ino[g]);
    }
  }

  lemma ListedMarks(l: Layout, d: Disk, d': Disk, ino: map<nat, Inode>, n: nat, on: bool)
    requires InodeBooks(l, d, d', n, on) && Listed(l, d, ino)
    ensures on ==> Listed(l, d', ino)
    ensures Listed(l, d', ino - {n})
  {
    forall m | m in ino && (m != n || on) ensures InodeInUse(l, d', m) {
      assert InodeInUse(l, d, m);
    }
  }

  lemma InodeBooksFacts(l: Layout, d: Disk, d': Disk, n: nat, on: bool)
    requires InodeBooks(l, d, d', n, on)
    ensures |d'| == |d| && Used(l, d') == Used(l, d) && InodeInUse(l, d', n) == on
    ensures forall m :: 0 <= m < |d| && (m !in l.roles || l.roles[m].Table?) ==> d'[m] == d[m]
  {}

  /** Marking an inode in use, or clearing its mark, leaves every file as it was. */
  lemma MarkedOnly(l: Layout, d: Disk, d': Disk, ino: map<nat, Inode>, owner: map<nat, Claim>, n: nat, on: bool, except: nat)
    requires l.Ok() && Owned(l, d, Used(l, d), ino, owner) && InodeBooks(l, d, d', n, on)
    requires 0 !in ino && AllTrimmed(l, d, ino, 0) && AllTidy(l, d, ino) && Listed(l, d, ino) && Synced(l, d, ino, except)
    ensures Owned(l, d', Used(l, d'), ino, owner) && AllTrimmed(l, d', ino, 0) && AllTidy(l, d', ino)
    ensures Synced(l, d', ino, except) && OthersSame(l, d, d', ino, ino, n)
    ensures (on ==> Listed(l, d', ino)) && Listed(l, d', ino - {n})
  {
    hide *;
    OkGeometry(l);
    InodeBooksFacts(l, d, d', n, on);
    BooksKeepFiles(l, d, d', ino, owner);
    TablesReadSame(l, d, d', ino, except);
    FilesKept(l, d, d', ino, n);
    ListedMarks(l, d, d', ino, n, on);
  }

  /** Rewriting the slot of an inode that nobody reads leaves every file as it was. */
  lemma SlotRewritten(l: Layout, d: Disk, d': Disk, fb: nat, fi: nat, ino: map<nat, Inode>, owner: map<nat, Claim>,
                      n: nat, at: nat, len: nat)
    requires Booked(l, d, fb, fi) && Owned(l, d, Used(l, d), ino, owner) && 0 < n <= l.inodesCount
    requires 0 !in ino && AllTrimmed(l, d, ino, 0) && AllTidy(l, d, ino) && Listed(l, d, ino) && Synced(l, d, ino, n)
    requires l.inodesPerGroup > 0 && SlotAt(l, n) <= at && at + len <= SlotAt(l, n) + l.inodeSize
    requires |d'| == |d| && SlotBlock(l, n) < |d| && SameOutside(d[SlotBlock(l, n)], d'[SlotBlock(l, n)], at, len)
    requires forall m :: 0 <= m < |d| && m != SlotBlock(l, n) ==> d'[m] == d[m]
    ensures Booked(l, d', fb, fi) && Owned(l, d', Used(l, d'), ino, owner) && AllTrimmed(l, d', ino, 0) && AllTidy(l, d', ino)
    ensures Synced(l, d', ino, n) && OthersSame(l, d, d', ino, ino, n) && Listed(l, d', ino) && SameInodeMaps(l, d, d')
    ensures SlotsKept(l, d, d', n)
  {
    hide *;
    BookedFacts(l, d, fb, fi);
    SlotWrite(l, d, d', n, at, len);
    DataWriteBooked(l, d, d', fb, fi, SlotBlock(l, n));
    MetaWrite(l, d, d', Used(l, d), ino, owner, SlotBlock(l, n));
    TableWriteMaps(l, d, d', SlotBlock(l, n));
    ListedFrame(l, d, d', ino, ino);
    OtherSlots(l, d, d', n, at, len);
    SlotsKeptFor(l, d, d', ino, n);
    FilesKept(l, d, d', ino, n);
  }

  lemma SlotWrite(l: Layout, d: Disk, d': Disk, n: nat, at: nat, len: nat)
    requires l.Ok() && l.Shaped(d) && 0 < n <= l.inodesCount && l.inodesPerGroup > 0
    requires |d'| == |d| && SlotBlock(l, n) < |d| && SameOutside(d[SlotBlock(l, n)], d'[SlotBlock(l, n)], at, len)
    ensures var b := SlotBlock(l, n); b in l.roles && l.roles[b].Table? && |d'[b]| == l.blockSize
  {
    SlotPlaced(l, n);
  }

  lemma OtherSlots(l: Layout, d: Disk, d': Disk, n: nat, at: nat, len: nat)
    requires l.Ok() && l.Shaped(d) && 0 < n <= l.inodesCount && l.inodesPerGroup > 0
    requires SlotAt(l, n) <= at && at + len <= SlotAt(l, n) + l.inodeSize
    requires |d'| == |d| && SlotBlock(l, n) < |d| && SameOutside(d[SlotBlock(l, n)], d'[SlotBlock(l, n)], at, len)
    requires forall m :: 0 <= m < |d| && m != SlotBlock(l, n) ==> d'[m] == d[m]
    ensures SlotsKept(l, d, d', n)
  {
    forall ino: map<nat, Inode> | Synced(l, d, ino, n)
      ensures Synced(l, d', ino, n)
    {
      forall m | m in ino && m != n ensures SyncedAt(l, d', ino[m], m) {
        assert SyncedAt(l, d, ino[m], m);
        OtherSlot(l, d, d', ino[m], n, at, len);
      }
    }
  }

  lemma OtherSlot(l: Layout, d: Disk, d': Disk, i: Inode, n: nat, at: nat, len: nat)
    requires l.Ok() && l.Shaped(d) && SyncedAt(l, d, i, i.number) && i.number != n && 0 < n <= l.inodesCount
    requires SlotAt(l, n) <= at && at + len <= SlotAt(l, n) + l.inodeSize
    requires |d'| == |d| && SlotBlock(l, n) < |d| && SameOutside(d[SlotBlock(l, n)], d'[SlotBlock(l, n)], at, len)
    requires forall m :: 0 <= m < |d| && m != SlotBlock(l, n) ==> d'[m] == d[m]
    ensures SyncedAt(l, d', i, i.number)
  {
    var m := i.number;
    if SlotBlock(l, m) == SlotBlock(l, n) {
      SlotsApart(l, m, n);
      SlotPlaced(l, m);
      ParseSame(m, d[SlotBlock(l, n)], d'[SlotBlock(l, n)], at, len, SlotAt(l, m));
    }
  }

  lemma NotThere(l: Layout, d: Disk, ino: map<nat, Inode>, n: nat)
    requires Listed(l, d, ino) && !InodeInUse(l, d, n)
    ensures n !in ino
  {}

  /** A new, empty file takes its place among the others. */
  lemma Joined(l: Layout, d: Disk, fb: nat, fi: nat, ino: map<nat, Inode>, owner: map<nat, Claim>, n: nat)
    requires Booked(l, d, fb, fi) && Owned(l, d, Used(l, d), ino, owner) && 0 < n <= l.inodesCount && n !in ino
    requires 0 !in ino && AllTrimmed(l, d, ino, 0) && AllTidy(l, d, ino) && Listed(l, d, ino) && Synced(l, d, ino, n)
    requires InodeInUse(l, d, n) && SyncedAt(l, d, FreshInode(n), n)
    ensures var ino' := ino[n := FreshInode(n)];
            && Owned(l, d, Used(l, d), ino', owner) && AllTrimmed(l, d, ino', 0) && AllTidy(l, d, ino')
            && Listed(l, d, ino') && Synced(l, d, ino', 0)
  {
    EmptyInodeOwned(l, d, Used(l, d), ino, owner, FreshInode(n));
    FreshTrimmed(l, d, n);
    TidyMore(l, d, ino, FreshInode(n));
    ListedMore(l, d, ino, FreshInode(n));
  }

  lemma TidyMore(l: Layout, d: Disk, ino: map<nat, Inode>, i: Inode)
    requires AllTrimmed(l, d, ino, 0) && AllTidy(l, d, ino) && i.kind == Regular && Trimmed(l, d, i, BlocksFor(l, i.size))
    ensures AllTrimmed(l, d, ino[i.number := i], 0) && AllTidy(l, d, ino[i.number := i])
  {
    hide TidyDir, Trimmed, BlocksFor;
  }

  lemma ListedMore(l: Layout, d: Disk, ino: map<nat, Inode>, i: Inode)
    requires Listed(l, d, ino) && Synced(l, d, ino, i.number) && InodeInUse(l, d, i.number) && SyncedAt(l, d, i, i.number)
    ensures Listed(l, d, ino[i.number := i]) && Synced(l, d, ino[i.number := i], 0)
  {
    hide SyncedAt, InodeInUse;
  }

  lemma FreshTrimmed(l: Layout, d: Disk, n: nat)
    ensures Trimmed(l, d, FreshInode(n), BlocksFor(l, 0)) && FreshInode(n).size == 0
  {
    forall j: nat ensures PtrAt(d, FreshInode(n).blocks, PathOf(l, j)) == 0 {
      EmptyPath(d, FreshInode(n).blocks, PathOf(l, j));
    }
  }

  lemma FreshSynced(l: Layout, d: Disk, d': Disk, fb: nat, fi: nat, n: nat)
    requires Booked(l, d, fb, fi) && 0 < n <= l.inodesCount && l.inodesPerGroup > 0
    requires SlotBlock(l, n) < |d| && SlotAt(l, n) + l.inodeSize <= |d[SlotBlock(l, n)]| && l.inodeSize >= 128
    requires d' == d[SlotBlock(l, n) := FreshSlot(d[SlotBlock(l, n)], SlotAt(l, n), l.inodeSize)]
    ensures SyncedAt(l, d', FreshInode(n), n)
    ensures SameOutside(d[SlotBlock(l, n)], d'[SlotBlock(l, n)], SlotAt(l, n), l.inodeSize)
  {
    hide Booked;
    FreshSlotParses(n, d[SlotBlock(l, n)], SlotAt(l, n), l.inodeSize);
  }

  lemma MapsKeepMark(l: Layout, d: Disk, d': Disk, n: nat)
    requires l.Ok() && SameInodeMaps(l, d, d') && InodeInUse(l, d, n)
    ensures InodeInUse(l, d', n)
  {
    InUseFrame(l, d, d', n);
  }

  lemma SyncedMore(l: Layout, d: Disk, ino: map<nat, Inode>, n: nat)
    requires Synced(l, d, ino, 0) && 0 !in ino
    ensures Synced(l, d, ino, n)
  {}

  // ----- a name looked up -----

  lemma LookupTidy(l: Layout, es: seq<Entry>, name: Name)
    requires TidyNames(l, es)
    ensures Find(es, name).Some? <==> name in NameMap(es)
    ensures Find(es, name).Some? ==> Find(es, name).value == NameMap(es)[name] && 0 < NameMap(es)[name] <= l.inodesCount
  {
    FindInMap(es, name);
    if name in NameMap(es) {
      NameMapKeys(es, name);
      var i :| 0 <= i < |es| && es[i].name == name;
      NameMapAt(es, i);
    }
  }

  lemma ListingIs(l: Layout, d: Disk, i: Inode)
    ensures Listing(l, d, i) == DirWalk(l, d, i, 0, BlocksFor(l, i.size)).0
  {}

  /** Files other than these two are exactly as they were. */
  ghost predicate Untouched(l: Layout, d: Disk, d': Disk, ino: map<nat, Inode>, ino': map<nat, Inode>, a: nat, b: nat)
  {
    forall g :: g in ino && g != a && g != b ==> g in ino' && ino'[g] == ino[g] && SameFile(l, d, d', ino[g], ino'[g])
  }

  lemma UntouchedBy(l: Layout, d: Disk, d': Disk, ino: map<nat, Inode>, ino': map<nat, Inode>, f: nat, a: nat, b: nat)
    requires OthersSame(l, d, d', ino, ino', f) && (f == a || f == b) && forall g :: g in ino && g != a && g != b ==> g in ino'
    ensures Untouched(l, d, d', ino, ino', a, b)
  {}

  lemma UntouchedTwice(l: Layout, d: Disk, d1: Disk, d2: Disk, i: map<nat, Inode>, i1: map<nat, Inode>, i2: map<nat, Inode>,
                       a: nat, b: nat)
    requires Untouched(l, d, d1, i, i1, a, b) && Untouched(l, d1, d2, i1, i2, a, b)
    ensures Untouched(l, d, d2, i, i2, a, b)
  {
    forall g | g in i && g != a && g != b ensures g in i2 && i2[g] == i[g] && SameFile(l, d, d2, i[g], i2[g]) {
      SameFileTwice(l, d, d1, d2, i[g], i1[g], i2[g]);
    }
  }

  lemma SameFileTwice(l: Layout, d: Disk, d1: Disk, d2: Disk, a: Inode, b: Inode, c: Inode)
    requires SameFile(l, d, d1, a, b) && SameFile(l, d1, d2, b, c)
    ensures SameFile(l, d, d2, a, c)
  {
    forall j: nat ensures Hole(l, d2, c, j) == Hole(l, d, a, j) {
      assert Hole(l, d1, b, j) == Hole(l, d, a, j);
    }
    forall off: nat ensures FileByte(l, d2, c, off) == FileByte(l, d, a, off) {
      assert FileByte(l, d1, b, off) == FileByte(l, d, a, off);
    }
  }

  lemma SameListing(l: Layout, d: Disk, d': Disk, ino: map<nat, Inode>, ino': map<nat, Inode>, f: nat, i: Inode)
    requires OthersSame(l, d, d', ino, ino', f) && i.number in ino' && ino'[i.number] == i && i.number != f
    ensures i.number in ino && ino[i.number] == i && Listing(l, d', i) == Listing(l, d, i)
  {
    SameDir(l, d, d', ino[i.number], ino'[i.number]);
  }

  lemma SameLinkable(l: Layout, d: Disk, d': Disk, ino: map<nat, Inode>, ino': map<nat, Inode>, f: nat, i: Inode,
                     needed: nat)
    requires OthersSame(l, d, d', ino, ino', f) && i.number in ino' && ino'[i.number] == i && i.number != f
    ensures Linkable(l, d', i, needed) <==> Linkable(l, d, i, needed)
  {
    hide Linkable, SameFile;
    LinkableSame(l, d, d', i, needed);
  }

  lemma SameWhole(l: Layout, d: Disk, d': Disk, ino: map<nat, Inode>, ino': map<nat, Inode>, f: nat, i: Inode)
    requires OthersSame(l, d, d', ino, ino', f) && i.number in ino' && ino'[i.number] == i && i.number != f
    ensures Whole(l, d', i) <==> Whole(l, d, i)
  {
    hide Whole, SameFile;
    WholeSame(l, d, d', i);
  }

  lemma NumberIs(l: Layout, g: nat, i: nat)
    ensures InodeNumber(l, g, i) == g * l.inodesPerGroup + i + 1
  {}

  lemma NumberBack(l: Layout, n: nat)
    requires l.inodesPerGroup > 0 && n > 0
    ensures (n - 1) / l.inodesPerGroup >= 0
    ensures InodeNumber(l, (n - 1) / l.inodesPerGroup, (n - 1) % l.inodesPerGroup) == n
  {
    DivModSplit(n - 1, l.inodesPerGroup);
  }

  lemma FreshNumber(n: nat)
    ensures FreshInode(n).number == n && FreshInode(n).kind == Regular && FreshInode(n).links == 1
  {}

  lemma OthersJoin(l: Layout, d: Disk, d': Disk, ino: map<nat, Inode>, i: Inode)
    requires OthersSame(l, d, d', ino, ino, i.number)
    ensures OthersSame(l, d, d', ino, ino[i.number := i], i.number)
  {}

  lemma CreateEnds(l: Layout, d: Disk, d2: Disk, d3: Disk, i: map<nat, Inode>, i2: map<nat, Inode>, i3: map<nat, Inode>,
                   dir: Inode, n: nat)
    requires OthersSame(l, d, d2, i, i2, n) && OthersSame(l, d2, d3, i2, i3, dir.number)
    requires i2 == i[n := FreshInode(n)] && dir.number in i2 && i2[dir.number] == dir && i3 == i2[dir.number := dir]
    ensures i3 == i[n := FreshInode(n)] && Untouched(l, d, d3, i, i3, dir.number, n)
  {
    assert i3 == i2;
    UntouchedBy(l, d, d2, i, i2, n, dir.number, n);
    UntouchedBy(l, d2, d3, i2, i3, dir.number, dir.number, n);
    UntouchedTwice(l, d, d2, d3, i, i2, i3, dir.number, n);
  }

  // ----- names fit -----

  lemma {:induction false} WalkNames(b: Block, at: nat)
    ensures forall k :: 0 <= k < |Walk(b, at).0| ==> |Walk(b, at).0[k].name| <= MAX_NAME
    decreases |b| - at
  {
    if at + 8 <= |b| && Sound(b, at) {
      WalkNames(b, at + RecordLen(b, at));
    }
  }

  lemma {:induction false} DirNames(l: Layout, d: Disk, i: Inode, j: nat, n: nat)
    ensures forall k :: 0 <= k < |DirWalk(l, d, i, j, n).0| ==> |DirWalk(l, d, i, j, n).0[k].name| <= MAX_NAME
    decreases n - j
  {
    if j < n {
      WalkNames(BlockBytes(l, d, i, j), 0);
      DirNames(l, d, i, j + 1, n);
    }
  }

  lemma LongNameAbsent(l: Layout, d: Disk, i: Inode, name: Name)
    requires |name| > MAX_NAME
    ensures name !in NameMap(Listing(l, d, i))
  {
    DirNames(l, d, i, 0, BlocksFor(l, i.size));
    NameMapKeys(Listing(l, d, i), name);
  }

  // ----- one link fewer -----

  lemma NewLinks(l: Layout, d: Disk, fb: nat, fi: nat, i: map<nat, Inode>, i': map<nat, Inode>, owner: map<nat, Claim>,
                 n: nat, t: Inode)
    requires Booked(l, d, fb, fi) && Owned(l, d, Used(l, d), i, owner) && n in i && i[n].kind != Directory
    requires t == i[n].(links := t.links) && i' == i[n := t]
    requires 0 !in i && Synced(l, d, i, 0) && AllTrimmed(l, d, i, 0) && Listed(l, d, i) && AllTidy(l, d, i)
    ensures Owned(l, d, Used(l, d), i', owner) && 0 !in i' && AllTrimmed(l, d, i', 0) && Listed(l, d, i') && AllTidy(l, d, i')
    ensures Synced(l, d, i', n) && Slotted(l, d, t) && t.number == n && OthersSame(l, d, d, i, i', n)
  {
    hide *;
    RelinkOwned(l, d, Used(l, d), i, i', owner, n);
    RelinkTrimmed(l, d, i, i', n);
    RelinkSynced(l, d, i, i', n, t);
    RelinkTidy(l, d, i, i', n);
  }

  lemma RelinkOwned(l: Layout, d: Disk, used: set<nat>, i: map<nat, Inode>, i': map<nat, Inode>, owner: map<nat, Claim>, n: nat)
    requires Owned(l, d, used, i, owner) && n in i && n in i' && i' == i[n := i[n].(links := i'[n].links)]
    ensures Owned(l, d, used, i', owner)
  {
    forall g, p | ValidPath(l, p) ensures OwnedAt(l, d, i', owner, g, p) {
      assert OwnedAt(l, d, i, owner, g, p);
    }
    forall m ensures ClaimHolds(l, d, i', owner, m) {
      assert ClaimHolds(l, d, i, owner, m);
    }
  }

  lemma RelinkTrimmed(l: Layout, d: Disk, i: map<nat, Inode>, i': map<nat, Inode>, n: nat)
    requires AllTrimmed(l, d, i, 0) && Listed(l, d, i) && n in i && n in i' && i' == i[n := i[n].(links := i'[n].links)]
    ensures AllTrimmed(l, d, i', 0) && Listed(l, d, i')
  {
    hide InodeInUse;
    hide BlocksFor;
    forall g | g in i' && g != 0 ensures Trimmed(l, d, i'[g], BlocksFor(l, i'[g].size)) {
      assert Trimmed(l, d, i[g], BlocksFor(l, i[g].size));
    }
  }

  lemma RelinkSynced(l: Layout, d: Disk, i: map<nat, Inode>, i': map<nat, Inode>, n: nat, t: Inode)
    requires Synced(l, d, i, 0) && 0 !in i && n in i && t == i[n].(links := t.links) && i' == i[n := t]
    ensures Synced(l, d, i', n) && Slotted(l, d, t) && t.number == n
  {
    assert SyncedAt(l, d, i[n], n);
    hide SyncedAt;
  }

  lemma RelinkTidy(l: Layout, d: Disk, i: map<nat, Inode>, i': map<nat, Inode>, n: nat)
    requires AllTidy(l, d, i) && n in i && n in i' && i[n].kind != Directory && i' == i[n := i[n].(links := i'[n].links)]
    ensures AllTidy(l, d, i') && OthersSame(l, d, d, i, i', n)
  {
    hide TidyDir;
  }

  lemma FewerLinks(l: Layout, d: Disk, d': Disk, i: map<nat, Inode>, i': map<nat, Inode>, n: nat, t: Inode)
    requires n in i && i[n].links > 1 && t == i[n].(links := i[n].links - 1) && i' == i[n := t]
    requires OthersSame(l, d, d, i, i', n) && OthersSame(l, d, d', i', i', n)
    ensures i' == FewerIn(i, n) && OthersSame(l, d, d', i, i', n)
  {
    OthersTwice(l, d, d, d', i, i', i', n);
  }

  lemma ZeroBlocks(l: Layout)
    ensures BlocksFor(l, 0) == 0
  {}

  lemma MarkOf(l: Layout, d: Disk, ino: map<nat, Inode>, n: nat)
    requires Listed(l, d, ino) && n in ino
    ensures InodeInUse(l, d, n)
  {}

  /** A file of no length holds no block at all. */
  lemma EmptiedSlots(l: Layout, d: Disk, ino: map<nat, Inode>, n: nat)
    requires l.Geometry() && AllTrimmed(l, d, ino, 0) && n in ino && n != 0 && ino[n].size == 0
    ensures |ino[n].blocks| == 15 && forall k :: 0 <= k < 15 ==> ino[n].blocks[k] == 0
  {
    ZeroBlocks(l);
    hide BlocksFor;
    assert Trimmed(l, d, ino[n], BlocksFor(l, ino[n].size));
    forall k | 0 <= k < 12 ensures ino[n].blocks[k] == 0 {
      PathOfDirect(l, d, ino[n].blocks, k);
    }
  }

  lemma InodeGone(l: Layout, d: Disk, ino: map<nat, Inode>, owner: map<nat, Claim>, n: nat)
    requires Owned(l, d, Used(l, d), ino, owner) && AllTrimmed(l, d, ino, 0) && AllTidy(l, d, ino) && Synced(l, d, ino, n)
    requires 0 !in ino
    ensures Owned(l, d, Used(l, d), ino - {n}, Abandoned(owner, n)) && AllTrimmed(l, d, ino - {n}, 0) && AllTidy(l, d, ino - {n})
    ensures Synced(l, d, ino - {n}, 0) && Lost(Abandoned(owner, n)) == Lost(owner) + Held(owner, n)
  {
    AbandonOwned(l, d, Used(l, d), ino, owner, n);
    hide *;
    SyncedLess(l, d, ino, n);
    TidyLess(l, d, ino, n);
  }

  lemma SyncedLess(l: Layout, d: Disk, ino: map<nat, Inode>, n: nat)
    requires Synced(l, d, ino, n)
    ensures Synced(l, d, ino - {n}, 0)
  {
    hide SyncedAt;
  }

  lemma TidyLess(l: Layout, d: Disk, ino: map<nat, Inode>, n: nat)
    requires AllTrimmed(l, d, ino, 0) && AllTidy(l, d, ino)
    ensures AllTrimmed(l, d, ino - {n}, 0) && AllTidy(l, d, ino - {n})
  {
    hide TidyDir, Trimmed, BlocksFor;
  }

  /** An inode of either sort reads back from its slot. */
  lemma AllReads(l: Layout, d: Disk, ino: map<nat, Inode>, sealed: map<nat, Inode>, n: nat)
    requires Synced(l, d, ino, 0) && 0 !in ino && Listed(l, d, ino) && Sealed(l, d, ino, sealed) && n in ino + sealed
    ensures SlotInode(l, d, n) == (ino + sealed)[n] && 0 < n <= l.inodesCount && InodeInUse(l, d, n)
    ensures n in ino ==> (ino + sealed)[n] == ino[n] && n !in sealed
  {
    hide SyncedAt, SlotInode, InodeInUse;
    if n in ino {
      SyncedReads(l, d, ino, n);
    } else {
      SyncedReads(l, d, sealed, n);
    }
  }

  /** One sealed inode taken out to be changed. */
  lemma Unsealed(l: Layout, d: Disk, ino: map<nat, Inode>, sealed: map<nat, Inode>, n: nat, t: Inode)
    requires Sealed(l, d, ino, sealed) && Synced(l, d, ino, 0) && 0 !in ino && n in sealed && t == sealed[n].(links := t.links)
    ensures Sealed(l, d, ino, sealed - {n}) && Synced(l, d, ino, n) && Slotted(l, d, t) && t.number == n && n !in ino
    ensures OthersSame(l, d, d, ino, ino, n) && t.kind == Other && t.sectors == 0
  {
    assert SyncedAt(l, d, sealed[n], n);
    hide *;
    UnsealedOthers(l, d, ino, sealed, n);
    OthersStay(l, d, ino, n);
  }

  lemma UnsealedOthers(l: Layout, d: Disk, ino: map<nat, Inode>, sealed: map<nat, Inode>, n: nat)
    requires Sealed(l, d, ino, sealed) && Synced(l, d, ino, 0) && 0 !in ino && n in sealed
    ensures Sealed(l, d, ino, sealed - {n}) && Synced(l, d, ino, n) && n !in ino
    ensures sealed[n].kind == Other && sealed[n].sectors == 0
  {
    hide SyncedAt, InodeInUse;
  }

  lemma OthersStay(l: Layout, d: Disk, ino: map<nat, Inode>, n: nat)
    ensures OthersSame(l, d, d, ino, ino, n)
  {
    hide Hole, FileByte;
  }

  /** And put back. */
  lemma Resealed(l: Layout, d: Disk, ino: map<nat, Inode>, sealed: map<nat, Inode>, t: Inode)
    requires Sealed(l, d, ino, sealed) && SyncedAt(l, d, t, t.number) && InodeInUse(l, d, t.number)
    requires t.number !in ino && t.kind == Other && t.sectors == 0
    ensures Sealed(l, d, ino, sealed[t.number := t])
  {
    assert t.number > 0;
    hide SyncedAt, InodeInUse;
  }

  lemma SealedKeys(l: Layout, d: Disk, ino: map<nat, Inode>, ino': map<nat, Inode>, sealed: map<nat, Inode>)
    requires Sealed(l, d, ino, sealed) && ino'.Keys == ino.Keys
    ensures Sealed(l, d, ino', sealed)
  {
    hide Synced, Listed;
  }

  lemma SealedFewer(l: Layout, d: Disk, ino: map<nat, Inode>, sealed: map<nat, Inode>, n: nat)
    requires Sealed(l, d, ino, sealed)
    ensures Sealed(l, d, ino - {n}, sealed)
  {
    hide Synced, Listed;
  }

  lemma BuriedOthers(l: Layout, d: Disk, d1: Disk, d2: Disk, d3: Disk, i: map<nat, Inode>, n: nat)
    requires OthersSame(l, d, d1, i, i, n) && OthersSame(l, d1, d2, i, i, n) && OthersSame(l, d2, d3, i, i, n)
    ensures OthersSame(l, d, d3, i, i - {n}, n)
  {
    OthersTwice(l, d, d1, d2, i, i, i, n);
    OthersTwice(l, d, d2, d3, i, i, i, n);
  }

  lemma GoneOthers(l: Layout, d: Disk, d1: Disk, d2: Disk, i: map<nat, Inode>, i1: map<nat, Inode>, i2: map<nat, Inode>, n: nat)
    requires OthersSame(l, d, d1, i, i1, n) && OthersSame(l, d1, d2, i1, i2, n)
    requires n in i ==> i[n].links <= 1
    requires i1 - {n} == i - {n} && i2 == i1 - {n}
    ensures OthersSame(l, d, d2, i, i2, n) && i2 == FewerIn(i, n)
  {
    hide OthersSame;
    OthersTwice(l, d, d1, d2, i, i1, i2, n);
  }

  // ----- one name fewer -----

  /** The inode a name stands for, or 0 for a name that is not there. */
  function Named(es: seq<Entry>, name: Name): nat { if name in NameMap(es) then NameMap(es)[name] else 0 }

  lemma NamedFacts(l: Layout, es: seq<Entry>, name: Name)
    requires TidyNames(l, es)
    ensures Named(es, name) == 0 <==> Find(es, name).None?
    ensures Named(es, name) != 0 ==> name in NameMap(es) && NameMap(es)[name] == Named(es, name)
    ensures Find(es, name).Some? ==> Named(es, name) == Find(es, name).value && 0 < Named(es, name) <= l.inodesCount
  {
    LookupTidy(l, es, name);
  }

  ghost predicate EntryFound(l: Layout, d: Disk, i: Inode, name: Name, j: nat, number: nat, at: nat, previous: Option<nat>)
  {
    && j < BlocksFor(l, i.size) && !Hole(l, d, i, j) && PtrAt(d, i.blocks, PathOf(l, j)) == number
    && FoundAt(BlockBytes(l, d, i, j), name, at, previous)
  }

  lemma EntryFoundIs(l: Layout, d: Disk, i: Inode, name: Name, j: nat, number: nat, at: nat, previous: Option<nat>)
    requires j < BlocksFor(l, i.size) && !Hole(l, d, i, j) && PtrAt(d, i.blocks, PathOf(l, j)) == number
    requires FoundAt(BlockBytes(l, d, i, j), name, at, previous)
    ensures EntryFound(l, d, i, name, j, number, at, previous)
  {}

  lemma EntryFoundFacts(l: Layout, d: Disk, ino: map<nat, Inode>, owner: map<nat, Claim>, i: Inode, name: Name, j: nat,
                        number: nat, at: nat, previous: Option<nat>)
    requires l.Geometry() && l.Shaped(d) && Tree(l, d, ino, owner) && i.number in ino && ino[i.number] == i
    requires EntryFound(l, d, i, name, j, number, at, previous)
    ensures PtrAt(d, i.blocks, PathOf(l, j)) == number != 0 && number !in l.roles && number < |d| && |d[number]| == l.blockSize
    ensures j < BlocksFor(l, i.size) && !Hole(l, d, i, j) && d[number] == BlockBytes(l, d, i, j) && l.blockSize > 0
    ensures var b := d[number];
            && Sound(b, at) && Get32(b, at) != 0
            && (previous.Some? ==> previous.value + 8 <= |b| && RecordLen(b, previous.value) + RecordLen(b, at) < 0x1_0000)
            && FoundAt(b, name, at, previous) && |b| < 0x1_0000
  {
    BlockAt(l, d, ino, owner, i, j);
    BlockBytesIs(l, d, ino, owner, i, j);
    hide Tree;
    hide PtrAt;
    hide Chain;
    hide Tiled;
    hide BlockBytes;
  }

  /** Absorbing or blanking the record takes exactly that name out of the block. */
  lemma AbsorbedRemoves(b: Block, name: Name, at: nat, previous: Option<nat>)
    requires FoundAt(b, name, at, previous) && |b| < 0x1_0000 && Sound(b, at)
    requires previous.Some? ==> previous.value + 8 <= |b| && RecordLen(b, previous.value) + RecordLen(b, at) < 0x1_0000
    ensures Tiled(Absorbed(b, at, previous), 0)
    ensures Removed(Walk(b, 0).0, Walk(Absorbed(b, at, previous), 0).0, name)
  {
    if previous.None? {
      BlankedLists(b, at);
      RemovedIs(Walk(b, 0).0, Walk(Absorbed(b, at, previous), 0).0, name, |Between(b, 0, at)|);
    } else {
      var before := previous.value;
      AbsorbedLists(b, at, before);
      RemovedIs(Walk(b, 0).0, Walk(Absorbed(b, at, previous), 0).0, name, |Between(b, 0, before) + Shown(b, before)|);
    }
  }

  lemma RemovedIs(old_: seq<Entry>, new_: seq<Entry>, name: Name, k: nat)
    requires RemovedAt(old_, new_, k) && old_[k].name == name
    ensures Removed(old_, new_, name)
  {}

  /** The directory's part of a successful `unlink`: one name fewer in one directory. */
  lemma Unlinked(l: Layout, d: Disk, d2: Disk, ino: map<nat, Inode>, i: Inode, name: Name, j: nat, c: Block)
    requires l.blockSize > 0 && i.number in ino && ino[i.number] == i && i.kind == Directory && AllTidy(l, d, ino)
    requires !Hole(l, d, i, j) && j < BlocksFor(l, i.size) && |c| == l.blockSize && Tiled(c, 0)
    requires Removed(Walk(BlockBytes(l, d, i, j), 0).0, Walk(c, 0).0, name)
    requires Wrote(l, d, d2, ino, ino, i.number, BlockStart(l, j), c) && PointersKept(l, d, d2, ino, ino, 0, -1)
    ensures AllTidy(l, d2, ino) && OthersSame(l, d, d2, ino, ino, i.number)
    ensures NameMap(Listing(l, d2, i)) == NameMap(Listing(l, d, i)) - {name}
  {
    hide *;
    TidyFacts(l, d, ino, i);
    DirBlockChanged(l, d, d2, ino, i, j, c);
    DirLost(l, d, d2, i, j, name);
    RemovedTidy(l, Listing(l, d, i), Listing(l, d2, i), name);
    TidyDirIs(l, d2, i);
    TidyWithDir(l, d, d2, ino, i.number);
  }

  lemma DirLost(l: Layout, d: Disk, d': Disk, i: Inode, j: nat, name: Name)
    requires BlockChanged(l, d, d', i, j) && TidyBlocks(l, d, i) && j < BlocksFor(l, i.size)
    requires Tiled(BlockBytes(l, d', i, j), 0)
    requires Removed(Walk(BlockBytes(l, d, i, j), 0).0, Walk(BlockBytes(l, d', i, j), 0).0, name)
    ensures TidyBlocks(l, d', i) && Removed(Listing(l, d, i), Listing(l, d', i), name)
  {
    var old_, new_ := Walk(BlockBytes(l, d, i, j), 0).0, Walk(BlockBytes(l, d', i, j), 0).0;
    var k: nat :| RemovedAt(old_, new_, k) && old_[k].name == name;
    DirRemoved(l, d, d', i, j, k);
  }

  /** An inode holds a block exactly when it counts sectors. */
  lemma HoldsIffSectors(l: Layout, d: Disk, used: set<nat>, ino: map<nat, Inode>, sealed: map<nat, Inode>,
                        owner: map<nat, Claim>, n: nat)
    requires l.Geometry() && Owned(l, d, used, ino, owner) && Sealed(l, d, ino, sealed) && n in ino + sealed && n != 0
    ensures Held(owner, n) == {} <==> (ino + sealed)[n].sectors == 0
  {
    hide Synced, Listed, Claimed;
    if n in ino {
      assert (ino + sealed)[n] == ino[n];
      assert ino[n].sectors == l.blockSize / 512 * |Held(owner, n)|;
    } else {
      forall m | m in owner ensures owner[m].file != n {
        assert ClaimHolds(l, d, ino, owner, m);
      }
    }
  }

  /** When nothing was lost before, something is lost exactly if what went had blocks and was not a regular file. */
  lemma LossIff(l: Layout, d: Disk, d': Disk, ino: map<nat, Inode>, ino': map<nat, Inode>, sealed: map<nat, Inode>,
                owner: map<nat, Claim>, owner': map<nat, Claim>, n: nat)
    requires l.Geometry() && Owned(l, d, Used(l, d), ino, owner) && Sealed(l, d, ino, sealed) && n in ino + sealed && n != 0
    requires Owned(l, d', Used(l, d'), ino', owner') && 0 !in ino && 0 !in ino'
    requires Lost(owner') == Lost(owner) + if Leaves((ino + sealed)[n]) then Held(owner, n) else {}
    ensures AllReached(l, d, ino) ==>
              (AllReached(l, d', ino') <==> !Leaves((ino + sealed)[n]) || (ino + sealed)[n].sectors == 0)
  {
    hide *;
    NothingLostIff(l, d, ino, owner);
    NothingLostIff(l, d', ino', owner');
    HoldsIffSectors(l, d, Used(l, d), ino, sealed, owner, n);
  }

  lemma UnlinkEnds(l: Layout, d: Disk, d1: Disk, d2: Disk, i: map<nat, Inode>, i2: map<nat, Inode>, dir: Inode, n: nat)
    requires OthersSame(l, d, d1, i, i, dir.number) && OthersSame(l, d1, d2, i, i2, n) && i2 == FewerIn(i, n)
    requires dir.number in i && i[dir.number] == dir && dir.number != n
    ensures Untouched(l, d, d2, i, i2, dir.number, n) && Listing(l, d2, dir) == Listing(l, d1, dir)
  {
    UntouchedBy(l, d, d1, i, i, dir.number, dir.number, n);
    UntouchedBy(l, d1, d2, i, i2, n, dir.number, n);
    hide OthersSame;
    UntouchedTwice(l, d, d1, d2, i, i, i2, dir.number, n);
    SameListing(l, d1, d2, i, i2, n, dir);
  }

  // ----- one name more -----

  /** Writing the block with the new entry, seen by everything a mounted volume keeps. */
  lemma LinkEnds(l: Layout, d: Disk, d2: Disk, fb: nat, fi: nat, ino: map<nat, Inode>, sealed: map<nat, Inode>,
                 owner: map<nat, Claim>, dir: Inode, j: nat, n: nat, c: Block, e: Entry)
    requires Booked(l, d, fb, fi) && Owned(l, d, Used(l, d), ino, owner) && dir.number in ino && ino[dir.number] == dir
    requires dir.kind == Directory && !Hole(l, d, dir, j) && j < BlocksFor(l, dir.size) && 0 < e.inode <= l.inodesCount
    requires PtrAt(d, dir.blocks, PathOf(l, j)) == n != 0 && n < |d| && n !in l.roles && d2 == d[n := c]
    requires |c| == l.blockSize && Tiled(c, 0) && Added(Walk(BlockBytes(l, d, dir, j), 0).0, Walk(c, 0).0, e)
    requires 0 !in ino && AllTrimmed(l, d, ino, 0) && Synced(l, d, ino, 0) && Listed(l, d, ino) && AllTidy(l, d, ino)
    requires Sealed(l, d, ino, sealed)
    ensures Booked(l, d2, fb, fi) && Owned(l, d2, Used(l, d2), ino, owner) && Entered(l, d, d2, ino, dir, e)
    ensures AllTrimmed(l, d2, ino, 0) && Synced(l, d2, ino, 0) && Listed(l, d2, ino) && Sealed(l, d2, ino, sealed)
    ensures e.name !in NameMap(Listing(l, d, dir)) ==> AllTidy(l, d2, ino)
    ensures e.name !in NameMap(Listing(l, d, dir)) ==>
              Referenced(Dirs(l, d, ino), ino + sealed) && Adopts(Dirs(l, d, ino), ino + sealed, e.inode) ==>
                Referenced(Dirs(l, d2, ino), ino + sealed)
  {
    hide *;
    BookedFacts(l, d, fb, fi);
    DirBlockWritten(l, d, d2, fb, fi, ino, owner, dir, j, n, c);
    Linked(l, d, d2, ino, dir, j, c, e);
    DirWriteKeeps(l, d, d2, ino);
    SealedTables(l, d, d2, ino, ino, sealed);
    if e.name !in NameMap(Listing(l, d, dir)) && Referenced(Dirs(l, d, ino), ino + sealed)
       && Adopts(Dirs(l, d, ino), ino + sealed, e.inode) {
      EnteredFacts(l, d, d2, ino, dir, e);
      LinksMore(l, d, d2, ino, sealed, dir, e.name, e.inode);
    }
  }
}
