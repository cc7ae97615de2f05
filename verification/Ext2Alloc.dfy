/**
 What claiming or releasing one bit does to a volume: the bitmap, the group descriptor
 and the superblock change together, and every count stays true.
 */
module Ext2Alloc {
  import opened Common
  import opened Ext2Bits
  import opened Ext2Layout

  ghost predicate Booked(l: Layout, disk: Disk, freeBlocks: nat, freeInodes: nat)
  {
    l.Ok() && l.Shaped(disk) && l.Described(disk) && l.Counted(disk, freeBlocks, freeInodes)
  }

  /** `claim_bit` or `release_bit`: one bit of a group's bitmap changed. */
  predicate Toggled(l: Layout, d: Disk, d': Disk, w: Which, g: nat, i: nat, on: bool)
  {
    var n := l.Map(w, g);
    n < |d| && i / 8 < |d[n]| && d' == d[n := SetBit(d[n], i, on)]
  }

  /** A descriptor's free count replaced by `v`. */
  predicate Recounted(l: Layout, d: Disk, d': Disk, w: Which, g: nat, v: u16)
  {
    var n, at := l.DescBlock(g), l.DescAt(g) + CountField(w);
    n < |d| && at + 2 <= |d[n]| && d' == d[n := Put16(d[n], at, v)]
  }

  /** `flush_superblock`: both totals written. */
  predicate Flushed(l: Layout, d: Disk, d': Disk, freeBlocks: u32, freeInodes: u32)
  {
    var n, at := l.SuperBlock(), l.SuperAt();
    n < |d| && at + 20 <= |d[n]| && d' == d[n := Put32(Put32(d[n], at + 12, freeBlocks), at + 16, freeInodes)]
  }

  // ----- counts -----

  lemma ToggleGroupFree(l: Layout, d: Disk, d': Disk, w: Which, g: nat, i: nat, on: bool, w': Which, h: nat)
    requires l.Ok() && l.Shaped(d) && g < l.Groups() && h < l.Groups() && i < l.Limit(w, g)
    requires Toggled(l, d, d', w, g, i, on) && Marked(d, l.Map(w, g), i) == !on
    ensures l.GroupFree(d', w', h) == l.GroupFree(d, w', h) + if (w', h) == (w, g) then (if on then -1 else 1) else 0
  {
    if (w', h) == (w, g) {
      LimitFits(l, w, g);
      ClearBitsAfter(d[l.Map(w, g)], i, on, l.Limit(w, g));
    } else {
      BitmapsApart(l, w, g, w', h);
    }
  }

  /** One group's count moves the total by as much. */
  lemma {:induction false} FreeMoves(l: Layout, d: Disk, d': Disk, w: Which, g: nat, delta: int, k: nat)
    requires k <= l.Groups()
    requires forall h :: 0 <= h < l.Groups() ==>
               l.GroupFree(d', w, h) == l.GroupFree(d, w, h) + if h == g then delta else 0
    ensures l.Free(d', w, k) == l.Free(d, w, k) + if g < k then delta else 0
    decreases k
  {
    if k > 0 {
      FreeMoves(l, d, d', w, g, delta, k - 1);
    }
  }

  /** Nothing counts more free than the volume holds. */
  lemma {:induction false} FreeBound(l: Layout, d: Disk, k: nat)
    requires l.Geometry() && k <= l.Groups()
    ensures l.Free(d, Blocks, k) <= k * l.blocksPerGroup && l.Free(d, Blocks, k) <= l.blocksCount
    ensures l.Free(d, Inodes, k) <= k * l.inodesPerGroup
  {
    if k > 0 {
      FreeBound(l, d, k - 1);
      LimitFits(l, Blocks, k - 1);
      assert (k - 1) * l.blocksPerGroup + l.blocksPerGroup == k * l.blocksPerGroup;
      assert (k - 1) * l.inodesPerGroup + l.inodesPerGroup == k * l.inodesPerGroup;
    }
  }

  lemma ToggleCounts(l: Layout, d: Disk, d': Disk, w: Which, g: nat, i: nat, on: bool)
    requires l.Ok() && l.Shaped(d) && g < l.Groups() && i < l.Limit(w, g)
    requires Toggled(l, d, d', w, g, i, on) && Marked(d, l.Map(w, g), i) == !on
    ensures var delta := if on then -1 else 1;
            && (forall h :: 0 <= h < l.Groups() ==>
                  && l.GroupFree(d', w, h) == l.GroupFree(d, w, h) + (if h == g then delta else 0)
                  && l.GroupFree(d', w.Other(), h) == l.GroupFree(d, w.Other(), h))
            && l.Free(d', w, l.Groups()) == l.Free(d, w, l.Groups()) + delta
            && l.Free(d', w.Other(), l.Groups()) == l.Free(d, w.Other(), l.Groups())
  {
    var delta := if on then -1 else 1;
    forall h | 0 <= h < l.Groups()
      ensures l.GroupFree(d', w, h) == l.GroupFree(d, w, h) + if h == g then delta else 0
      ensures l.GroupFree(d', w.Other(), h) == l.GroupFree(d, w.Other(), h)
    {
      ToggleGroupFree(l, d, d', w, g, i, on, w, h);
      ToggleGroupFree(l, d, d', w, g, i, on, w.Other(), h);
    }
    FreeMoves(l, d, d', w, g, delta, l.Groups());
    FreeMoves(l, d, d', w.Other(), g, 0, l.Groups());
  }

  /** Counts read only the bitmaps. */
  lemma SameBitmapsSameFree(l: Layout, d: Disk, d': Disk, w: Which)
    requires |d| == |d'| && forall g :: 0 <= g < l.Groups() ==> l.Map(w, g) < |d| && d'[l.Map(w, g)] == d[l.Map(w, g)]
    ensures forall g :: 0 <= g < l.Groups() ==> l.GroupFree(d', w, g) == l.GroupFree(d, w, g)
    ensures l.Free(d', w, l.Groups()) == l.Free(d, w, l.Groups())
  {
    FreeMoves(l, d, d', w, 0, 0, l.Groups());
  }

  // ----- descriptors -----

  /** Moving one group's count leaves every other descriptor field as it was. */
  lemma {:induction false} RecountedFields(l: Layout, d: Disk, d': Disk, w: Which, g: nat, v: u16, h: nat)
    requires l.Geometry() && l.Shaped(d) && Recounted(l, d, d', w, g, v) && l.DescribedAt(d, g) && l.DescribedAt(d, h)
    ensures l.DescribedAt(d', h)
    ensures Half(d', l.DescBlock(h), l.DescAt(h) + CountField(w)) ==
              if h == g then v else Half(d, l.DescBlock(h), l.DescAt(h) + CountField(w))
    ensures Half(d', l.DescBlock(h), l.DescAt(h) + CountField(w.Other())) ==
              Half(d, l.DescBlock(h), l.DescAt(h) + CountField(w.Other()))
  {
    if l.DescBlock(h) == l.DescBlock(g) {
      var b, c := d[l.DescBlock(h)], d'[l.DescBlock(h)];
      var at := l.DescAt(g) + CountField(w);
      if h != g {
        DescApart(l, g, h);
      }
      Get32Same(b, c, at, 2, l.DescAt(h));
      Get32Same(b, c, at, 2, l.DescAt(h) + 4);
      Get32Same(b, c, at, 2, l.DescAt(h) + 8);
      Get16Same(b, c, at, 2, l.DescAt(h) + CountField(w.Other()));
      if h != g {
        Get16Same(b, c, at, 2, l.DescAt(h) + CountField(w));
      }
    }
  }

  lemma ToggleAt(l: Layout, d: Disk, d': Disk, w: Which, g: nat, i: nat, on: bool, h: nat)
    requires l.Ok() && l.Shaped(d) && g < l.Groups() && h < l.Groups() && i < l.Limit(w, g)
    requires Toggled(l, d, d', w, g, i, on) && Marked(d, l.Map(w, g), i) == !on
    requires l.DescribedAt(d, h) && l.GroupCounted(d, h)
    ensures l.DescribedAt(d', h) && l.CountedFor(d', w.Other(), h) && (h != g ==> l.GroupCounted(d', h))
    ensures l.GroupFree(d', w, h) == Half(d', l.DescBlock(h), l.DescAt(h) + CountField(w)) +
                                     if h != g then 0 else if on then -1 else 1
  {
    ToggleGroupFree(l, d, d', w, g, i, on, w, h);
    ToggleGroupFree(l, d, d', w, g, i, on, w.Other(), h);
    BookkeepingApart(l, w, g, h);
    assert l.CountedFor(d, w, h) && l.CountedFor(d, w.Other(), h);
    assert h != g ==> l.CountedFor(d', w, h);
  }

  lemma GroupFacts(l: Layout, d: Disk, h: nat)
    requires l.Described(d) && l.GroupsCounted(d) && h < l.Groups()
    ensures l.DescribedAt(d, h) && l.GroupCounted(d, h)
  {}

  lemma AllDescribed(l: Layout, d: Disk)
    requires forall h :: 0 <= h < l.Groups() ==> l.DescribedAt(d, h)
    ensures l.Described(d)
  {}

  /** With only the bit changed, every count is still right but the one about to be moved. */
  lemma {:induction false} ToggleStage(l: Layout, d: Disk, d': Disk, w: Which, g: nat, i: nat, on: bool)
    requires l.Ok() && l.Shaped(d) && l.Described(d) && l.GroupsCounted(d) && g < l.Groups() && i < l.Limit(w, g)
    requires Toggled(l, d, d', w, g, i, on) && Marked(d, l.Map(w, g), i) == !on
    ensures l.Shaped(d') && l.Described(d')
    ensures forall h :: 0 <= h < l.Groups() && h != g ==> l.GroupCounted(d', h)
    ensures l.CountedFor(d', w.Other(), g)
    ensures l.GroupFree(d', w, g) == Half(d', l.DescBlock(g), l.DescAt(g) + CountField(w)) + if on then -1 else 1
    ensures l.Free(d', w, l.Groups()) == l.Free(d, w, l.Groups()) + if on then -1 else 1
    ensures l.Free(d', w.Other(), l.Groups()) == l.Free(d, w.Other(), l.Groups())
  {
    ToggleCounts(l, d, d', w, g, i, on);
    forall h | 0 <= h < l.Groups() ensures l.DescribedAt(d', h) && (h != g ==> l.GroupCounted(d', h)) {
      GroupFacts(l, d, h);
      ToggleAt(l, d, d', w, g, i, on, h);
    }
    AllDescribed(l, d');
    GroupFacts(l, d, g);
    ToggleAt(l, d, d', w, g, i, on, g);
  }

  lemma RecountAt(l: Layout, d: Disk, d': Disk, w: Which, g: nat, v: u16, h: nat)
    requires l.Geometry() && l.Shaped(d) && Recounted(l, d, d', w, g, v) && l.DescribedAt(d, g) && l.DescribedAt(d, h)
    requires l.GroupFree(d', w, h) == l.GroupFree(d, w, h)
    requires l.GroupFree(d', w.Other(), h) == l.GroupFree(d, w.Other(), h)
    requires l.CountedFor(d, w.Other(), h) && if h == g then v == l.GroupFree(d, w, h) else l.CountedFor(d, w, h)
    ensures l.DescribedAt(d', h) && l.GroupCounted(d', h)
  {
    RecountedFields(l, d, d', w, g, v, h);
    assert l.CountedFor(d', w, h) && l.CountedFor(d', w.Other(), h);
  }

  /** After the descriptor is rewritten, every group's count is the number of its clear bits. */
  lemma RecountStage(l: Layout, d: Disk, d': Disk, w: Which, g: nat, v: u16)
    requires l.Ok() && l.Shaped(d) && l.Described(d) && g < l.Groups() && Recounted(l, d, d', w, g, v)
    requires forall h :: 0 <= h < l.Groups() && h != g ==> l.GroupCounted(d, h)
    requires l.CountedFor(d, w.Other(), g) && v == l.GroupFree(d, w, g)
    ensures l.Shaped(d') && l.Described(d') && l.GroupsCounted(d')
    ensures l.Free(d', Blocks, l.Groups()) == l.Free(d, Blocks, l.Groups())
    ensures l.Free(d', Inodes, l.Groups()) == l.Free(d, Inodes, l.Groups())
  {
    forall w', h | 0 <= h < l.Groups() ensures l.Map(w', h) < |d| && d'[l.Map(w', h)] == d[l.Map(w', h)] {
      BookkeepingApart(l, w', h, g);
    }
    SameBitmapsSameFree(l, d, d', Blocks);
    SameBitmapsSameFree(l, d, d', Inodes);
    forall h | 0 <= h < l.Groups()
      ensures l.DescribedAt(d', h) && l.GroupCounted(d', h)
    {
      assert h != g ==> l.GroupCounted(d, h);
      assert l.DescribedAt(d, h) && l.DescribedAt(d, g);
      RecountAt(l, d, d', w, g, v, h);
    }
  }

  /** Writing both totals into the superblock completes the books. */
  lemma {:induction false} SuperStage(l: Layout, d: Disk, d': Disk, fb: u32, fi: u32)
    requires l.Ok() && l.Shaped(d) && l.Described(d) && l.GroupsCounted(d) && Flushed(l, d, d', fb, fi)
    requires fb == l.Free(d, Blocks, l.Groups()) && fi == l.Free(d, Inodes, l.Groups())
    ensures Booked(l, d', fb, fi)
  {
    hide *;
    SuperFlushed(l, d, d', fb, fi);
    forall h | 0 <= h < l.Groups() ensures l.DescribedAt(d', h) && l.GroupCounted(d', h) {
      GroupFacts(l, d, h);
      FlushAt(l, d, d', fb, fi, h);
    }
    AllDescribed(l, d');
    BookedIs(l, d', fb, fi);
  }

  lemma FlushMaps(l: Layout, d: Disk, d': Disk, w: Which, fb: u32, fi: u32)
    requires l.Ok() && l.Shaped(d) && Flushed(l, d, d', fb, fi)
    ensures |d| == |d'|
    ensures forall h :: 0 <= h < l.Groups() ==> l.Map(w, h) < |d| && d'[l.Map(w, h)] == d[l.Map(w, h)]
  {
    forall h | 0 <= h < l.Groups() ensures l.Map(w, h) < |d| && d'[l.Map(w, h)] == d[l.Map(w, h)] {
      BookkeepingApart(l, w, h, h);
    }
  }

  lemma SuperFlushed(l: Layout, d: Disk, d': Disk, fb: u32, fi: u32)
    requires l.Ok() && l.Shaped(d) && Flushed(l, d, d', fb, fi)
    ensures l.Shaped(d')
    ensures l.Free(d', Blocks, l.Groups()) == l.Free(d, Blocks, l.Groups())
    ensures l.Free(d', Inodes, l.Groups()) == l.Free(d, Inodes, l.Groups())
    ensures forall h :: 0 <= h < l.Groups() ==> l.GroupFree(d', Blocks, h) == l.GroupFree(d, Blocks, h)
    ensures forall h :: 0 <= h < l.Groups() ==> l.GroupFree(d', Inodes, h) == l.GroupFree(d, Inodes, h)
    ensures Word(d', l.SuperBlock(), l.SuperAt() + 12) == fb && Word(d', l.SuperBlock(), l.SuperAt() + 16) == fi
  {
    FlushMaps(l, d, d', Blocks, fb, fi);
    FlushMaps(l, d, d', Inodes, fb, fi);
    SameBitmapsSameFree(l, d, d', Blocks);
    SameBitmapsSameFree(l, d, d', Inodes);
    var b := Put32(d[l.SuperBlock()], l.SuperAt() + 12, fb);
    Get32Same(b, Put32(b, l.SuperAt() + 16, fi), l.SuperAt() + 16, 4, l.SuperAt() + 12);
  }

  lemma FlushAt(l: Layout, d: Disk, d': Disk, fb: u32, fi: u32, h: nat)
    requires l.Ok() && l.Shaped(d) && Flushed(l, d, d', fb, fi) && h < l.Groups()
    requires l.DescribedAt(d, h) && l.GroupCounted(d, h)
    requires l.GroupFree(d', Blocks, h) == l.GroupFree(d, Blocks, h)
    requires l.GroupFree(d', Inodes, h) == l.GroupFree(d, Inodes, h)
    ensures l.DescribedAt(d', h) && l.GroupCounted(d', h)
  {
    BookkeepingApart(l, Blocks, h, h);
    hide Layout.GroupFree;
  }

  lemma BookedIs(l: Layout, d: Disk, fb: nat, fi: nat)
    requires l.Ok() && l.Shaped(d) && l.Described(d) && forall h :: 0 <= h < l.Groups() ==> l.GroupCounted(d, h)
    requires fb == l.Free(d, Blocks, l.Groups()) == Word(d, l.SuperBlock(), l.SuperAt() + 12)
    requires fi == l.Free(d, Inodes, l.Groups()) == Word(d, l.SuperBlock(), l.SuperAt() + 16)
    ensures Booked(l, d, fb, fi)
  {}

  lemma BooksOpened(l: Layout, d: Disk, fb: nat, fi: nat)
    requires Booked(l, d, fb, fi)
    ensures l.Ok() && l.Shaped(d) && l.Described(d) && l.GroupsCounted(d)
    ensures fb == l.Free(d, Blocks, l.Groups()) && fi == l.Free(d, Inodes, l.Groups())
  {}

  lemma CountBounds(l: Layout, d: Disk, w: Which, g: nat)
    requires l.Ok() && g < l.Groups()
    ensures l.GroupFree(d, w, g) < 0x1_0000
    ensures l.Free(d, Blocks, l.Groups()) < 0x1_0000_0000 && l.Free(d, Inodes, l.Groups()) < 0x1_0000_0000
  {
    LimitFits(l, w, g);
    FreeBound(l, d, l.Groups());
  }

  lemma WhichBooks(w: Which)
    ensures w.Other() == if w == Blocks then Inodes else Blocks
  {}

  /**
   Claiming a clear bit, or releasing a set one, and moving both counts by one keeps the
   books: the new counts fit their fields and are again the numbers of clear bits.
   */
  lemma {:induction false} RebookedIsBooked(l: Layout, d0: Disk, d1: Disk, d2: Disk, d3: Disk, w: Which, g: nat, i: nat, on: bool,
                         fb: nat, fi: nat, v: int, fb': int, fi': int)
    requires Booked(l, d0, fb, fi) && g < l.Groups() && i < l.Limit(w, g) && Marked(d0, l.Map(w, g), i) == !on
    requires Toggled(l, d0, d1, w, g, i, on)
    requires v == Half(d1, l.DescBlock(g), l.DescAt(g) + CountField(w)) + if on then -1 else 1
    requires fb' == fb + if w == Inodes then 0 else if on then -1 else 1
    requires fi' == fi + if w == Blocks then 0 else if on then -1 else 1
    ensures 0 <= v < 0x1_0000 && 0 <= fb' < 0x1_0000_0000 && 0 <= fi' < 0x1_0000_0000
    ensures Recounted(l, d1, d2, w, g, v) && Flushed(l, d2, d3, fb', fi') ==> Booked(l, d3, fb', fi')
  {
    hide *;
    BooksOpened(l, d0, fb, fi);
    ToggleStage(l, d0, d1, w, g, i, on);
    CountBounds(l, d1, w, g);
    WhichBooks(w);
    if Recounted(l, d1, d2, w, g, v) && Flushed(l, d2, d3, fb', fi') {
      RecountStage(l, d1, d2, w, g, v);
      SuperStage(l, d2, d3, fb', fi');
    }
  }
}
