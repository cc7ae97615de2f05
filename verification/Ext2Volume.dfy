/**
 The volume invariant: the books are true, every block in use is either metadata or owned
 by exactly one position of exactly one file, and each file's sector count says how many.
 */
module Ext2Volume {
  import opened Common
  import opened Ext2Bits
  import opened Ext2Layout
  import opened Ext2Alloc
  import opened Ext2Map

  /** The blocks marked in the block bitmaps. */
  ghost function Used(l: Layout, disk: Disk): set<nat>
  {
    set n: nat | n < l.blocksCount && l.InUse(disk, n)
  }

  /** The blocks a file holds, data and pointer blocks alike. */
  ghost function Held(owner: map<nat, Claim>, f: nat): set<nat>
  {
    set n | n in owner && owner[n].file == f
  }

  /** Exactly the metadata and the owned blocks are in use. */
  ghost predicate Claimed(l: Layout, used: set<nat>, owner: map<nat, Claim>)
  {
    && (forall n :: n in owner <==> l.IsData(n) && n in used)
    && (forall n :: n in l.roles ==> n in used)
  }

  ghost predicate SectorsTrue(l: Layout, ino: map<nat, Inode>, owner: map<nat, Claim>)
  {
    forall f :: f in ino ==> ino[f].sectors == l.blockSize / 512 * |Held(owner, f)|
  }

  ghost predicate Owned(l: Layout, disk: Disk, used: set<nat>, ino: map<nat, Inode>, owner: map<nat, Claim>)
  {
    Tree(l, disk, ino, owner) && Claimed(l, used, owner) && SectorsTrue(l, ino, owner)
  }

  ghost predicate Volume(l: Layout, disk: Disk, freeBlocks: nat, freeInodes: nat,
                         ino: map<nat, Inode>, owner: map<nat, Claim>)
  {
    Booked(l, disk, freeBlocks, freeInodes) && Owned(l, disk, Used(l, disk), ino, owner)
  }

  // ----- blocks left behind -----

  /** The blocks a file that went away left marked. */
  ghost function Lost(owner: map<nat, Claim>): set<nat> { Held(owner, 0) }

  /** Some file's pointers lead to block `n`. */
  ghost predicate Reached(l: Layout, disk: Disk, ino: map<nat, Inode>, n: nat)
  {
    exists f, p :: f in ino && ValidPath(l, p) && PtrAt(disk, ino[f].blocks, p) == n
  }

  /** Every block marked in use is metadata or is reached by a file. */
  ghost predicate AllReached(l: Layout, disk: Disk, ino: map<nat, Inode>)
  {
    forall n :: n in Used(l, disk) && l.IsData(n) ==> Reached(l, disk, ino, n)
  }

  /** Lost is what is marked and what no file reaches, whatever the bookkeeping says. */
  lemma LostIsUnreached(l: Layout, disk: Disk, used: set<nat>, ino: map<nat, Inode>, owner: map<nat, Claim>, n: nat)
    requires Owned(l, disk, used, ino, owner) && 0 !in ino
    ensures n in Lost(owner) <==> l.IsData(n) && n in used && !Reached(l, disk, ino, n)
  {
    assert ClaimHolds(l, disk, ino, owner, n);
    if l.IsData(n) && n in used && Reached(l, disk, ino, n) {
      var f, p :| f in ino && ValidPath(l, p) && PtrAt(disk, ino[f].blocks, p) == n;
      assert OwnedAt(l, disk, ino, owner, f, p);
    }
  }

  lemma NothingLostIff(l: Layout, disk: Disk, ino: map<nat, Inode>, owner: map<nat, Claim>)
    requires Owned(l, disk, Used(l, disk), ino, owner) && 0 !in ino
    ensures AllReached(l, disk, ino) <==> Lost(owner) == {}
  {
    forall n: nat ensures n in Lost(owner) <==> l.IsData(n) && n in Used(l, disk) && !Reached(l, disk, ino, n) {
      hide Owned, Reached, Used;
      LostIsUnreached(l, disk, Used(l, disk), ino, owner, n);
    }
    hide *;
    LostAre(l, disk, ino, owner);
  }

  lemma LostAre(l: Layout, disk: Disk, ino: map<nat, Inode>, owner: map<nat, Claim>)
    requires forall n: nat :: n in Lost(owner) <==> l.IsData(n) && n in Used(l, disk) && !Reached(l, disk, ino, n)
    ensures AllReached(l, disk, ino) <==> Lost(owner) == {}
  {
    hide Lost, Used, Reached;
  }

  /** A file gone with its blocks still marked: they are nobody's now. */
  ghost function Abandoned(owner: map<nat, Claim>, f: nat): map<nat, Claim>
  {
    map n | n in owner :: if owner[n].file == f then Claim(0, owner[n].path) else owner[n]
  }

  lemma AbandonOwned(l: Layout, disk: Disk, used: set<nat>, ino: map<nat, Inode>, owner: map<nat, Claim>, f: nat)
    requires Owned(l, disk, used, ino, owner) && 0 !in ino
    ensures Owned(l, disk, used, ino - {f}, Abandoned(owner, f)) && Lost(Abandoned(owner, f)) == Lost(owner) + Held(owner, f)
  {
    var ino', owner' := ino - {f}, Abandoned(owner, f);
    forall g, p | ValidPath(l, p) ensures OwnedAt(l, disk, ino', owner', g, p) {
      assert OwnedAt(l, disk, ino, owner, g, p);
    }
    forall n ensures ClaimHolds(l, disk, ino', owner', n) {
      assert ClaimHolds(l, disk, ino, owner, n);
    }
    forall g | g in ino' ensures ino'[g].sectors == l.blockSize / 512 * |Held(owner', g)| {
      assert Held(owner', g) == Held(owner, g);
    }
    assert Lost(owner') == Lost(owner) + Held(owner, f);
  }

  /** Taking a block for a file leaves the lost ones alone. */
  lemma LostTaken(l: Layout, used: set<nat>, owner: map<nat, Claim>, n: nat, c: Claim)
    requires Claimed(l, used, owner) && n !in used
    ensures c.file != 0 ==> Lost(owner[n := c]) == Lost(owner)
  {
    assert n !in owner;
  }

  /** So does giving back a block that a file reaches. */
  lemma LostGiven(l: Layout, disk: Disk, ino: map<nat, Inode>, owner: map<nat, Claim>, f: nat, p: Path)
    requires Tree(l, disk, ino, owner) && f in ino && ValidPath(l, p) && PtrAt(disk, ino[f].blocks, p) != 0
    ensures f != 0 ==> Lost(owner - {PtrAt(disk, ino[f].blocks, p)}) == Lost(owner)
  {
    assert OwnedAt(l, disk, ino, owner, f, p);
  }

  // ----- owning what was taken, disowning what is given back -----

  lemma HeldMore(owner: map<nat, Claim>, n: nat, c: Claim, g: nat)
    requires n !in owner
    ensures |Held(owner[n := c], g)| == |Held(owner, g)| + if g == c.file then 1 else 0
  {
    if g == c.file {
      assert Held(owner[n := c], g) == Held(owner, g) + {n};
    } else {
      assert Held(owner[n := c], g) == Held(owner, g);
    }
  }

  lemma HeldLess(owner: map<nat, Claim>, n: nat, g: nat)
    requires n in owner
    ensures |Held(owner - {n}, g)| == |Held(owner, g)| - if g == owner[n].file then 1 else 0
  {
    if g == owner[n].file {
      assert Held(owner, g) == Held(owner - {n}, g) + {n};
    } else {
      assert Held(owner - {n}, g) == Held(owner, g);
    }
  }

  lemma MulStep(a: nat, b: nat)
    ensures a * (b + 1) == a * b + a
  {}

  /** Inode `f` has one block more, or one fewer, to its name; nobody else's count moves. */
  predicate Counts(l: Layout, ino: map<nat, Inode>, ino': map<nat, Inode>, f: nat, more: bool)
  {
    && ino'.Keys == ino.Keys && f in ino
    && (forall g :: g in ino && g != f ==> ino'[g].sectors == ino[g].sectors)
    && ino'[f].sectors == ino[f].sectors + if more then l.blockSize / 512 else -(l.blockSize / 512)
  }

  lemma AttachOwned(l: Layout, d: Disk, d': Disk, used: set<nat>, ino: map<nat, Inode>, ino': map<nat, Inode>,
                    owner: map<nat, Claim>, f: nat, p: Path, n: nat)
    requires Owned(l, d, used, ino, owner) && Counts(l, ino, ino', f, true)
    requires OnlyPtr(l, d, d', ino, ino', f, p, n) && PtrAt(d, ino[f].blocks, p) == 0
    requires n != 0 && l.IsData(n) && n !in used
    ensures Owned(l, d', used + {n}, ino', owner[n := Claim(f, p)])
  {
    Attached(l, d, d', ino, ino', owner, f, p, n);
    var owner' := owner[n := Claim(f, p)];
    forall g | g in ino' ensures ino'[g].sectors == l.blockSize / 512 * |Held(owner', g)| {
      HeldMore(owner, n, Claim(f, p), g);
      MulStep(l.blockSize / 512, |Held(owner, g)|);
    }
  }

  lemma DetachOwned(l: Layout, d: Disk, d': Disk, used: set<nat>, ino: map<nat, Inode>, ino': map<nat, Inode>,
                    owner: map<nat, Claim>, f: nat, p: Path, n: nat)
    requires Owned(l, d, used, ino, owner) && Counts(l, ino, ino', f, false)
    requires OnlyPtr(l, d, d', ino, ino', f, p, 0) && PtrAt(d, ino[f].blocks, p) == n != 0
    ensures n in used && Owned(l, d', used - {n}, ino', owner - {n})
  {
    assert OwnedAt(l, d, ino, owner, f, p);
    Detached(l, d, d', ino, ino', owner, f, p, n);
    var owner' := owner - {n};
    forall g | g in ino' ensures ino'[g].sectors == l.blockSize / 512 * |Held(owner', g)| {
      HeldLess(owner, n, g);
      if g == f {
        MulStep(l.blockSize / 512, |Held(owner, g)| - 1);
      }
    }
  }

  /** Rewriting anything that is no file's pointer block leaves ownership as it was. */
  lemma OwnedFrame(l: Layout, d: Disk, d': Disk, used: set<nat>, ino: map<nat, Inode>, owner: map<nat, Claim>)
    requires Owned(l, d, used, ino, owner) && SamePointers(d, d', owner)
    ensures Owned(l, d', used, ino, owner)
  {
    TreeFrame(l, d, d', ino, owner);
  }

  // ----- block bitmaps -----

  /** A block bitmap bit moved: exactly that block's mark moved. */
  lemma ToggleMarks(l: Layout, d: Disk, d': Disk, g: nat, i: nat, on: bool, m: nat)
    requires l.Ok() && l.Shaped(d) && l.Shaped(d') && g < l.Groups() && i < l.Limit(Blocks, g)
    requires d'[l.Map(Blocks, g)] == SetBit(d[l.Map(Blocks, g)], i, on)
    requires forall h :: 0 <= h < l.Groups() && h != g ==> d'[l.Map(Blocks, h)] == d[l.Map(Blocks, h)]
    requires l.firstDataBlock <= m < l.blocksCount
    ensures l.InUse(d', m) == if m == l.GroupFirst(g) + i then on else l.InUse(d, m)
  {
    LimitFits(l, Blocks, g);
    NumberOf(l, g, i);
    PlaceOf(l, m);
    LimitFits(l, Blocks, l.GroupOf(m));
    BookkeepingApart(l, Blocks, l.GroupOf(m), 0);
    if l.GroupOf(m) == g {
      SetBitAt(d[l.Map(Blocks, g)], i, on, l.IndexOf(m));
    }
  }

  /** Every bitmap but that of kind `w` in group `g` is the same. */
  ghost predicate SameOtherMaps(l: Layout, d: Disk, d': Disk, w: Which, g: nat)
  {
    && |d'| == |d|
    && (forall h :: 0 <= h < l.Groups() && h != g ==> l.Map(w, h) < |d| && d'[l.Map(w, h)] == d[l.Map(w, h)])
    && (forall h :: 0 <= h < l.Groups() ==>
          l.Map(w.Other(), h) < |d| && d'[l.Map(w.Other(), h)] == d[l.Map(w.Other(), h)])
  }

  lemma UsedMoves(l: Layout, d: Disk, d': Disk, g: nat, i: nat, on: bool)
    requires l.Ok() && l.Shaped(d) && l.Shaped(d') && g < l.Groups() && i < l.Limit(Blocks, g)
    requires l.Map(Blocks, g) < |d| && d'[l.Map(Blocks, g)] == SetBit(d[l.Map(Blocks, g)], i, on)
    requires SameOtherMaps(l, d, d', Blocks, g)
    ensures var n := l.GroupFirst(g) + i;
            Used(l, d') == if on then Used(l, d) + {n} else Used(l, d) - {n}
  {
    var n := l.GroupFirst(g) + i;
    NumberOf(l, g, i);
    forall m: nat ensures m in Used(l, d') <==> if m == n then on else m in Used(l, d) {
      if l.firstDataBlock <= m < l.blocksCount {
        ToggleMarks(l, d, d', g, i, on, m);
      }
    }
  }

  lemma UsedSame(l: Layout, d: Disk, d': Disk)
    requires l.Ok() && l.Shaped(d) && l.Shaped(d')
    requires forall h :: 0 <= h < l.Groups() ==> d'[l.Map(Blocks, h)] == d[l.Map(Blocks, h)]
    ensures Used(l, d') == Used(l, d)
  {
    forall m: nat ensures m in Used(l, d') <==> m in Used(l, d) {
      if l.firstDataBlock <= m < l.blocksCount {
        PlaceOf(l, m);
        BookkeepingApart(l, Blocks, l.GroupOf(m), 0);
      }
    }
  }

  /** Data blocks and inode tables hold no free counts: rewriting one leaves the books as they were. */
  lemma {:induction false} DataWriteBooked(l: Layout, d: Disk, d': Disk, fb: nat, fi: nat, n: nat)
    requires Booked(l, d, fb, fi) && (n !in l.roles || l.roles[n].Table?)
    requires n < |d'| == |d| && |d'[n]| == l.blockSize
    requires forall m :: 0 <= m < |d| && m != n ==> d'[m] == d[m]
    ensures Booked(l, d', fb, fi) && Used(l, d') == Used(l, d)
  {
    forall w, h | 0 <= h < l.Groups() ensures l.Map(w, h) < |d| && d'[l.Map(w, h)] == d[l.Map(w, h)] {
      assert l.HasRole(l.Map(w, h), Bitmap(w, h));
    }
    SameBitmapsSameFree(l, d, d', Blocks);
    SameBitmapsSameFree(l, d, d', Inodes);
    forall h | 0 <= h < l.Groups() ensures l.DescribedAt(d', h) && l.GroupCounted(d', h) {
      assert l.DescribedAt(d, h) && l.GroupCounted(d, h);
      assert l.HasRole(l.DescBlock(h), Desc(h / l.DescPerBlock()));
    }
    assert l.HasRole(l.SuperBlock(), Super);
    UsedSame(l, d, d');
  }

  // ----- taking and giving back a block -----

  function Zeroes(n: nat): (b: Block)
    ensures |b| == n && forall i :: 0 <= i < n ==> b[i] == 0
  {
    seq(n, _ => 0)
  }

  /** Nothing but bookkeeping, and possibly block `n`, was written. */
  ghost predicate BooksOnly(l: Layout, d: Disk, d': Disk, n: int)
  {
    && |d'| == |d|
    && (forall m :: 0 <= m < |d| && m != n && l.Kept(m) ==> d'[m] == d[m])
  }

  /** Block `n`, free before, is now marked and zeroed; no other block's mark moved. */
  ghost predicate Grabbed(l: Layout, d: Disk, d': Disk, n: nat)
  {
    && l.IsData(n) && n != 0 && n < |d'| && d'[n] == Zeroes(l.blockSize)
    && n !in Used(l, d) && Used(l, d') == Used(l, d) + {n}
    && BooksOnly(l, d, d', n)
  }

  /** Block `n` is free again; no other block's mark moved. */
  ghost predicate Dropped(l: Layout, d: Disk, d': Disk, n: nat)
  {
    Used(l, d') == Used(l, d) - {n} && BooksOnly(l, d, d', -1)
  }

  lemma BooksWritten(l: Layout, d0: Disk, d1: Disk, d2: Disk, d3: Disk, w: Which, g: nat, i: nat, on: bool,
                     v: u16, fb: u32, fi: u32)
    requires l.Ok() && l.Shaped(d0) && g < l.Groups()
    requires Toggled(l, d0, d1, w, g, i, on) && Recounted(l, d1, d2, w, g, v) && Flushed(l, d2, d3, fb, fi)
    ensures l.Shaped(d3) && (w == Blocks ==> BooksOnly(l, d0, d3, -1))
    ensures forall m :: 0 <= m < |d0| && (m !in l.roles || l.roles[m].Table?) ==> d3[m] == d0[m]
    ensures l.Map(w, g) < |d0| && d3[l.Map(w, g)] == SetBit(d0[l.Map(w, g)], i, on)
    ensures SameOtherMaps(l, d0, d3, w, g)
  {
    assert l.HasRole(l.Map(w, g), Bitmap(w, g)) && l.HasRole(l.DescBlock(g), Desc(g / l.DescPerBlock()));
    assert l.HasRole(l.SuperBlock(), Super);
    forall h | 0 <= h < l.Groups()
      ensures l.Map(w.Other(), h) < |d0| && d3[l.Map(w.Other(), h)] == d0[l.Map(w.Other(), h)]
      ensures h != g ==> l.Map(w, h) < |d0| && d3[l.Map(w, h)] == d0[l.Map(w, h)]
    {
      assert l.HasRole(l.Map(w, h), Bitmap(w, h)) && l.HasRole(l.Map(w.Other(), h), Bitmap(w.Other(), h));
    }
  }

  /** A clear bit stands for a block that is neither metadata nor anyone's. */
  lemma ClearIsFree(l: Layout, d: Disk, g: nat, i: nat, owner: map<nat, Claim>)
    requires l.Ok() && Claimed(l, Used(l, d), owner) && g < l.Groups() && i < l.Limit(Blocks, g)
    requires !Marked(d, l.Map(Blocks, g), i)
    ensures var n := l.GroupFirst(g) + i; n != 0 && n !in Used(l, d) && l.IsData(n)
  {
    NumberOf(l, g, i);
    assert l.HasRole(l.SuperBlock(), Super);
  }

  /** A free block that was marked and then zeroed has been taken. */
  lemma GrabbedBy(l: Layout, d: Disk, d1: Disk, d2: Disk, n: nat, fb: nat, fi: nat)
    requires n != 0 && n !in Used(l, d) && l.IsData(n)
    requires BooksOnly(l, d, d1, -1) && Booked(l, d1, fb, fi) && Used(l, d1) == Used(l, d) + {n}
    requires n < |d1| && d2 == d1[n := Zeroes(l.blockSize)]
    ensures Booked(l, d2, fb, fi) && Grabbed(l, d, d2, n)
  {
    DataWriteBooked(l, d1, d2, fb, fi, n);
  }

  lemma BookedFacts(l: Layout, d: Disk, fb: nat, fi: nat)
    requires Booked(l, d, fb, fi)
    ensures l.Ok() && l.Geometry() && l.Shaped(d) && l.Described(d) && |d| == l.blocksCount && l.blocksPerGroup > 0
  {}

  lemma VolumeFacts(l: Layout, d: Disk, fb: nat, fi: nat, ino: map<nat, Inode>, owner: map<nat, Claim>)
    ensures Volume(l, d, fb, fi, ino, owner) <==> Booked(l, d, fb, fi) && Owned(l, d, Used(l, d), ino, owner)
    ensures Volume(l, d, fb, fi, ino, owner) ==> Claimed(l, Used(l, d), owner)
  {}

  /** The whole of `alloc_block`, for the bit it settled on. */
  lemma TakenBy(l: Layout, d0: Disk, d1: Disk, d2: Disk, d3: Disk, d4: Disk, g: nat, i: nat, fb: nat, fi: nat, v: int,
                owner: map<nat, Claim>)
    requires Booked(l, d0, fb, fi) && Claimed(l, Used(l, d0), owner) && g < l.Groups() && i < l.Limit(Blocks, g)
    requires !Marked(d0, l.Map(Blocks, g), i) && Toggled(l, d0, d1, Blocks, g, i, true)
    requires v == Half(d1, l.DescBlock(g), l.DescAt(g) + CountField(Blocks)) - 1
    ensures 0 <= v < 0x1_0000 && 0 < fb <= 0x1_0000_0000 && fi < 0x1_0000_0000
    ensures var n := l.GroupFirst(g) + i;
            Recounted(l, d1, d2, Blocks, g, v) && Flushed(l, d2, d3, fb - 1, fi)
            && n < |d3| && d4 == d3[n := Zeroes(l.blockSize)] ==>
              Booked(l, d4, fb - 1, fi) && Grabbed(l, d0, d4, n)
  {
    hide *;
    BookedFacts(l, d0, fb, fi);
    var n := l.GroupFirst(g) + i;
    RebookedIsBooked(l, d0, d1, d2, d3, Blocks, g, i, true, fb, fi, v, fb - 1, fi);
    ClearIsFree(l, d0, g, i, owner);
    if Recounted(l, d1, d2, Blocks, g, v) && Flushed(l, d2, d3, fb - 1, fi)
       && n < |d3| && d4 == d3[n := Zeroes(l.blockSize)] {
      BooksWritten(l, d0, d1, d2, d3, Blocks, g, i, true, v, fb - 1, fi);
      UsedMoves(l, d0, d3, g, i, true);
      GrabbedBy(l, d0, d3, d4, n, fb - 1, fi);
    }
  }

  // ----- filling holes -----

  lemma OwnedIsData(l: Layout, d: Disk, ino: map<nat, Inode>, owner: map<nat, Claim>)
    requires Tree(l, d, ino, owner)
    ensures forall m :: m in owner ==> l.IsData(m) && m != 0
  {
    forall m | m in owner ensures l.IsData(m) && m != 0 {
      assert ClaimHolds(l, d, ino, owner, m);
    }
  }

  /** Taking a block for one of the inode's first thirteen slots. */
  lemma {:induction false} GrabIntoSlot(l: Layout, d: Disk, d': Disk, ino: map<nat, Inode>, ino': map<nat, Inode>,
                     owner: map<nat, Claim>, f: nat, slot: nat, n: u32)
    requires l.Geometry() && Owned(l, d, Used(l, d), ino, owner) && Grabbed(l, d, d', n)
    requires f in ino && slot <= 12 && ino[f].blocks[slot] == 0 && Counts(l, ino, ino', f, true)
    requires f in ino' && ino' == ino[f := ino'[f]] && ino'[f].blocks == ino[f].blocks[slot := n]
    ensures Owned(l, d', Used(l, d'), ino', owner[n := Claim(f, [slot])])
    ensures OnlyPtr(l, d, d', ino, ino', f, [slot], n) && SameContents(l, d, d', ino, ino')
  {
    OwnedIsData(l, d, ino, owner);
    forall k | 0 <= k < l.blockSize / 4 ensures Entry(d', n, k) == 0 {
    }
    assert SamePointers(d, d', owner);
    SlotSet(l, d, d', ino, ino', owner, f, slot, n);
    assert PtrAt(d, ino[f].blocks, [slot]) == 0;
    AttachOwned(l, d, d', Used(l, d), ino, ino', owner, f, [slot], n);
    AttachedContents(l, d, d', ino, ino', owner, f, [slot], n);
  }

  lemma GrabEntrySet(l: Layout, d: Disk, d': Disk, d'': Disk, ino: map<nat, Inode>, owner: map<nat, Claim>,
                     f: nat, k: nat, n: u32)
    requires l.Geometry() && Owned(l, d, Used(l, d), ino, owner) && Grabbed(l, d, d', n) && l.Shaped(d')
    requires f in ino && ino[f].blocks[12] != 0 && k < l.blockSize / 4
    requires var i := ino[f].blocks[12]; i < |d'| && d'' == d'[i := Put32(d'[i], 4 * k, n)]
    ensures OnlyPtr(l, d, d'', ino, ino, f, [12, k], n) && Tree(l, d, ino, owner)
    ensures n != 0 && l.IsData(n) && n !in Used(l, d) && Used(l, d') == Used(l, d) + {n}
    ensures n < |d''| == |d| && forall i :: 0 <= i < |d''[n]| ==> d''[n][i] == 0
    ensures forall m :: m in owner && Leaf(owner[m].path) && m < |d| ==> d''[m] == d[m]
  {
    var i := ino[f].blocks[12];
    OwnedIsData(l, d, ino, owner);
    assert OwnedAt(l, d, ino, owner, f, [12]);
    assert i in owner && owner[i] == Claim(f, [12]) && d'[i] == d[i];
    forall j | 0 <= j < l.blockSize / 4 && j != k ensures Word(d'', i, 4 * j) == Word(d, i, 4 * j) {
      Get32Same(d'[i], d''[i], 4 * k, 4, 4 * j);
    }
    EntrySet(l, d, d'', ino, owner, f, k, n);
  }

  /** Taking a block for one entry of the inode's indirect block. */
  lemma {:induction false} GrabIntoEntry(l: Layout, d: Disk, d': Disk, d'': Disk, ino: map<nat, Inode>, ino': map<nat, Inode>,
                      owner: map<nat, Claim>, f: nat, k: nat, n: u32)
    requires l.Geometry() && Owned(l, d, Used(l, d), ino, owner) && Grabbed(l, d, d', n) && l.Shaped(d')
    requires f in ino && ino[f].blocks[12] != 0 && k < l.blockSize / 4 && Counts(l, ino, ino', f, true)
    requires f in ino' && ino' == ino[f := ino'[f]] && ino'[f].blocks == ino[f].blocks
    requires PtrAt(d, ino[f].blocks, [12, k]) == 0
    requires var i := ino[f].blocks[12]; i < |d'| && d'' == d'[i := Put32(d'[i], 4 * k, n)]
    ensures Owned(l, d'', Used(l, d'), ino', owner[n := Claim(f, [12, k])])
    ensures OnlyPtr(l, d, d'', ino, ino', f, [12, k], n) && SameContents(l, d, d'', ino, ino')
  {
    hide *;
    GrabEntrySet(l, d, d', d'', ino, owner, f, k, n);
    SameBlocks(l, d, d'', ino, ino', f, [12, k], n);
    AttachOwned(l, d, d'', Used(l, d), ino, ino', owner, f, [12, k], n);
    AttachedContents(l, d, d'', ino, ino', owner, f, [12, k], n);
  }

  lemma SameBlocks(l: Layout, d: Disk, d': Disk, ino: map<nat, Inode>, ino': map<nat, Inode>, f: nat, p: Path, n: nat)
    requires OnlyPtr(l, d, d', ino, ino, f, p, n)
    requires f in ino' && ino' == ino[f := ino'[f]] && ino'[f].blocks == ino[f].blocks
    ensures OnlyPtr(l, d, d', ino, ino', f, p, n)
  {
    assert forall g :: g in ino ==> ino'[g].blocks == ino[g].blocks;
  }
}
