/**
 How a file's blocks are found and who owns them. A position in a file's pointer tree is
 a path: one of the inode's fifteen slots, then an index at each indirect level. One
 map says which position owns each block, so no block is ever reached twice.
 */
module Ext2Map {
  import opened Common
  import opened Ext2Bits
  import opened Ext2Layout

  datatype Kind = Regular | Directory | Other

  datatype Inode = Inode(number: nat, kind: Kind, size: nat, links: u16, sectors: nat, blocks: seq<u32>)

  type Path = seq<nat>

  /** How long a path from this slot is when it has reached a data block. */
  function Depth(slot: nat): nat { if slot < 12 then 1 else slot - 10 }

  predicate ValidPath(l: Layout, p: Path)
  {
    && 1 <= |p| && p[0] < 15 && |p| <= Depth(p[0])
    && forall i :: 1 <= i < |p| ==> p[i] < l.blockSize / 4
  }

  predicate Leaf(p: Path) { |p| >= 1 && |p| == Depth(p[0]) }

  /** Entry `k` of pointer block `n`; block 0 stands for a hole. */
  function Entry(disk: Disk, n: nat, k: nat): nat
  {
    if n == 0 || Word(disk, n, 4 * k) < 0 then 0 else Word(disk, n, 4 * k)
  }

  /** The block number at position `p`, or 0 for a hole. */
  function PtrAt(disk: Disk, blocks: seq<u32>, p: Path): nat
    decreases |p|
  {
    if |p| == 0 then 0
    else if |p| == 1 then (if p[0] < |blocks| then blocks[p[0]] else 0)
    else Entry(disk, PtrAt(disk, blocks, p[..|p| - 1]), p[|p| - 1])
  }

  // ----- file offsets -----

  function Power(per: nat, n: nat): nat { if n == 0 then 1 else per * Power(per, n - 1) }

  /** The digits of `w` in base `per`, most significant first: one entry index per indirect level. */
  function Digits(per: nat, n: nat, w: nat): (s: seq<nat>)
    requires per > 0
    ensures |s| == n
  {
    if n == 0 then []
    else
      PowerPositive(per, n - 1);
      [w / Power(per, n - 1)] + Digits(per, n - 1, w % Power(per, n - 1))
  }

  lemma PowerPositive(per: nat, n: nat)
    requires per > 0
    ensures Power(per, n) > 0
  {}

  /** The position of a file's `index`-th block, or the empty path beyond the largest file. */
  function PathOf(l: Layout, index: nat): Path
  {
    var per := l.blockSize / 4;
    if per == 0 then []
    else if index < 12 then [index]
    else if index < 12 + per then [12] + Digits(per, 1, index - 12)
    else if index < 12 + per + per * per then [13] + Digits(per, 2, index - 12 - per)
    else if index < 12 + per + per * per + per * per * per then [14] + Digits(per, 3, index - 12 - per - per * per)
    else []
  }

  lemma MixedRadix(w: nat, per: nat, n: nat)
    requires per > 0 && w < n * per
    ensures w / per < n && w % per < per && w == w / per * per + w % per
  {
    if w / per >= n {
      MulMono(n, w / per, per);
    }
  }

  lemma {:induction false} DigitsBelow(per: nat, n: nat, w: nat)
    requires per > 0 && w < Power(per, n)
    ensures forall i :: 0 <= i < n ==> Digits(per, n, w)[i] < per
  {
    if n > 0 {
      PowerPositive(per, n - 1);
      MixedRadix(w, Power(per, n - 1), per);
      DigitsBelow(per, n - 1, w % Power(per, n - 1));
    }
  }

  lemma {:induction false} DigitsInjective(per: nat, n: nat, v: nat, w: nat)
    requires per > 0 && v < Power(per, n) && w < Power(per, n) && Digits(per, n, v) == Digits(per, n, w)
    ensures v == w
  {
    if n > 0 {
      var p := Power(per, n - 1);
      PowerPositive(per, n - 1);
      MixedRadix(v, p, per);
      MixedRadix(w, p, per);
      assert Digits(per, n, v)[0] == v / p && Digits(per, n, w)[0] == w / p;
      assert Digits(per, n, v)[1..] == Digits(per, n - 1, v % p) && Digits(per, n, w)[1..] == Digits(per, n - 1, w % p);
      DigitsInjective(per, n - 1, v % p, w % p);
    }
  }

  lemma Powers(per: nat)
    ensures Power(per, 1) == per && Power(per, 2) == per * per && Power(per, 3) == per * per * per
  {
    assert Power(per, 2) == per * Power(per, 1);
    assert Power(per, 3) == per * Power(per, 2);
    assert per * per * per == per * (per * per);
  }

  lemma PathOfIsLeaf(l: Layout, index: nat)
    requires l.Geometry() && PathOf(l, index) != []
    ensures ValidPath(l, PathOf(l, index)) && Leaf(PathOf(l, index))
  {
    var per := l.blockSize / 4;
    Powers(per);
    if 12 <= index < 12 + per {
      DigitsBelow(per, 1, index - 12);
    } else if 12 + per <= index < 12 + per + per * per {
      DigitsBelow(per, 2, index - 12 - per);
    } else if 12 + per + per * per <= index {
      DigitsBelow(per, 3, index - 12 - per - per * per);
    }
  }

  /** Distinct file blocks take distinct paths, at every indirect level. */
  lemma PathOfInjective(l: Layout, i: nat, j: nat)
    requires l.Geometry() && PathOf(l, i) == PathOf(l, j) != []
    ensures i == j
  {
    var per, p, q := l.blockSize / 4, PathOf(l, i), PathOf(l, j);
    Powers(per);
    assert p[1..] == q[1..];
    if 12 <= i < 12 + per {
      assert p[1..] == Digits(per, 1, i - 12) && q[1..] == Digits(per, 1, j - 12);
      DigitsInjective(per, 1, i - 12, j - 12);
    } else if 12 + per <= i < 12 + per + per * per {
      assert p[1..] == Digits(per, 2, i - 12 - per) && q[1..] == Digits(per, 2, j - 12 - per);
      DigitsInjective(per, 2, i - 12 - per, j - 12 - per);
    } else if 12 + per + per * per <= i {
      var base := 12 + per + per * per;
      assert p[1..] == Digits(per, 3, i - base) && q[1..] == Digits(per, 3, j - base);
      DigitsInjective(per, 3, i - base, j - base);
    }
  }

  lemma PathOfIndirect(l: Layout, k: nat)
    requires k < l.blockSize / 4
    ensures PathOf(l, 12 + k) == [12, k]
  {
    assert Digits(l.blockSize / 4, 1, k) == [k];
  }

  /** The position of the block that byte `off` of a file lies in. */
  function PathAt(l: Layout, off: nat): Path { if l.blockSize == 0 then [] else PathOf(l, off / l.blockSize) }

  /** Byte `off` of a file's contents; a hole reads as zero. */
  function FileByte(l: Layout, disk: Disk, ino: Inode, off: nat): byte
  {
    var n := PtrAt(disk, ino.blocks, PathAt(l, off));
    if n == 0 || l.blockSize == 0 || n >= |disk| || off % l.blockSize >= |disk[n]| then 0 else disk[n][off % l.blockSize]
  }

  // ----- ownership -----

  /** A position in one file; file 0, which is no inode, for a block that was left behind by a file now gone. */
  datatype Claim = Claim(file: nat, path: Path)

  /** The block found at a valid position is that position's own. */
  predicate OwnedAt(l: Layout, disk: Disk, ino: map<nat, Inode>, owner: map<nat, Claim>, f: nat, p: Path)
  {
    f in ino ==>
      var n := PtrAt(disk, ino[f].blocks, p);
      n != 0 ==> n in owner && owner[n] == Claim(f, p)
  }

  predicate ClaimHolds(l: Layout, disk: Disk, ino: map<nat, Inode>, owner: map<nat, Claim>, n: nat)
  {
    n in owner ==>
      && n != 0 && l.IsData(n) && ValidPath(l, owner[n].path)
      && (owner[n].file != 0 ==>
            owner[n].file in ino && PtrAt(disk, ino[owner[n].file].blocks, owner[n].path) == n)
  }

  /** Blocks and the positions that reach them correspond one to one. */
  ghost predicate Tree(l: Layout, disk: Disk, ino: map<nat, Inode>, owner: map<nat, Claim>)
  {
    && (forall f :: f in ino ==> |ino[f].blocks| == 15)
    && (forall f, p :: ValidPath(l, p) ==> OwnedAt(l, disk, ino, owner, f, p))
    && (forall n :: ClaimHolds(l, disk, ino, owner, n))
  }

  /** Every pointer block of every file is the same on both disks. */
  ghost predicate SamePointers(d: Disk, d': Disk, owner: map<nat, Claim>)
  {
    |d| == |d'| && forall n :: n in owner && !Leaf(owner[n].path) && n < |d| ==> d'[n] == d[n]
  }

  /** Pointers are read from pointer blocks only. */
  lemma {:induction false} PtrFrame(l: Layout, d: Disk, d': Disk, ino: map<nat, Inode>, owner: map<nat, Claim>,
                                   f: nat, p: Path)
    requires Tree(l, d, ino, owner) && SamePointers(d, d', owner) && f in ino && ValidPath(l, p)
    ensures PtrAt(d', ino[f].blocks, p) == PtrAt(d, ino[f].blocks, p)
    decreases |p|
  {
    if |p| > 1 {
      var q := p[..|p| - 1];
      PtrFrame(l, d, d', ino, owner, f, q);
      assert OwnedAt(l, d, ino, owner, f, q);
    }
  }

  lemma TreeFrame(l: Layout, d: Disk, d': Disk, ino: map<nat, Inode>, owner: map<nat, Claim>)
    requires Tree(l, d, ino, owner) && SamePointers(d, d', owner)
    ensures Tree(l, d', ino, owner)
  {
    forall f, p | ValidPath(l, p) ensures OwnedAt(l, d', ino, owner, f, p) {
      assert OwnedAt(l, d, ino, owner, f, p);
      if f in ino {
        PtrFrame(l, d, d', ino, owner, f, p);
      }
    }
    forall n ensures ClaimHolds(l, d', ino, owner, n) {
      assert ClaimHolds(l, d, ino, owner, n);
      if n in owner && owner[n].file != 0 {
        PtrFrame(l, d, d', ino, owner, owner[n].file, owner[n].path);
      }
    }
  }

  /** Position `(f, p)` now holds `n`, and every other position what it held. */
  ghost predicate OnlyPtr(l: Layout, d: Disk, d': Disk, ino: map<nat, Inode>, ino': map<nat, Inode>,
                          f: nat, p: Path, n: nat)
  {
    && ino'.Keys == ino.Keys && f in ino && ValidPath(l, p)
    && (forall g :: g in ino ==> |ino'[g].blocks| == 15)
    && forall g, q {:trigger PtrAt(d', ino'[g].blocks, q)} {:trigger Claim(g, q)} :: g in ino && ValidPath(l, q) ==>
         PtrAt(d', ino'[g].blocks, q) == if g == f && q == p then n else PtrAt(d, ino[g].blocks, q)
  }

  /** Hanging a block nobody owns on an empty position keeps ownership one to one. */
  lemma Attached(l: Layout, d: Disk, d': Disk, ino: map<nat, Inode>, ino': map<nat, Inode>, owner: map<nat, Claim>,
                 f: nat, p: Path, n: nat)
    requires Tree(l, d, ino, owner) && OnlyPtr(l, d, d', ino, ino', f, p, n)
    requires PtrAt(d, ino[f].blocks, p) == 0 && n !in owner && n != 0 && l.IsData(n)
    ensures Tree(l, d', ino', owner[n := Claim(f, p)])
  {
    var owner' := owner[n := Claim(f, p)];
    forall g, q | ValidPath(l, q) ensures OwnedAt(l, d', ino', owner', g, q) {
      assert OwnedAt(l, d, ino, owner, g, q);
    }
    forall m ensures ClaimHolds(l, d', ino', owner', m) {
      assert ClaimHolds(l, d, ino, owner, m);
    }
  }

  /** Clearing the position that owns a block leaves the block unowned. */
  lemma Detached(l: Layout, d: Disk, d': Disk, ino: map<nat, Inode>, ino': map<nat, Inode>, owner: map<nat, Claim>,
                 f: nat, p: Path, n: nat)
    requires Tree(l, d, ino, owner) && OnlyPtr(l, d, d', ino, ino', f, p, 0)
    requires PtrAt(d, ino[f].blocks, p) == n && n != 0
    ensures Tree(l, d', ino', owner - {n})
  {
    assert OwnedAt(l, d, ino, owner, f, p);
    var owner' := owner - {n};
    forall g, q | ValidPath(l, q) ensures OwnedAt(l, d', ino', owner', g, q) {
      assert OwnedAt(l, d, ino, owner, g, q);
    }
    forall m ensures ClaimHolds(l, d', ino', owner', m) {
      assert ClaimHolds(l, d, ino, owner, m);
    }
  }

  // ----- the two ways the code changes a pointer -----

  lemma {:induction false} PtrBySlot(d: Disk, a: seq<u32>, b: seq<u32>, p: Path)
    requires |a| == |b| && p != [] && (p[0] < |a| ==> a[p[0]] == b[p[0]])
    ensures PtrAt(d, a, p) == PtrAt(d, b, p)
    decreases |p|
  {
    if |p| > 1 {
      PtrBySlot(d, a, b, p[..|p| - 1]);
    }
  }

  /** Writing one of the inode's first thirteen slots changes that one pointer. */
  lemma SlotSet(l: Layout, d: Disk, d': Disk, ino: map<nat, Inode>, ino': map<nat, Inode>, owner: map<nat, Claim>,
                f: nat, slot: nat, n: u32)
    requires Tree(l, d, ino, owner) && SamePointers(d, d', owner) && f in ino && slot <= 12
    requires f in ino' && ino' == ino[f := ino'[f]] && ino'[f].blocks == ino[f].blocks[slot := n]
    requires slot == 12 ==> forall k :: 0 <= k < l.blockSize / 4 ==>
               Entry(d, ino[f].blocks[12], k) == 0 && Entry(d', n, k) == 0
    ensures OnlyPtr(l, d, d', ino, ino', f, [slot], n)
  {
    forall g, q | g in ino && ValidPath(l, q)
      ensures PtrAt(d', ino'[g].blocks, q) == if g == f && q == [slot] then n else PtrAt(d, ino[g].blocks, q)
    {
      PtrFrame(l, d, d', ino, owner, g, q);
      if g == f {
        if q[0] != slot {
          PtrBySlot(d', ino'[f].blocks, ino[f].blocks, q);
        } else if |q| == 1 {
          assert q == [slot];
        } else {
          assert q[..1] == [12];
        }
      }
    }
  }

  /** Block `n` is the same on both disks but for pointer `k`, which is now `v`. */
  predicate EntryPut(l: Layout, d: Disk, d': Disk, n: nat, k: nat, v: nat)
  {
    && n < |d| == |d'| && k < l.blockSize / 4 && Word(d', n, 4 * k) == v
    && forall j :: 0 <= j < l.blockSize / 4 && j != k ==> Word(d', n, 4 * j) == Word(d, n, 4 * j)
  }

  lemma {:induction false} EntrySetAt(l: Layout, d: Disk, d': Disk, ino: map<nat, Inode>, owner: map<nat, Claim>,
                                      f: nat, k: nat, v: nat, g: nat, q: Path)
    requires Tree(l, d, ino, owner) && f in ino && g in ino && ValidPath(l, q)
    requires var n := ino[f].blocks[12];
             && n != 0 && EntryPut(l, d, d', n, k, v)
             && forall m :: m in owner && m != n && !Leaf(owner[m].path) && m < |d| ==> d'[m] == d[m]
    ensures PtrAt(d', ino[g].blocks, q) == if g == f && q == [12, k] then v else PtrAt(d, ino[g].blocks, q)
    decreases |q|
  {
    if |q| > 1 {
      var r := q[..|q| - 1];
      EntrySetAt(l, d, d', ino, owner, f, k, v, g, r);
      var parent := PtrAt(d, ino[g].blocks, r);
      assert OwnedAt(l, d, ino, owner, g, r);
      assert OwnedAt(l, d, ino, owner, f, [12]);
      if parent == ino[f].blocks[12] {
        assert r == [12] && q == [12, q[1]];
      }
    }
  }

  /** Writing one entry of a file's indirect block changes that one pointer. */
  lemma EntrySet(l: Layout, d: Disk, d': Disk, ino: map<nat, Inode>, owner: map<nat, Claim>, f: nat, k: nat, v: nat)
    requires Tree(l, d, ino, owner) && f in ino
    requires var n := ino[f].blocks[12];
             && n != 0 && EntryPut(l, d, d', n, k, v)
             && forall m :: m in owner && m != n && !Leaf(owner[m].path) && m < |d| ==> d'[m] == d[m]
    ensures OnlyPtr(l, d, d', ino, ino, f, [12, k], v)
  {
    forall g, q | g in ino && ValidPath(l, q)
      ensures PtrAt(d', ino[g].blocks, q) == if g == f && q == [12, k] then v else PtrAt(d, ino[g].blocks, q)
    {
      EntrySetAt(l, d, d', ino, owner, f, k, v, g, q);
    }
  }

  // ----- contents -----

  ghost predicate SameContents(l: Layout, d: Disk, d': Disk, ino: map<nat, Inode>, ino': map<nat, Inode>)
  {
    && ino'.Keys == ino.Keys
    && forall g, off: nat :: g in ino ==> FileByte(l, d', ino'[g], off) == FileByte(l, d, ino[g], off)
  }

  ghost predicate SameOwned(d: Disk, d': Disk, owner: map<nat, Claim>)
  {
    |d| == |d'| && forall n :: n in owner && n < |d| ==> d'[n] == d[n]
  }

  /** A zeroed block filling a hole, or becoming a pointer block, changes no byte of any file. */
  lemma AttachedContents(l: Layout, d: Disk, d': Disk, ino: map<nat, Inode>, ino': map<nat, Inode>,
                         owner: map<nat, Claim>, f: nat, p: Path, n: nat)
    requires l.Geometry() && Tree(l, d, ino, owner) && OnlyPtr(l, d, d', ino, ino', f, p, n)
    requires PtrAt(d, ino[f].blocks, p) == 0
    requires n < |d'| == |d| && forall i :: 0 <= i < |d'[n]| ==> d'[n][i] == 0
    requires forall m :: m in owner && Leaf(owner[m].path) && m < |d| ==> d'[m] == d[m]
    ensures SameContents(l, d, d', ino, ino')
  {
    forall g, off: nat | g in ino ensures FileByte(l, d', ino'[g], off) == FileByte(l, d, ino[g], off) {
      var q := PathOf(l, off / l.blockSize);
      if q != [] {
        PathOfIsLeaf(l, off / l.blockSize);
        assert OwnedAt(l, d, ino, owner, g, q);
        var c := Claim(g, q);
      }
    }
  }

  function Overwritten(b: Block, at: nat, bytes: seq<byte>): (r: Block)
    requires at + |bytes| <= |b|
    ensures |r| == |b|
    ensures forall i :: 0 <= i < |b| ==> r[i] == if at <= i < at + |bytes| then bytes[i - at] else b[i]
  {
    b[..at] + bytes + b[at + |bytes|..]
  }

  /** Exactly bytes `[offset, offset + |bytes|)` of file `f` changed, to `bytes`; no other byte of any file did. */
  ghost predicate Wrote(l: Layout, d: Disk, d': Disk, ino: map<nat, Inode>, ino': map<nat, Inode>,
                        f: nat, offset: nat, bytes: seq<byte>)
  {
    && ino'.Keys == ino.Keys
    && forall g, off: nat :: g in ino ==>
         FileByte(l, d', ino'[g], off) ==
         if g == f && offset <= off < offset + |bytes| then bytes[off - offset] else FileByte(l, d, ino[g], off)
  }

  lemma WroteThen(l: Layout, d: Disk, d1: Disk, d2: Disk, d3: Disk, i: map<nat, Inode>, i1: map<nat, Inode>,
                  i2: map<nat, Inode>, i3: map<nat, Inode>, f: nat, offset: nat, a: seq<byte>, b: seq<byte>)
    requires Wrote(l, d, d1, i, i1, f, offset, a) && SameContents(l, d1, d2, i1, i2)
    requires Wrote(l, d2, d3, i2, i3, f, offset + |a|, b)
    ensures Wrote(l, d, d3, i, i3, f, offset, a + b)
  {
    forall g, off: nat | g in i
      ensures FileByte(l, d3, i3[g], off) ==
              if g == f && offset <= off < offset + |a + b| then (a + b)[off - offset] else FileByte(l, d, i[g], off)
    {
      assert FileByte(l, d2, i2[g], off) == FileByte(l, d1, i1[g], off);
    }
  }

  /** Block `n` of a disk, partly overwritten. */
  predicate BlockPut(l: Layout, d: Disk, d': Disk, n: nat, within: nat, bytes: seq<byte>)
  {
    n < |d| && within + |bytes| <= |d[n]| == l.blockSize && d' == d[n := Overwritten(d[n], within, bytes)]
  }

  lemma LeafWriteSamePointers(l: Layout, d: Disk, d': Disk, ino: map<nat, Inode>, owner: map<nat, Claim>,
                              f: nat, index: nat, n: nat, within: nat, bytes: seq<byte>)
    requires l.Geometry() && Tree(l, d, ino, owner) && f in ino && BlockPut(l, d, d', n, within, bytes)
    requires PtrAt(d, ino[f].blocks, PathOf(l, index)) == n != 0
    ensures PathOf(l, index) != [] && n in owner && owner[n] == Claim(f, PathOf(l, index))
    ensures SamePointers(d, d', owner)
  {
    PathOfIsLeaf(l, index);
    assert OwnedAt(l, d, ino, owner, f, PathOf(l, index));
  }

  lemma BlockWriteAt(l: Layout, d: Disk, d': Disk, ino: map<nat, Inode>, owner: map<nat, Claim>,
                     f: nat, index: nat, n: nat, within: nat, bytes: seq<byte>, g: nat, off: nat)
    requires l.Geometry() && Tree(l, d, ino, owner) && g in ino && BlockPut(l, d, d', n, within, bytes)
    requires PathOf(l, index) != [] && n in owner && owner[n] == Claim(f, PathOf(l, index))
    requires SamePointers(d, d', owner) && f in ino && PtrAt(d, ino[f].blocks, PathOf(l, index)) == n
    ensures FileByte(l, d', ino[g], off) ==
            if g == f && off / l.blockSize == index && within <= off % l.blockSize < within + |bytes|
            then bytes[off % l.blockSize - within] else FileByte(l, d, ino[g], off)
  {
    var i := off / l.blockSize;
    var q := PathOf(l, i);
    assert ClaimHolds(l, d, ino, owner, n);
    if q != [] {
      PathOfIsLeaf(l, i);
      PtrFrame(l, d, d', ino, owner, g, q);
      assert OwnedAt(l, d, ino, owner, g, q);
      if PtrAt(d, ino[g].blocks, q) == n {
        PathOfInjective(l, i, index);
      }
    }
  }

  /** Rewriting part of one data block writes exactly those bytes of the one file that owns it. */
  lemma BlockWrite(l: Layout, d: Disk, d': Disk, ino: map<nat, Inode>, owner: map<nat, Claim>,
                   f: nat, index: nat, n: nat, within: nat, bytes: seq<byte>)
    requires l.Geometry() && Tree(l, d, ino, owner) && f in ino && BlockPut(l, d, d', n, within, bytes)
    requires PtrAt(d, ino[f].blocks, PathOf(l, index)) == n != 0
    ensures SamePointers(d, d', owner)
    ensures Wrote(l, d, d', ino, ino, f, index * l.blockSize + within, bytes)
  {
    LeafWriteSamePointers(l, d, d', ino, owner, f, index, n, within, bytes);
    var start := index * l.blockSize + within;
    forall g, off: nat | g in ino
      ensures FileByte(l, d', ino[g], off) ==
              if g == f && start <= off < start + |bytes| then bytes[off - start] else FileByte(l, d, ino[g], off)
    {
      BlockWriteAt(l, d, d', ino, owner, f, index, n, within, bytes, g, off);
      OffsetMath(off, l.blockSize, index, within, |bytes|);
    }
  }

  lemma OffsetMath(off: nat, size: nat, index: nat, within: nat, n: nat)
    requires size > 0 && within + n <= size
    ensures index * size + within <= off < index * size + within + n <==>
              off / size == index && within <= off % size < within + n
    ensures off / size == index ==> off - (index * size + within) == off % size - within
  {
    assert off == off / size * size + off % size;
    if off / size > index {
      MulMono(index + 1, off / size, size);
    } else if off / size < index {
      MulMono(off / size + 1, index, size);
    }
  }

  /** Clearing a data position turns exactly that block of that file into a hole. */
  lemma DetachedContents(l: Layout, d: Disk, d': Disk, ino: map<nat, Inode>, ino': map<nat, Inode>,
                         owner: map<nat, Claim>, f: nat, p: Path, g: nat, off: nat)
    requires l.Geometry() && Tree(l, d, ino, owner) && OnlyPtr(l, d, d', ino, ino', f, p, 0) && g in ino
    requires |d'| == |d| && forall m :: m in owner && Leaf(owner[m].path) && m < |d| ==> d'[m] == d[m]
    ensures FileByte(l, d', ino'[g], off) ==
            if g == f && PathOf(l, off / l.blockSize) == p then 0 else FileByte(l, d, ino[g], off)
  {
    var q := PathOf(l, off / l.blockSize);
    if q != [] {
      PathOfIsLeaf(l, off / l.blockSize);
      assert OwnedAt(l, d, ino, owner, g, q);
      var c := Claim(g, q);
    }
  }
}
