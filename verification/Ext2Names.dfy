/** Directories as files: the listing of a directory, and how one changed block changes it. */
module Ext2Names {
  import opened Common
  import opened Ext2Bits
  import opened Ext2Layout
  import opened Ext2Map
  import opened Ext2Volume
  import opened Ext2Steps
  import opened Ext2Trim
  import opened Ext2Alloc
  import opened Ext2Inode
  import opened Ext2Dir
  import opened Ext2Scan

  /** The bytes of file block `j`. */
  function BlockBytes(l: Layout, disk: Disk, i: Inode, j: nat): (b: Block)
    ensures |b| == l.blockSize
  {
    seq<byte>(l.blockSize, k requires 0 <= k < l.blockSize => FileByte(l, disk, i, j * l.blockSize + k))
  }

  predicate Hole(l: Layout, disk: Disk, i: Inode, j: nat) { PtrAt(disk, i.blocks, PathOf(l, j)) == 0 }

  /** What reading directory blocks `[j, n)` visits, and whether it gets to the end. Holes are skipped. */
  function DirWalk(l: Layout, disk: Disk, i: Inode, j: nat, n: nat): (seq<Entry>, bool)
    decreases n - j
  {
    if j >= n then ([], true)
    else if PathOf(l, j) == [] then ([], false)
    else if Hole(l, disk, i, j) then DirWalk(l, disk, i, j + 1, n)
    else
      var here := Walk(BlockBytes(l, disk, i, j), 0);
      if !here.1 then here
      else
        var rest := DirWalk(l, disk, i, j + 1, n);
        (here.0 + rest.0, rest.1)
  }

  function Listing(l: Layout, disk: Disk, i: Inode): seq<Entry> { DirWalk(l, disk, i, 0, BlocksFor(l, i.size)).0 }

  predicate TidyBlock(l: Layout, disk: Disk, i: Inode, j: nat)
  {
    PathOf(l, j) != [] && (Hole(l, disk, i, j) || Tiled(BlockBytes(l, disk, i, j), 0))
  }

  ghost predicate TidyBlocks(l: Layout, disk: Disk, i: Inode)
  {
    forall j: nat :: j < BlocksFor(l, i.size) ==> TidyBlock(l, disk, i, j)
  }

  ghost predicate TidyNames(l: Layout, es: seq<Entry>)
  {
    Distinct(es) && forall k :: 0 <= k < |es| ==> 0 < es[k].inode <= l.inodesCount
  }

  /** Every block of a directory is an exact tiling, and every name stands once, for a number an inode can have. */
  ghost predicate TidyDir(l: Layout, disk: Disk, i: Inode)
  {
    TidyBlocks(l, disk, i) && TidyNames(l, Listing(l, disk, i))
  }

  ghost predicate AllTidy(l: Layout, disk: Disk, ino: map<nat, Inode>)
  {
    forall g :: g in ino && ino[g].kind == Directory ==> TidyDir(l, disk, ino[g])
  }

  // ----- what does not change a directory -----

  /** The same bytes and the same holes. */
  ghost predicate SameFile(l: Layout, d: Disk, d': Disk, i: Inode, i': Inode)
  {
    && (forall j: nat :: Hole(l, d', i', j) == Hole(l, d, i, j))
    && (forall off: nat :: FileByte(l, d', i', off) == FileByte(l, d, i, off))
  }

  lemma SameBlockBytes(l: Layout, d: Disk, d': Disk, i: Inode, i': Inode, j: nat)
    requires SameFile(l, d, d', i, i')
    ensures BlockBytes(l, d', i', j) == BlockBytes(l, d, i, j)
  {
    hide FileByte;
  }

  lemma {:induction false} SameDirWalk(l: Layout, d: Disk, d': Disk, i: Inode, i': Inode, j: nat, n: nat)
    requires SameFile(l, d, d', i, i')
    ensures DirWalk(l, d', i', j, n) == DirWalk(l, d, i, j, n)
    decreases n - j
  {
    if j < n {
      SameBlockBytes(l, d, d', i, i', j);
      SameDirWalk(l, d, d', i, i', j + 1, n);
    }
  }

  lemma SameDir(l: Layout, d: Disk, d': Disk, i: Inode, i': Inode)
    requires SameFile(l, d, d', i, i') && i'.size == i.size
    ensures Listing(l, d', i') == Listing(l, d, i)
    ensures TidyDir(l, d, i) ==> TidyDir(l, d', i')
  {
    SameDirWalk(l, d, d', i, i', 0, BlocksFor(l, i.size));
    if TidyDir(l, d, i) {
      forall j: nat | j < BlocksFor(l, i'.size) ensures TidyBlock(l, d', i', j) {
        assert TidyBlock(l, d, i, j);
        SameBlockBytes(l, d, d', i, i', j);
      }
    }
  }

  /** Files other than `f` kept their inodes, their bytes and their holes. */
  ghost predicate OthersSame(l: Layout, d: Disk, d': Disk, ino: map<nat, Inode>, ino': map<nat, Inode>, f: nat)
  {
    forall g :: g in ino' && g != f ==> g in ino && ino'[g] == ino[g] && SameFile(l, d, d', ino[g], ino'[g])
  }

  /** Work on one regular file leaves every directory tidy. */
  lemma TidyKept(l: Layout, d: Disk, d': Disk, ino: map<nat, Inode>, ino': map<nat, Inode>, f: nat)
    requires AllTidy(l, d, ino) && OthersSame(l, d, d', ino, ino', f) && (f in ino' ==> ino'[f].kind != Directory)
    ensures AllTidy(l, d', ino')
  {
    forall g | g in ino' && ino'[g].kind == Directory ensures TidyDir(l, d', ino'[g]) {
      SameDir(l, d, d', ino[g], ino'[g]);
    }
  }

  lemma OthersByWrite(l: Layout, d: Disk, d': Disk, ino: map<nat, Inode>, ino': map<nat, Inode>, f: nat,
                      offset: nat, bytes: seq<byte>)
    requires Wrote(l, d, d', ino, ino', f, offset, bytes) && OthersKept(l, d, d', ino, ino', f)
    ensures OthersSame(l, d, d', ino, ino', f)
  {
    forall g | g in ino' && g != f ensures g in ino && ino'[g] == ino[g] && SameFile(l, d, d', ino[g], ino'[g]) {
      forall j: nat ensures Hole(l, d', ino'[g], j) == Hole(l, d, ino[g], j) {
        assert PtrAt(d', ino'[g].blocks, PathOf(l, j)) == PtrAt(d, ino[g].blocks, PathOf(l, j));
      }
    }
  }

  lemma OthersByCut(l: Layout, d: Disk, d': Disk, ino: map<nat, Inode>, ino': map<nat, Inode>, f: nat, from: nat, to: nat)
    requires Cut(l, d, d', ino, ino', f, from, to) && OthersKept(l, d, d', ino, ino', f)
    ensures OthersSame(l, d, d', ino, ino', f)
  {
    forall g | g in ino' && g != f ensures g in ino && ino'[g] == ino[g] && SameFile(l, d, d', ino[g], ino'[g]) {
      forall j: nat ensures Hole(l, d', ino'[g], j) == Hole(l, d, ino[g], j) {
        assert PtrAt(d', ino'[g].blocks, PathOf(l, j)) == PtrAt(d, ino[g].blocks, PathOf(l, j));
      }
      forall off: nat ensures FileByte(l, d', ino'[g], off) == FileByte(l, d, ino[g], off) {
      }
    }
  }

  lemma OthersByContents(l: Layout, d: Disk, d': Disk, ino: map<nat, Inode>, ino': map<nat, Inode>, f: nat)
    requires SameContents(l, d, d', ino, ino') && OthersKept(l, d, d', ino, ino', f)
    ensures OthersSame(l, d, d', ino, ino', f)
  {
    forall g | g in ino' && g != f ensures g in ino && ino'[g] == ino[g] && SameFile(l, d, d', ino[g], ino'[g]) {
      forall j: nat ensures Hole(l, d', ino'[g], j) == Hole(l, d, ino[g], j) {
        assert PtrAt(d', ino'[g].blocks, PathOf(l, j)) == PtrAt(d, ino[g].blocks, PathOf(l, j));
      }
    }
  }

  lemma OthersTwice(l: Layout, d: Disk, d1: Disk, d2: Disk, i: map<nat, Inode>, i1: map<nat, Inode>, i2: map<nat, Inode>, f: nat)
    requires OthersSame(l, d, d1, i, i1, f) && OthersSame(l, d1, d2, i1, i2, f)
    ensures OthersSame(l, d, d2, i, i2, f)
  {
    forall g | g in i2 && g != f ensures g in i && i2[g] == i[g] && SameFile(l, d, d2, i[g], i2[g]) {
      assert SameFile(l, d, d1, i[g], i1[g]) && SameFile(l, d1, d2, i1[g], i2[g]);
      forall j: nat ensures Hole(l, d2, i2[g], j) == Hole(l, d, i[g], j) {
        assert Hole(l, d1, i1[g], j) == Hole(l, d, i[g], j);
      }
      forall off: nat ensures FileByte(l, d2, i2[g], off) == FileByte(l, d, i[g], off) {
        assert FileByte(l, d1, i1[g], off) == FileByte(l, d, i[g], off);
      }
    }
  }

  // ----- one block of a directory changed -----

  /** Only file block `j` of the file differs, and it is no hole on either side. */
  ghost predicate BlockChanged(l: Layout, d: Disk, d': Disk, i: Inode, j: nat)
  {
    && !Hole(l, d, i, j)
    && (forall k: nat :: Hole(l, d', i, k) == Hole(l, d, i, k))
    && (forall k: nat :: k != j ==> BlockBytes(l, d', i, k) == BlockBytes(l, d, i, k))
  }

  lemma {:induction false} WalkPast(l: Layout, d: Disk, d': Disk, i: Inode, j: nat, s: nat, n: nat)
    requires BlockChanged(l, d, d', i, j) && s > j
    ensures DirWalk(l, d', i, s, n) == DirWalk(l, d, i, s, n)
    decreases n - s
  {
    if s < n {
      WalkPast(l, d, d', i, j, s + 1, n);
    }
  }

  /** Up to block `j`, both walks visit the same entries; from there on, block `j` and what follows. */
  lemma {:induction false} WalkAround(l: Layout, d: Disk, d': Disk, i: Inode, j: nat, s: nat, n: nat) returns (before: seq<Entry>)
    requires BlockChanged(l, d, d', i, j) && s <= j < n && (forall k: nat :: k < n ==> TidyBlock(l, d, i, k))
    requires Tiled(BlockBytes(l, d', i, j), 0)
    ensures var after := DirWalk(l, d, i, j + 1, n).0;
            && DirWalk(l, d, i, s, n).0 == before + Walk(BlockBytes(l, d, i, j), 0).0 + after
            && DirWalk(l, d', i, s, n).0 == before + Walk(BlockBytes(l, d', i, j), 0).0 + after
    decreases j - s
  {
    var after := DirWalk(l, d, i, j + 1, n).0;
    assert TidyBlock(l, d, i, s);
    if s == j {
      before := [];
      TiledWalks(BlockBytes(l, d, i, j), 0);
      TiledWalks(BlockBytes(l, d', i, j), 0);
      WalkPast(l, d, d', i, j, j + 1, n);
      EmptyFirst(Walk(BlockBytes(l, d, i, j), 0).0);
      EmptyFirst(Walk(BlockBytes(l, d', i, j), 0).0);
    } else {
      var b := WalkAround(l, d, d', i, j, s + 1, n);
      if Hole(l, d, i, s) {
        before := b;
      } else {
        var here := Walk(BlockBytes(l, d, i, s), 0).0;
        TiledWalks(BlockBytes(l, d, i, s), 0);
        before := here + b;
        Regroup(here, b, Walk(BlockBytes(l, d, i, j), 0).0, after);
        Regroup(here, b, Walk(BlockBytes(l, d', i, j), 0).0, after);
      }
    }
  }

  lemma EmptyFirst<T>(a: seq<T>)
    ensures [] + a == a
  {}

  lemma Regroup<T>(a: seq<T>, b: seq<T>, c: seq<T>, d: seq<T>)
    ensures a + (b + c + d) == a + b + c + d
  {}

  lemma TidyAfter(l: Layout, d: Disk, d': Disk, i: Inode, j: nat)
    requires BlockChanged(l, d, d', i, j) && TidyBlocks(l, d, i) && j < BlocksFor(l, i.size)
    requires Tiled(BlockBytes(l, d', i, j), 0)
    ensures TidyBlocks(l, d', i)
  {
    forall k: nat | k < BlocksFor(l, i.size) ensures TidyBlock(l, d', i, k) {
      assert TidyBlock(l, d, i, k);
    }
  }

  /** A block that gained an entry gives the directory that entry. */
  lemma DirAdded(l: Layout, d: Disk, d': Disk, i: Inode, j: nat, e: Entry)
    requires BlockChanged(l, d, d', i, j) && TidyBlocks(l, d, i) && j < BlocksFor(l, i.size)
    requires Tiled(BlockBytes(l, d', i, j), 0)
    requires Added(Walk(BlockBytes(l, d, i, j), 0).0, Walk(BlockBytes(l, d', i, j), 0).0, e)
    ensures TidyBlocks(l, d', i) && Added(Listing(l, d, i), Listing(l, d', i), e)
  {
    TidyAfter(l, d, d', i, j);
    var n := BlocksFor(l, i.size);
    var before := WalkAround(l, d, d', i, j, 0, n);
    var old_, new_ := Walk(BlockBytes(l, d, i, j), 0).0, Walk(BlockBytes(l, d', i, j), 0).0;
    var k: nat :| AddedAt(old_, new_, e, k);
    AddedInside(before, old_, new_, DirWalk(l, d, i, j + 1, n).0, e, k);
  }

  lemma AddedInside(a: seq<Entry>, old_: seq<Entry>, new_: seq<Entry>, c: seq<Entry>, e: Entry, k: nat)
    requires AddedAt(old_, new_, e, k)
    ensures Added(a + old_ + c, a + new_ + c, e)
  {
    assert (a + old_ + c)[..|a| + k] == a + old_[..k] && (a + old_ + c)[|a| + k..] == old_[k..] + c;
    assert AddedAt(a + old_ + c, a + new_ + c, e, |a| + k);
  }

  /** `new` is `old` without one entry of that name. */
  ghost predicate Removed(old_: seq<Entry>, new_: seq<Entry>, name: Name)
  {
    exists k: nat :: RemovedAt(old_, new_, k) && old_[k].name == name
  }

  lemma DirRemoved(l: Layout, d: Disk, d': Disk, i: Inode, j: nat, k: nat)
    requires BlockChanged(l, d, d', i, j) && TidyBlocks(l, d, i) && j < BlocksFor(l, i.size)
    requires Tiled(BlockBytes(l, d', i, j), 0)
    requires RemovedAt(Walk(BlockBytes(l, d, i, j), 0).0, Walk(BlockBytes(l, d', i, j), 0).0, k)
    ensures TidyBlocks(l, d', i)
    ensures Removed(Listing(l, d, i), Listing(l, d', i), Walk(BlockBytes(l, d, i, j), 0).0[k].name)
    ensures Walk(BlockBytes(l, d, i, j), 0).0[k] in Listing(l, d, i)
  {
    TidyAfter(l, d, d', i, j);
    var n := BlocksFor(l, i.size);
    var a := WalkAround(l, d, d', i, j, 0, n);
    var old_, new_ := Walk(BlockBytes(l, d, i, j), 0).0, Walk(BlockBytes(l, d', i, j), 0).0;
    var c := DirWalk(l, d, i, j + 1, n).0;
    RemovedInside(a, old_, new_, c, k);
    assert (a + old_ + c)[|a| + k] == old_[k];
  }

  lemma RemovedInside(a: seq<Entry>, old_: seq<Entry>, new_: seq<Entry>, c: seq<Entry>, k: nat)
    requires RemovedAt(old_, new_, k)
    ensures RemovedAt(a + old_ + c, a + new_ + c, |a| + k) && (a + old_ + c)[|a| + k].name == old_[k].name
  {
    assert (a + old_ + c)[..|a| + k] == a + old_[..k] && (a + old_ + c)[|a| + k + 1..] == old_[k + 1..] + c;
  }

  // ----- names -----

  lemma AddedTidy(l: Layout, old_: seq<Entry>, new_: seq<Entry>, e: Entry)
    requires TidyNames(l, old_) && Added(old_, new_, e) && e.name !in NameMap(old_) && 0 < e.inode <= l.inodesCount
    ensures TidyNames(l, new_) && NameMap(new_) == NameMap(old_)[e.name := e.inode]
  {
    AddedMap(old_, new_, e);
    var k: nat :| AddedAt(old_, new_, e, k);
    forall i | 0 <= i < |new_| ensures 0 < new_[i].inode <= l.inodesCount {
      assert i != k ==> new_[i] == old_[if i < k then i else i - 1];
    }
  }

  lemma RemovedTidy(l: Layout, old_: seq<Entry>, new_: seq<Entry>, name: Name)
    requires TidyNames(l, old_) && Removed(old_, new_, name)
    ensures TidyNames(l, new_) && NameMap(new_) == NameMap(old_) - {name}
  {
    var k: nat :| RemovedAt(old_, new_, k) && old_[k].name == name;
    RemovedMap(old_, new_, k);
    forall i | 0 <= i < |new_| ensures 0 < new_[i].inode <= l.inodesCount {
      assert new_[i] == old_[if i < k then i else i + 1];
    }
  }

  // ----- searching a directory -----

  function BlockStart(l: Layout, j: nat): nat { j * l.blockSize }

  lemma BlockBytesIs(l: Layout, d: Disk, ino: map<nat, Inode>, owner: map<nat, Claim>, i: Inode, j: nat)
    requires l.Geometry() && l.Shaped(d) && Tree(l, d, ino, owner) && i.number in ino && ino[i.number] == i
    requires !Hole(l, d, i, j)
    ensures var n := PtrAt(d, i.blocks, PathOf(l, j)); n < |d| && d[n] == BlockBytes(l, d, i, j)
  {
    var n := PtrAt(d, i.blocks, PathOf(l, j));
    BlockAt(l, d, ino, owner, i, j);
    DivModOf(j, 0, l.blockSize);
    forall k | 0 <= k < l.blockSize ensures d[n][k] == BlockBytes(l, d, i, j)[k] {
      ByteOf(l, d, i, BlockStart(l, j), k);
    }
  }

  lemma BlockAt(l: Layout, d: Disk, ino: map<nat, Inode>, owner: map<nat, Claim>, i: Inode, j: nat)
    requires l.Geometry() && l.Shaped(d) && Tree(l, d, ino, owner) && i.number in ino && ino[i.number] == i
    requires !Hole(l, d, i, j)
    ensures var n := PtrAt(d, i.blocks, PathOf(l, j));
            n != 0 && n < |d| && |d[n]| == l.blockSize && n !in l.roles && PathOf(l, j) != []
  {
    PathOfIsLeaf(l, j);
    InRange(l, d, ino, owner, i, PathOf(l, j));
    var n := PtrAt(d, i.blocks, PathOf(l, j));
    assert OwnedAt(l, d, ino, owner, i.number, PathOf(l, j)) && ClaimHolds(l, d, ino, owner, n);
  }

  /** What one directory block adds to a search. */
  lemma DirStep(l: Layout, d: Disk, i: Inode, j: nat, n: nat, name: Name)
    requires j < n
    ensures var all, rest := DirWalk(l, d, i, j, n), DirWalk(l, d, i, j + 1, n);
            && (PathOf(l, j) == [] ==> !all.1 && Find(all.0, name).None?)
            && (PathOf(l, j) != [] && Hole(l, d, i, j) ==> all == rest)
            && (PathOf(l, j) != [] && !Hole(l, d, i, j) ==>
                  var here := Walk(BlockBytes(l, d, i, j), 0);
                  && (Find(here.0, name).Some? ==> Find(all.0, name) == Find(here.0, name))
                  && (Find(here.0, name).None? && !here.1 ==> Find(all.0, name).None? && !all.1)
                  && (Find(here.0, name).None? && here.1 ==> Find(all.0, name) == Find(rest.0, name) && all.1 == rest.1))
  {
    if PathOf(l, j) != [] && !Hole(l, d, i, j) {
      FindAppend(Walk(BlockBytes(l, d, i, j), 0).0, DirWalk(l, d, i, j + 1, n).0, name);
    }
  }

  lemma DirEnd(l: Layout, d: Disk, i: Inode, n: nat, name: Name)
    ensures DirWalk(l, d, i, n, n).1 && Find(DirWalk(l, d, i, n, n).0, name).None?
  {}

  lemma HoleIs(l: Layout, d: Disk, i: Inode, j: nat)
    ensures Hole(l, d, i, j) <==> PtrAt(d, i.blocks, PathOf(l, j)) == 0
  {}

  // ----- rewriting a directory block -----

  lemma DirBlockWritten(l: Layout, d: Disk, d2: Disk, fb: nat, fi: nat, ino: map<nat, Inode>, owner: map<nat, Claim>,
                        b: Inode, j: nat, n: nat, c: Block)
    requires Booked(l, d, fb, fi) && Owned(l, d, Used(l, d), ino, owner) && b.number in ino && ino[b.number] == b
    requires PtrAt(d, b.blocks, PathOf(l, j)) == n != 0 && n !in l.roles && n < |d| && |d[n]| == l.blockSize == |c|
    requires d2 == d[n := c]
    ensures Booked(l, d2, fb, fi) && Owned(l, d2, Used(l, d2), ino, owner) && SameTables(l, d, d2)
    ensures PointersKept(l, d, d2, ino, ino, 0, -1) && Wrote(l, d, d2, ino, ino, b.number, BlockStart(l, j), c)
  {
    hide *;
    BookedFacts(l, d, fb, fi);
    OwnedTree(l, d, Used(l, d), ino, owner);
    WholeBlock(l, d, d2, n, c);
    BlockWrite(l, d, d2, ino, owner, b.number, j, n, 0, c);
    StartIs(l, j);
    DataWriteBooked(l, d, d2, fb, fi, n);
    OwnedFrame(l, d, d2, Used(l, d), ino, owner);
    PointersSame(l, d, d2, ino, owner);
    DataWriteTables(l, d, d2, n);
  }

  lemma StartIs(l: Layout, j: nat)
    ensures BlockStart(l, j) == j * l.blockSize + 0
  {}

  lemma WholeBlock(l: Layout, d: Disk, d2: Disk, n: nat, c: Block)
    requires n < |d| && |d[n]| == l.blockSize == |c| && d2 == d[n := c]
    ensures BlockPut(l, d, d2, n, 0, c)
  {
    assert Overwritten(d[n], 0, c) == c;
  }

  lemma DirBlockChanged(l: Layout, d: Disk, d2: Disk, ino: map<nat, Inode>, b: Inode, j: nat, c: Block)
    requires l.blockSize > 0 && |c| == l.blockSize && b.number in ino && ino[b.number] == b && !Hole(l, d, b, j)
    requires PointersKept(l, d, d2, ino, ino, 0, -1) && Wrote(l, d, d2, ino, ino, b.number, BlockStart(l, j), c)
    ensures BlockChanged(l, d, d2, b, j) && BlockBytes(l, d2, b, j) == c
    ensures OthersSame(l, d, d2, ino, ino, b.number)
  {
    OthersAll(l, d, d2, ino, b.number);
    OthersByWrite(l, d, d2, ino, ino, b.number, BlockStart(l, j), c);
    forall k: nat ensures Hole(l, d2, b, k) == Hole(l, d, b, k) {
      assert PtrAt(d2, ino[b.number].blocks, PathOf(l, k)) == PtrAt(d, ino[b.number].blocks, PathOf(l, k));
    }
    forall k: nat ensures BlockBytes(l, d2, b, k) == if k == j then c else BlockBytes(l, d, b, k) {
      BytesAfter(l, d, d2, ino, b, j, c, k);
    }
  }

  lemma OthersAll(l: Layout, d: Disk, d2: Disk, ino: map<nat, Inode>, f: nat)
    requires PointersKept(l, d, d2, ino, ino, 0, -1)
    ensures OthersKept(l, d, d2, ino, ino, f)
  {
    forall g, k: nat | g in ino && g != f
      ensures PtrAt(d2, ino[g].blocks, PathOf(l, k)) == PtrAt(d, ino[g].blocks, PathOf(l, k)) {}
  }

  lemma BytesAfter(l: Layout, d: Disk, d2: Disk, ino: map<nat, Inode>, b: Inode, j: nat, c: Block, k: nat)
    requires l.blockSize > 0 && |c| == l.blockSize && b.number in ino && ino[b.number] == b
    requires Wrote(l, d, d2, ino, ino, b.number, BlockStart(l, j), c)
    ensures BlockBytes(l, d2, b, k) == if k == j then c else BlockBytes(l, d, b, k)
  {
    hide FileByte;
    forall m | 0 <= m < l.blockSize
      ensures BlockBytes(l, d2, b, k)[m] == if k == j then c[m] else BlockBytes(l, d, b, k)[m]
    {
      var off := k * l.blockSize + m;
      DivModOf(k, m, l.blockSize);
      OffsetMath(off, l.blockSize, j, 0, l.blockSize);
      assert FileByte(l, d2, ino[b.number], off) ==
             if BlockStart(l, j) <= off < BlockStart(l, j) + |c| then c[off - BlockStart(l, j)] else FileByte(l, d, ino[b.number], off);
    }
  }

  /** Everything a mounted volume keeps but the directory's own tidiness survives a directory write. */
  lemma DirWriteKeeps(l: Layout, d: Disk, d2: Disk, ino: map<nat, Inode>)
    requires l.Ok() && l.Shaped(d) && SameTables(l, d, d2) && PointersKept(l, d, d2, ino, ino, 0, -1) && 0 !in ino
    requires AllTrimmed(l, d, ino, 0) && Synced(l, d, ino, 0) && Listed(l, d, ino)
    ensures AllTrimmed(l, d2, ino, 0) && Synced(l, d2, ino, 0) && Listed(l, d2, ino)
  {
    hide *;
    OthersTrimmed(l, d, d2, ino, ino, 0, -1);
    SyncedFrame(l, d, d2, ino, ino, 0);
    TablesKeepMaps(l, d, d2);
    OkGeometry(l);
    ListedFrame(l, d, d2, ino, ino);
  }

  lemma OkGeometry(l: Layout)
    requires l.Ok()
    ensures l.Geometry() && l.blockSize > 0
  {}

  lemma TidyWithDir(l: Layout, d: Disk, d2: Disk, ino: map<nat, Inode>, f: nat)
    requires AllTidy(l, d, ino) && OthersSame(l, d, d2, ino, ino, f) && f in ino && TidyDir(l, d2, ino[f])
    ensures AllTidy(l, d2, ino)
  {
    forall g | g in ino && ino[g].kind == Directory ensures TidyDir(l, d2, ino[g]) {
      if g != f {
        SameDir(l, d, d2, ino[g], ino[g]);
      }
    }
  }

  lemma TidyFacts(l: Layout, d: Disk, ino: map<nat, Inode>, i: Inode)
    requires AllTidy(l, d, ino) && i.number in ino && ino[i.number] == i && i.kind == Directory
    ensures TidyBlocks(l, d, i) && TidyNames(l, Listing(l, d, i))
  {
    assert TidyDir(l, d, i);
  }

  lemma TidyDirIs(l: Layout, d: Disk, i: Inode)
    requires TidyBlocks(l, d, i) && TidyNames(l, Listing(l, d, i))
    ensures TidyDir(l, d, i)
  {}

  lemma PathThere(l: Layout, d: Disk, i: Inode, j: nat)
    requires TidyBlocks(l, d, i) && j < BlocksFor(l, i.size)
    ensures PathOf(l, j) != []
  {
    assert TidyBlock(l, d, i, j);
  }

  lemma TiledAt(l: Layout, d: Disk, i: Inode, j: nat)
    requires TidyBlocks(l, d, i) && j < BlocksFor(l, i.size) && !Hole(l, d, i, j)
    ensures Tiled(BlockBytes(l, d, i, j), 0) && PathOf(l, j) != []
  {
    assert TidyBlock(l, d, i, j);
  }

  /** One entry more in one directory, a name more if the name is new, and no other file changed. */
  ghost predicate Entered(l: Layout, d: Disk, d': Disk, ino: map<nat, Inode>, i: Inode, e: Entry)
  {
    && OthersSame(l, d, d', ino, ino, i.number) && Added(Listing(l, d, i), Listing(l, d', i), e)
    && (e.name !in NameMap(Listing(l, d, i)) ==>
          NameMap(Listing(l, d', i)) == NameMap(Listing(l, d, i))[e.name := e.inode])
  }

  lemma EnteredFacts(l: Layout, d: Disk, d': Disk, ino: map<nat, Inode>, i: Inode, e: Entry)
    requires Entered(l, d, d', ino, i, e)
    ensures OthersSame(l, d, d', ino, ino, i.number)
    ensures e.name !in NameMap(Listing(l, d, i)) ==>
              NameMap(Listing(l, d', i)) == NameMap(Listing(l, d, i))[e.name := e.inode]
  {}

  /** The whole of a successful `link`: one entry more in one directory, and one name more if the name is new. */
  lemma Linked(l: Layout, d: Disk, d2: Disk, ino: map<nat, Inode>, i: Inode, j: nat, c: Block, e: Entry)
    requires l.blockSize > 0 && i.number in ino && ino[i.number] == i && i.kind == Directory && AllTidy(l, d, ino)
    requires !Hole(l, d, i, j) && j < BlocksFor(l, i.size)
    requires 0 < e.inode <= l.inodesCount && |c| == l.blockSize && Tiled(c, 0)
    requires Added(Walk(BlockBytes(l, d, i, j), 0).0, Walk(c, 0).0, e)
    requires Wrote(l, d, d2, ino, ino, i.number, BlockStart(l, j), c) && PointersKept(l, d, d2, ino, ino, 0, -1)
    ensures TidyBlocks(l, d2, i) && Entered(l, d, d2, ino, i, e)
    ensures e.name !in NameMap(Listing(l, d, i)) ==> AllTidy(l, d2, ino)
  {
    TidyFacts(l, d, ino, i);
    DirBlockChanged(l, d, d2, ino, i, j, c);
    DirAdded(l, d, d2, i, j, e);
    if e.name !in NameMap(Listing(l, d, i)) {
      AddedTidy(l, Listing(l, d, i), Listing(l, d2, i), e);
      TidyDirIs(l, d2, i);
      TidyWithDir(l, d, d2, ino, i.number);
    }
  }

  lemma BlankIsShort(l: Layout, d: Disk, n: nat)
    requires Blank(l, d, n) && l.blockSize >= 8
    ensures n < |d| && |d[n]| >= 8 && RecordLen(d[n], 0) < 8
  {}

  /** What `link` reads: the block that was there, or a blank one that is no record at all. */
  lemma LinkFacts(l: Layout, d: Disk, d1: Disk, fb: nat, fi: nat, i: map<nat, Inode>, i1: map<nat, Inode>,
                  owner: map<nat, Claim>, a: Inode, b: Inode, j: nat, n: nat)
    requires Booked(l, d1, fb, fi) && Owned(l, d1, Used(l, d1), i1, owner)
    requires b.number in i1 && i1[b.number] == b && i1 == i[a.number := b]
    requires a.number in i && i[a.number] == a && TidyBlocks(l, d, a) && j < BlocksFor(l, a.size)
    requires Resolved(l, d, d1, a, b, j, n) && FoundOrBlank(l, d, d1, a, b, j, n)
    ensures n < |d1| && |d1[n]| == l.blockSize
    ensures Hole(l, d, a, j) ==> |d1[n]| >= 8 && RecordLen(d1[n], 0) < 8
    ensures !Hole(l, d, a, j) ==>
              && d1 == d && b == a && i1 == i && d[n] == BlockBytes(l, d, a, j) && Tiled(d[n], 0)
              && PtrAt(d, a.blocks, PathOf(l, j)) == n != 0 && n !in l.roles
  {
    hide *;
    BookedFacts(l, d1, fb, fi);
    OwnedTree(l, d1, Used(l, d1), i1, owner);
    ResolvedFacts(l, d, d1, a, b, j, n);
    OkGeometry(l);
    HoleIs(l, d1, b, j);
    HoleIs(l, d, a, j);
    BlockAt(l, d1, i1, owner, b, j);
    if PtrAt(d, a.blocks, PathOf(l, j)) == 0 {
      BlankFacts(l, d, d1, a, b, j, n);
      BlankIsShort(l, d1, n);
    } else {
      FoundFacts(l, d, d1, a, b, j, n);
      BlockBytesIs(l, d1, i1, owner, b, j);
      TiledAt(l, d, a, j);
      assert i[a.number := a] == i;
    }
  }

  lemma ResolvedFacts(l: Layout, d: Disk, d1: Disk, a: Inode, b: Inode, j: nat, n: nat)
    requires Resolved(l, d, d1, a, b, j, n)
    ensures PtrAt(d1, b.blocks, PathOf(l, j)) == n != 0
  {}

  lemma BlankFacts(l: Layout, d: Disk, d1: Disk, a: Inode, b: Inode, j: nat, n: nat)
    requires FoundOrBlank(l, d, d1, a, b, j, n) && PtrAt(d, a.blocks, PathOf(l, j)) == 0
    ensures Blank(l, d1, n)
  {}

  lemma FoundFacts(l: Layout, d: Disk, d1: Disk, a: Inode, b: Inode, j: nat, n: nat)
    requires FoundOrBlank(l, d, d1, a, b, j, n) && PtrAt(d, a.blocks, PathOf(l, j)) != 0
    ensures d1 == d && b == a
  {}
}
