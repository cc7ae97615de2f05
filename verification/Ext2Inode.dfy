/** The inode on the medium: where each one sits, and that writing one back is read back. */
module Ext2Inode {
  import opened Common
  import opened Ext2Bits
  import opened Ext2Layout
  import opened Ext2Map

  // ----- the fields of a slot -----

  function KindOf(mode: u16): Kind
  {
    if mode / 0x1000 == 8 then Regular else if mode / 0x1000 == 4 then Directory else Other
  }

  function PointersAt(b: Block, o: nat): (p: seq<u32>)
    requires o + 112 <= |b|
    ensures |p| == 15
  {
    seq(15, i requires 0 <= i < 15 => Get32(b, o + 40 + 4 * i))
  }

  /** `Inode::parse` of the slot at `o`. */
  function Parse(number: nat, b: Block, o: nat): Inode
    requires o + 112 <= |b|
  {
    var kind := KindOf(Get16(b, o));
    var size := Get32(b, o + 4) + if kind == Regular then 0x1_0000_0000 * Get32(b, o + 108) else 0;
    Inode(number, kind, size, Get16(b, o + 26), Get32(b, o + 28), PointersAt(b, o))
  }

  /** What an inode must be for its fields to hold it. */
  predicate Fits(i: Inode)
  {
    && |i.blocks| == 15 && i.sectors < 0x1_0000_0000
    && i.size < (if i.kind == Regular then 0x1_0000_0000_0000_0000 else 0x1_0000_0000)
  }

  function PutPointers(b: Block, o: nat, p: seq<u32>): (r: Block)
    requires o + 40 + 4 * |p| <= |b|
    ensures SameOutside(b, r, o + 40, 4 * |p|)
    ensures forall i :: 0 <= i < |p| ==> Get32(r, o + 40 + 4 * i) == p[i]
  {
    if p == [] then b
    else
      var n := |p| - 1;
      var c := PutPointers(b, o, p[..n]);
      var r := Put32(c, o + 40 + 4 * n, p[n]);
      assert forall i :: 0 <= i < n ==> Get32(r, o + 40 + 4 * i) == p[i] by {
        forall i | 0 <= i < n ensures Get32(r, o + 40 + 4 * i) == p[i] {
          Get32Same(c, r, o + 40 + 4 * n, 4, o + 40 + 4 * i);
        }
      }
      r
  }

  /** `flush_inode`'s edits of the slot at `o`. */
  function Patched(b: Block, o: nat, i: Inode): (r: Block)
    requires o + 112 <= |b| && Fits(i)
    ensures SameOutside(b, r, o + 4, 108)
  {
    var b1 := Put32(b, o + 4, i.size % 0x1_0000_0000);
    var b2 := if i.kind == Regular then Put32(b1, o + 108, i.size / 0x1_0000_0000) else b1;
    var b3 := Put16(b2, o + 26, i.links);
    var b4 := Put32(b3, o + 28, i.sectors);
    PutPointers(b4, o, i.blocks)
  }

  /** An inode written back over a slot of its own kind is the inode read from it. */
  lemma {:induction false} FlushedParses(b: Block, o: nat, i: Inode)
    requires o + 112 <= |b| && Fits(i) && KindOf(Get16(b, o)) == i.kind
    ensures Parse(i.number, Patched(b, o, i), o) == i
  {
    Get16Same(b, Patched(b, o, i), o + 4, 108, o);
    SizeKept(b, o, i);
    CountsKept(b, o, i);
    assert PointersAt(Patched(b, o, i), o) == i.blocks;
  }

  lemma CountsKept(b: Block, o: nat, i: Inode)
    requires o + 112 <= |b| && Fits(i)
    ensures Get16(Patched(b, o, i), o + 26) == i.links && Get32(Patched(b, o, i), o + 28) == i.sectors
  {
    var b1 := Put32(b, o + 4, i.size % 0x1_0000_0000);
    var b2 := if i.kind == Regular then Put32(b1, o + 108, i.size / 0x1_0000_0000) else b1;
    var b3 := Put16(b2, o + 26, i.links);
    var b4 := Put32(b3, o + 28, i.sectors);
    var r := PutPointers(b4, o, i.blocks);
    Get16Same(b3, b4, o + 28, 4, o + 26);
    Get16Same(b4, r, o + 40, 60, o + 26);
    Get32Same(b4, r, o + 40, 60, o + 28);
  }

  lemma SizeKept(b: Block, o: nat, i: Inode)
    requires o + 112 <= |b| && Fits(i)
    ensures Get32(Patched(b, o, i), o + 4) == i.size % 0x1_0000_0000
    ensures i.kind == Regular ==> Get32(Patched(b, o, i), o + 108) == i.size / 0x1_0000_0000
  {
    var b1 := Put32(b, o + 4, i.size % 0x1_0000_0000);
    var b2 := if i.kind == Regular then Put32(b1, o + 108, i.size / 0x1_0000_0000) else b1;
    var b3 := Put16(b2, o + 26, i.links);
    var b4 := Put32(b3, o + 28, i.sectors);
    var r := PutPointers(b4, o, i.blocks);
    if i.kind == Regular {
      Get32Same(b1, b2, o + 108, 4, o + 4);
      Get32Same(b2, b3, o + 26, 2, o + 108);
      Get32Same(b3, b4, o + 28, 4, o + 108);
      Get32Same(b4, r, o + 40, 60, o + 108);
    }
    Get32Same(b2, b3, o + 26, 2, o + 4);
    Get32Same(b3, b4, o + 28, 4, o + 4);
    Get32Same(b4, r, o + 40, 60, o + 4);
  }

  lemma ParseSame(number: nat, b: Block, c: Block, at: nat, n: nat, o: nat)
    requires SameOutside(b, c, at, n) && o + 112 <= |b| && (o + 112 <= at || at + n <= o)
    ensures Parse(number, c, o) == Parse(number, b, o)
  {
    forall i | 0 <= i < 15 ensures PointersAt(b, o)[i] == PointersAt(c, o)[i] {
      Get32Same(b, c, at, n, o + 40 + 4 * i);
    }
  }

  // ----- where slots are -----

  function SlotBlock(l: Layout, number: nat): nat
    requires number > 0 && l.inodesPerGroup > 0
  {
    var index := number - 1;
    l.TableOf(index / l.inodesPerGroup) + index % l.inodesPerGroup / l.InodesPerBlock()
  }

  function SlotAt(l: Layout, number: nat): nat
    requires number > 0 && l.inodesPerGroup > 0
  {
    (number - 1) % l.inodesPerGroup % l.InodesPerBlock() * l.inodeSize
  }

  lemma SlotMath(w: nat, per: nat, ipb: nat, size: nat, blockSize: nat)
    requires w < per && 0 < size <= blockSize && ipb == blockSize / size
    ensures ipb > 0 && w / ipb <= (per - 1) / ipb && w % ipb * size + size <= blockSize
  {
    assert blockSize == blockSize / size * size + blockSize % size;
    DivMono(w, per - 1, ipb);
    MulMono(w % ipb + 1, ipb, size);
  }

  lemma SlotPlaced(l: Layout, number: nat)
    requires l.Ok() && 0 < number <= l.inodesCount
    ensures SlotAt(l, number) + l.inodeSize <= l.blockSize
    ensures SlotBlock(l, number) < l.blocksCount
    ensures var w := (number - 1) % l.inodesPerGroup;
            l.HasRole(SlotBlock(l, number), Table((number - 1) / l.inodesPerGroup, w / l.InodesPerBlock()))
  {
    var g, w := (number - 1) / l.inodesPerGroup, (number - 1) % l.inodesPerGroup;
    MixedRadix(number - 1, l.inodesPerGroup, l.Groups());
    SlotMath(w, l.inodesPerGroup, l.blockSize / l.inodeSize, l.inodeSize, l.blockSize);
    assert l.HasRole(l.TableOf(g) + w / l.InodesPerBlock(), Table(g, w / l.InodesPerBlock()));
  }

  lemma DivMono(a: nat, b: nat, d: nat)
    requires a <= b && d > 0
    ensures a / d <= b / d
  {
    if a / d > b / d {
      MulMono(b / d + 1, a / d, d);
    }
  }

  /** Two inodes never share a byte of an inode table. */
  lemma SlotsApart(l: Layout, m: nat, n: nat)
    requires l.Ok() && 0 < m <= l.inodesCount && 0 < n <= l.inodesCount && m != n
    requires SlotBlock(l, m) == SlotBlock(l, n)
    ensures SlotAt(l, m) + l.inodeSize <= SlotAt(l, n) || SlotAt(l, n) + l.inodeSize <= SlotAt(l, m)
  {
    SlotPlaced(l, m);
    SlotPlaced(l, n);
    MixedRadix(m - 1, l.inodesPerGroup, l.Groups());
    MixedRadix(n - 1, l.inodesPerGroup, l.Groups());
    ApartMath((m - 1) % l.inodesPerGroup, (n - 1) % l.inodesPerGroup, l.InodesPerBlock(), l.inodeSize);
  }

  lemma ApartMath(v: nat, w: nat, ipb: nat, size: nat)
    requires ipb > 0 && v != w && v / ipb == w / ipb
    ensures v % ipb * size + size <= w % ipb * size || w % ipb * size + size <= v % ipb * size
  {
    assert v == v / ipb * ipb + v % ipb && w == w / ipb * ipb + w % ipb;
    if v % ipb < w % ipb {
      MulMono(v % ipb + 1, w % ipb, size);
    } else {
      MulMono(w % ipb + 1, v % ipb, size);
    }
  }

  // ----- the inode tables agree with the inodes in memory -----

  predicate SyncedAt(l: Layout, disk: Disk, i: Inode, number: nat)
  {
    && l.inodesPerGroup > 0 && 0 < number <= l.inodesCount && i.number == number && Fits(i)
    && SlotBlock(l, number) < |disk| && SlotAt(l, number) + 112 <= |disk[SlotBlock(l, number)]|
    && Parse(number, disk[SlotBlock(l, number)], SlotAt(l, number)) == i
  }

  /** What reading inode `number` from its slot gives. */
  function SlotInode(l: Layout, disk: Disk, number: nat): Inode
  {
    if l.inodesPerGroup > 0 && number > 0 && SlotBlock(l, number) < |disk|
       && SlotAt(l, number) + 112 <= |disk[SlotBlock(l, number)]|
    then Parse(number, disk[SlotBlock(l, number)], SlotAt(l, number))
    else Inode(number, Other, 0, 0, 0, [])
  }

  lemma SyncedReads(l: Layout, disk: Disk, ino: map<nat, Inode>, n: nat)
    requires Synced(l, disk, ino, 0) && n in ino && n != 0
    ensures SlotInode(l, disk, n) == ino[n] && 0 < n <= l.inodesCount
  {
    assert SyncedAt(l, disk, ino[n], n);
  }

  /** Every inode but `except` reads back from its slot as it is. */
  ghost predicate Synced(l: Layout, disk: Disk, ino: map<nat, Inode>, except: nat)
  {
    forall n :: n in ino && n != except ==> SyncedAt(l, disk, ino[n], n)
  }

  /** Nothing about which inodes there are, or what their slots hold, has changed. */
  ghost predicate SameTables(l: Layout, d: Disk, d': Disk)
  {
    |d| == |d'| && forall m :: m in l.roles && l.Kept(m) && m < |d| ==> d'[m] == d[m]
  }

  // ----- which inodes are in use -----

  ghost predicate SameInodeMaps(l: Layout, d: Disk, d': Disk)
  {
    |d| == |d'| && forall g :: 0 <= g < l.Groups() ==> l.Map(Inodes, g) < |d| && d'[l.Map(Inodes, g)] == d[l.Map(Inodes, g)]
  }

  predicate InodeInUse(l: Layout, disk: Disk, n: int)
  {
    && l.inodesPerGroup > 0 && 0 < n <= l.inodesCount
    && Marked(disk, l.Map(Inodes, (n - 1) / l.inodesPerGroup), (n - 1) % l.inodesPerGroup)
  }

  /** Every inode there is is marked in its group's bitmap. */
  ghost predicate Listed(l: Layout, disk: Disk, ino: map<nat, Inode>)
  {
    forall n :: n in ino ==> InodeInUse(l, disk, n)
  }

  lemma TablesKeepMaps(l: Layout, d: Disk, d': Disk)
    requires l.Ok() && l.Shaped(d) && SameTables(l, d, d')
    ensures SameInodeMaps(l, d, d')
  {
    forall g | 0 <= g < l.Groups() ensures l.Map(Inodes, g) < |d| && d'[l.Map(Inodes, g)] == d[l.Map(Inodes, g)] {
      assert l.HasRole(l.Map(Inodes, g), Bitmap(Inodes, g));
    }
  }

  lemma ListedFrame(l: Layout, d: Disk, d': Disk, ino: map<nat, Inode>, ino': map<nat, Inode>)
    requires l.Geometry() && SameInodeMaps(l, d, d') && ino'.Keys == ino.Keys && Listed(l, d, ino)
    ensures Listed(l, d', ino')
  {
    forall n | n in ino' ensures InodeInUse(l, d', n) {
      assert InodeInUse(l, d, n);
      InUseFrame(l, d, d', n);
    }
  }

  lemma InUseFrame(l: Layout, d: Disk, d': Disk, n: int)
    requires l.Geometry() && SameInodeMaps(l, d, d') && InodeInUse(l, d, n)
    ensures InodeInUse(l, d', n)
  {
    InodePlace(l, n);
    hide Layout.Geometry;
    hide Layout.Map;
    var g := (n - 1) / l.inodesPerGroup;
    assert d'[l.Map(Inodes, g)] == d[l.Map(Inodes, g)];
  }

  lemma InodePlace(l: Layout, n: int)
    requires l.Geometry() && 0 < n <= l.inodesCount
    ensures l.inodesPerGroup > 0
    ensures 0 <= (n - 1) / l.inodesPerGroup < l.Groups() && 0 <= (n - 1) % l.inodesPerGroup < l.inodesPerGroup
  {
    PlaceMath(n - 1, l.inodesPerGroup, l.Groups());
  }

  lemma SyncedFrame(l: Layout, d: Disk, d': Disk, ino: map<nat, Inode>, ino': map<nat, Inode>, except: nat)
    requires l.Ok() && Synced(l, d, ino, except) && SameTables(l, d, d')
    requires ino'.Keys == ino.Keys && forall n :: n in ino && n != except ==> ino'[n] == ino[n]
    ensures Synced(l, d', ino', except)
  {
    forall n | n in ino' && n != except ensures SyncedAt(l, d', ino'[n], n) {
      assert SyncedAt(l, d, ino[n], n);
      SlotPlaced(l, n);
    }
  }

  /** Every slot but that of inode `n` reads as it did. */
  ghost predicate SlotsKept(l: Layout, d: Disk, d': Disk, n: nat)
  {
    forall m: map<nat, Inode> :: Synced(l, d, m, n) ==> Synced(l, d', m, n)
  }

  lemma SlotsKeptFor(l: Layout, d: Disk, d': Disk, m: map<nat, Inode>, n: nat)
    requires SlotsKept(l, d, d', n) && Synced(l, d, m, n)
    ensures Synced(l, d', m, n)
  {
    hide Synced;
  }

  lemma SyncedBut(l: Layout, d: Disk, m: map<nat, Inode>, n: nat)
    ensures Synced(l, d, m, 0) && 0 !in m ==> Synced(l, d, m, n)
    ensures Synced(l, d, m, n) && n !in m ==> Synced(l, d, m, 0)
    ensures Synced(l, d, m, n) && n in m && SyncedAt(l, d, m[n], n) ==> Synced(l, d, m, 0)
  {
    hide SyncedAt;
  }

  lemma SyncedAgain(l: Layout, d: Disk, d': Disk, m: map<nat, Inode>, i: Inode)
    requires Synced(l, d, m, i.number) && SlotsKept(l, d, d', i.number) && SyncedAt(l, d', i, i.number)
    requires i.number in m ==> m[i.number] == i
    ensures Synced(l, d', m, 0)
  {
    hide *;
    SlotsKeptFor(l, d, d', m, i.number);
    SyncedBut(l, d', m, i.number);
  }

  /** Writing one slot back brings that inode in step and leaves every other in step. */
  lemma FlushSyncs(l: Layout, d: Disk, d': Disk, i: Inode)
    requires l.Ok() && l.Shaped(d) && 0 < i.number <= l.inodesCount && Fits(i)
    requires var n, o := SlotBlock(l, i.number), SlotAt(l, i.number);
             && n < |d| && o + 112 <= |d[n]| && KindOf(Get16(d[n], o)) == i.kind
             && d' == d[n := Patched(d[n], o, i)]
    ensures SyncedAt(l, d', i, i.number) && SlotsKept(l, d, d', i.number)
  {
    var f := i.number;
    SlotPlaced(l, f);
    var n, o := SlotBlock(l, f), SlotAt(l, f);
    FlushedParses(d[n], o, i);
    forall ino: map<nat, Inode> | Synced(l, d, ino, f)
      ensures Synced(l, d', ino, f)
    {
      forall m | m in ino && m != f
        ensures SyncedAt(l, d', ino[m], m)
      {
        assert SyncedAt(l, d, ino[m], m);
        if SlotBlock(l, m) == n {
          SlotsApart(l, m, f);
          ParseSame(m, d[n], d'[n], o + 4, 108, SlotAt(l, m));
        }
      }
    }
  }

  // ----- inodes whose words are not block numbers -----

  /** Short symbolic links, devices and the like hold no block: marked, and on the medium as they are. */
  ghost predicate Sealed(l: Layout, d: Disk, ino: map<nat, Inode>, sealed: map<nat, Inode>)
  {
    && 0 !in sealed && sealed.Keys !! ino.Keys && (forall n :: n in sealed ==> sealed[n].kind == Other && sealed[n].sectors == 0)
    && Synced(l, d, sealed, 0) && Listed(l, d, sealed)
  }

  lemma SealedTables(l: Layout, d: Disk, d': Disk, ino: map<nat, Inode>, ino': map<nat, Inode>, sealed: map<nat, Inode>)
    requires l.Ok() && l.Shaped(d) && Sealed(l, d, ino, sealed) && SameTables(l, d, d') && ino'.Keys == ino.Keys
    ensures Sealed(l, d', ino', sealed)
  {
    hide SameTables, Synced, Listed;
    SyncedFrame(l, d, d', sealed, sealed, 0);
    TablesKeepMaps(l, d, d');
    ListedFrame(l, d, d', sealed, sealed);
  }

  lemma SealedSlots(l: Layout, d: Disk, d': Disk, ino: map<nat, Inode>, sealed: map<nat, Inode>, n: nat)
    requires l.Ok() && Sealed(l, d, ino, sealed) && n !in sealed
    requires SlotsKept(l, d, d', n) && SameInodeMaps(l, d, d')
    ensures Sealed(l, d', ino, sealed)
  {
    hide Synced, Listed, SameInodeMaps, SlotsKept;
    SyncedBut(l, d, sealed, n);
    SlotsKeptFor(l, d, d', sealed, n);
    SyncedBut(l, d', sealed, n);
    ListedFrame(l, d, d', sealed, sealed);
  }

  /** Both parts of a write or a cut: blocks of the file, then the file's own slot. */
  lemma SealedEnds(l: Layout, d: Disk, d1: Disk, d2: Disk, ino: map<nat, Inode>, ino': map<nat, Inode>,
                   sealed: map<nat, Inode>, n: nat)
    requires l.Ok() && l.Shaped(d) && Sealed(l, d, ino, sealed) && SameTables(l, d, d1) && ino'.Keys == ino.Keys
    requires n in ino && SlotsKept(l, d1, d2, n) && SameInodeMaps(l, d1, d2)
    ensures Sealed(l, d2, ino', sealed)
  {
    assert n !in sealed;
    hide *;
    SealedTables(l, d, d1, ino, ino', sealed);
    SealedSlots(l, d1, d2, ino', sealed, n);
  }
}
