/** A volume on which removing the last name of a symbolic link loses a block. */
module Ext2Lost {
  import opened Common
  import opened Ext2Bits
  import opened Ext2Layout
  import opened Ext2Map
  import opened Ext2Volume
  import opened Ext2Inode
  import opened Ext2Steps
  import opened Ext2Dir
  import opened Ext2Names
  import opened Ext2Error
  import opened Ext2Links
  import opened Ext2Inodes
  import opened Ext2Fresh
  import opened Ext2Fs

  /** The root directory holds block 7. */
  const ROOTS: Block := EMPTY[128 := 0xed][129 := 0x41][133 := 4][154 := 2][156 := 2][168 := 7]
  /** Inode 11, a symbolic link of a hundred bytes, holds block 8. */
  const LINKS: Block := EMPTY[256 := 0xff][257 := 0xa1][260 := 100][282 := 1][284 := 2][296 := 8]
  /** One record, for inode 11 and the name "s". */
  const RECORD: Block := EMPTY[0 := 11][5 := 4][6 := 1][8 := 0x73]

  const S: Name := [0x73]
  const VOLUME: Disk := Medium(8, 11, ROOTS, LINKS, RECORD)
  const TOP := Inode(2, Directory, 1024, 2, 2, One(7))
  const SYMLINK := Inode(11, Other, 100, 1, 2, One(8))
  const BOTH: map<nat, Inode> := map[2 := TOP, 11 := SYMLINK]
  const OWNERS: map<nat, Claim> := map[7 := Claim(2, [0]), 8 := Claim(11, [0])]

  function One(n: u32): (s: seq<u32>)
    ensures |s| == 15 && s[0] == n && forall k :: 1 <= k < 15 ==> s[k] == 0
  {
    seq(15, k => if k == 0 then n else 0)
  }

  lemma {:induction false} OnePath(disk: Disk, n: u32, p: Path)
    requires p == [] || p[0] != 0 || |p| == 1
    ensures PtrAt(disk, One(n), p) == if p == [0] then n else 0
    decreases |p|
  {
    if |p| > 1 {
      OnePath(disk, n, p[..|p| - 1]);
    }
  }

  lemma VolumeSmall()
    ensures Small(8, 11, VOLUME) && VOLUME[5] == ROOTS && VOLUME[6] == LINKS && VOLUME[7] == RECORD
  {
    MediumSmall(8, 11, ROOTS, LINKS, RECORD);
  }

  lemma OneHeld(f: nat)
    requires f in BOTH
    ensures |Held(OWNERS, f)| == 1
  {
    assert Held(OWNERS, f) == if f == 2 then {7} else {8};
  }

  lemma VolumeTree()
    ensures Tree(FRESH, VOLUME, BOTH, OWNERS)
  {
    forall f, p | ValidPath(FRESH, p)
      ensures OwnedAt(FRESH, VOLUME, BOTH, OWNERS, f, p)
    {
      OnePath(VOLUME, 7, p);
      OnePath(VOLUME, 8, p);
    }
    forall n
      ensures ClaimHolds(FRESH, VOLUME, BOTH, OWNERS, n)
    {
      OnePath(VOLUME, 7, [0]);
      OnePath(VOLUME, 8, [0]);
    }
    hide OwnedAt, ClaimHolds;
  }

  lemma VolumeClaimed()
    ensures Claimed(FRESH, Used(FRESH, VOLUME), OWNERS)
  {
    VolumeSmall();
    FreshUsed(8, 11, VOLUME);
    hide Used;
  }

  lemma VolumeSectors()
    ensures SectorsTrue(FRESH, BOTH, OWNERS)
  {
    OneHeld(2);
    OneHeld(11);
    hide Held;
  }

  lemma VolumeOwned()
    ensures Owned(FRESH, VOLUME, Used(FRESH, VOLUME), BOTH, OWNERS)
  {
    VolumeTree();
    VolumeClaimed();
    VolumeSectors();
    hide Tree, Claimed, SectorsTrue, Used;
  }

  lemma PointersOne(b: Block, o: nat, n: byte)
    requires o + 112 <= |b| && b[o + 40] == n && forall k :: o + 41 <= k < o + 100 ==> b[k] == 0
    ensures PointersAt(b, o) == One(n)
  {
    forall i | 0 <= i < 15
      ensures Get32(b, o + 40 + 4 * i) == if i == 0 then n else 0
    {
      var at := o + 40 + 4 * i;
      assert b[at + 1] == 0 && b[at + 2] == 0 && b[at + 3] == 0;
      if i > 0 {
        assert b[at] == 0;
      }
    }
  }

  lemma RootSynced()
    ensures SyncedAt(FRESH, VOLUME, TOP, 2)
  {
    VolumeSmall();
    var b := ROOTS;
    assert SlotBlock(FRESH, 2) == 5 && SlotAt(FRESH, 2) == 128;
    assert Get16(b, 128) == 0x41ed && Get16(b, 154) == 2 && Get32(b, 132) == 1024 && Get32(b, 156) == 2;
    PointersOne(b, 128, 7);
    assert Parse(2, b, 128) == TOP;
  }

  lemma LinkSynced()
    ensures SyncedAt(FRESH, VOLUME, SYMLINK, 11)
  {
    VolumeSmall();
    var b := LINKS;
    assert SlotBlock(FRESH, 11) == 6 && SlotAt(FRESH, 11) == 256;
    assert Get16(b, 256) == 0xa1ff && Get16(b, 282) == 1 && Get32(b, 260) == 100 && Get32(b, 284) == 2;
    PointersOne(b, 256, 8);
    assert Parse(11, b, 256) == SYMLINK;
  }

  lemma VolumeSynced()
    ensures Synced(FRESH, VOLUME, BOTH, 0) && 0 !in BOTH && 2 in BOTH && BOTH[2] == TOP && Lost(OWNERS) == {}
  {
    RootSynced();
    LinkSynced();
    hide SyncedAt;
  }

  lemma VolumeTrimmed()
    ensures AllTrimmed(FRESH, VOLUME, BOTH, 0)
  {
    forall j: nat | j >= 1
      ensures PtrAt(VOLUME, TOP.blocks, PathOf(FRESH, j)) == 0 && PtrAt(VOLUME, SYMLINK.blocks, PathOf(FRESH, j)) == 0
    {
      OnePath(VOLUME, 7, PathOf(FRESH, j));
      OnePath(VOLUME, 8, PathOf(FRESH, j));
    }
    assert BlocksFor(FRESH, 1024) == 1 && BlocksFor(FRESH, 100) == 1;
  }

  lemma RecordRead()
    ensures BlockBytes(FRESH, VOLUME, TOP, 0) == RECORD && !Hole(FRESH, VOLUME, TOP, 0) && PathOf(FRESH, 0) == [0]
  {
    VolumeSmall();
    OnePath(VOLUME, 7, [0]);
    forall k | 0 <= k < 1024
      ensures FileByte(FRESH, VOLUME, TOP, 0 * 1024 + k) == RECORD[k]
    {
      assert k / 1024 == 0 && k % 1024 == k;
    }
  }

  lemma RecordWalk()
    ensures Tiled(RECORD, 0) && Walk(RECORD, 0) == ([Ext2Dir.Entry(11, Other, S)], true)
  {
    var b := RECORD;
    assert RecordLen(b, 0) == 1024 && Get32(b, 0) == 11 && b[8..9] == S;
    assert Sound(b, 0) && Shown(b, 0) == [Ext2Dir.Entry(11, Other, S)];
    assert Tiled(b, 1024) && Walk(b, 1024) == ([], true);
    assert Shown(b, 0) + [] == Shown(b, 0);
  }

  lemma VolumeListing()
    ensures Listing(FRESH, VOLUME, TOP) == [Ext2Dir.Entry(11, Other, S)] && AllTidy(FRESH, VOLUME, BOTH)
    ensures NameMap(Listing(FRESH, VOLUME, TOP)) == map[S := 11]
  {
    RecordRead();
    RecordWalk();
    hide BlockBytes, Hole, Walk, Tiled, PathOf;
    assert BlocksFor(FRESH, 1024) == 1;
    assert DirWalk(FRESH, VOLUME, TOP, 1, 1) == ([], true);
    var es := [Ext2Dir.Entry(11, Other, S)];
    assert Listing(FRESH, VOLUME, TOP) == es + [];
    assert NameMap(es) == NameMap(es[1..])[S := 11];
  }

  lemma VolumeReferenced()
    ensures Referenced(Dirs(FRESH, VOLUME, BOTH), BOTH + map[])
  {
    VolumeListing();
    hide Listing, NameMap, AllTidy;
    var ns := Dirs(FRESH, VOLUME, BOTH);
    assert ns.Keys == {2} && ns[2] == map[S := 11];
    assert Refs(ns, 11) == {(2, S)};
  }

  lemma VolumeListed()
    ensures Listed(FRESH, VOLUME, BOTH)
  {
    VolumeSmall();
    FreshMarks(8, 11, VOLUME, 2);
    FreshMarks(8, 11, VOLUME, 11);
  }

  /** A mounted volume like any other, with every block reached. */
  lemma VolumeIsMountable()
    ensures Volume(FRESH, VOLUME, 3, 5, BOTH, OWNERS) && 0 !in BOTH && AllReached(FRESH, VOLUME, BOTH)
    ensures Synced(FRESH, VOLUME, BOTH, 0) && AllTrimmed(FRESH, VOLUME, BOTH, 0)
    ensures Listed(FRESH, VOLUME, BOTH) && AllTidy(FRESH, VOLUME, BOTH)
    ensures Sealed(FRESH, VOLUME, BOTH, map[]) && Referenced(Dirs(FRESH, VOLUME, BOTH), BOTH + map[])
  {
    hide *;
    VolumeSmall();
    FreshBooked(8, 11, VOLUME);
    VolumeOwned();
    VolumeSynced();
    VolumeTrimmed();
    VolumeListing();
    VolumeListed();
    VolumeReferenced();
    VolumeFacts(FRESH, VOLUME, 3, 5, BOTH, OWNERS);
    NothingLostIff(FRESH, VOLUME, BOTH, OWNERS);
    NoneSealed(FRESH, VOLUME, BOTH);
  }

  /** Removing the name succeeds, and block 8 is still marked while nothing leads to it. */
  method UnlinkLosesABlock(fs: Fs) returns (r: Result<()>)
    requires fs.l == FRESH && fs.disk == VOLUME && fs.freeBlocks == 3 && fs.freeInodes == 5
    requires fs.ino == BOTH && fs.sealed == map[] && fs.owner == OWNERS
    modifies fs
    ensures r.Ok? && fs.Mounted() && fs.ino == map[2 := TOP]
    ensures 8 in Used(FRESH, fs.disk) && !Reached(FRESH, fs.disk, fs.ino, 8)
  {
    hide *;
    Ready(fs);
    NamesIt();
    r := fs.Unlink(TOP, S, 1);
    fs.MountedFacts();
    fs.SteadyFacts();
    fs.SettledFacts();
    fs.Opened();
    LostIsUnreached(FRESH, fs.disk, Used(FRESH, fs.disk), fs.ino, fs.owner, 8);
  }

  lemma Ready(fs: Fs)
    requires fs.l == FRESH && fs.disk == VOLUME && fs.freeBlocks == 3 && fs.freeInodes == 5
    requires fs.ino == BOTH && fs.sealed == map[] && fs.owner == OWNERS
    ensures fs.Mounted() && fs.Live(TOP)
  {
    hide *;
    VolumeIsMountable();
    VolumeFacts(FRESH, VOLUME, 3, 5, BOTH, OWNERS);
    fs.Closed();
    fs.SteadyIs();
    fs.MountedIs();
    VolumeSynced();
    NamesIt();
    fs.NowLive(TOP);
  }

  lemma NamesIt()
    ensures TOP.kind == Directory && S != [] && |S| <= MAX_NAME && TOP.number == 2
    ensures Named(Listing(FRESH, VOLUME, TOP), S) == 11 && BOTH + map[] == BOTH && BOTH[11] == SYMLINK
    ensures Leaves(SYMLINK) && SYMLINK.kind == Other && FewerIn(BOTH, 11) == map[2 := TOP]
    ensures Lost(OWNERS) + Held(OWNERS, 11) == {8}
  {
    VolumeListing();
    hide Listing, NameMap;
  }
}
