/**
 A mounted volume, as `Fs` runs: methods that read and rewrite blocks of the device and
 keep the superblock's counters, proved to keep the volume invariant.
 */
module Ext2Fs {
  import opened Common
  import opened Ext2Bits
  import opened Ext2Layout
  import opened Ext2Alloc
  import opened Ext2Map
  import opened Ext2Volume
  import opened Ext2Inode
  import opened Ext2Steps
  import opened Ext2Trim
  import opened Ext2Dir
  import opened Ext2Names
  import opened Ext2Error
  import opened Ext2Scan
  import opened Ext2Room
  import opened Ext2Links
  import opened Ext2Inodes
  import opened Ext2Conservation

  class Fs {
    const l: Layout
    var disk: Disk
    var freeBlocks: nat
    var freeInodes: nat

    /** Every inode whose pointers are block pointers, as its one live copy has it. */
    ghost var ino: map<nat, Inode>
    /** Inodes of other kinds that hold no block, such as short symbolic links and devices. */
    ghost var sealed: map<nat, Inode>
    /** Which position of which file owns each block. */
    ghost var owner: map<nat, Claim>

    ghost predicate Valid()
      reads this
    {
      Volume(l, disk, freeBlocks, freeInodes, ino, owner)
    }

    lemma Opened()
      requires Valid()
      ensures Booked(l, disk, freeBlocks, freeInodes) && Owned(l, disk, Used(l, disk), ino, owner)
      ensures Claimed(l, Used(l, disk), owner)
    {}

    lemma Closed()
      requires Booked(l, disk, freeBlocks, freeInodes) && Owned(l, disk, Used(l, disk), ino, owner)
      ensures Valid()
    {}

    // ----- bitmaps -----

    /** The first clear bit below `limit` in the bitmap at `bitmap`. */
    method FirstFreeBit(bitmap: nat, limit: nat) returns (r: Result<Option<nat>>)
      requires l.Shaped(disk)
      ensures r.Err? <==> bitmap >= l.blocksCount
      ensures r.Ok? && r.value.Some? ==>
                && r.value.value < limit && r.value.value / 8 < l.blockSize && !Marked(disk, bitmap, r.value.value)
                && forall i :: 0 <= i < r.value.value ==> Marked(disk, bitmap, i)
      ensures r.Ok? && r.value.None? ==>
                forall i :: 0 <= i < limit && i / 8 < l.blockSize ==> Marked(disk, bitmap, i)
    {
      if bitmap >= l.blocksCount {
        return Err(Corrupt);
      }
      var block := disk[bitmap];
      var index := 0;
      while index < limit
        invariant forall i :: 0 <= i < index && i / 8 < l.blockSize ==> Marked(disk, bitmap, i)
      {
        if index / 8 >= l.blockSize {
          break;
        }
        if !BitAt(block, index) {
          return Ok(Some(index));
        }
        index := index + 1;
      }
      return Ok(None);
    }

    /** Marks a bit, refusing one already set. */
    method ClaimBit(bitmap: nat, index: nat) returns (r: Result<()>)
      requires l.Shaped(disk)
      modifies this`disk
      ensures r.Ok? <==> bitmap < l.blocksCount && index / 8 < l.blockSize && !Marked(old(disk), bitmap, index)
      ensures r.Err? ==> disk == old(disk)
      ensures r.Ok? ==> disk == old(disk)[bitmap := SetBit(old(disk)[bitmap], index, true)]
      ensures l.Shaped(disk)
    {
      if bitmap >= l.blocksCount || index / 8 >= l.blockSize || BitAt(disk[bitmap], index) {
        return Err(Corrupt);
      }
      disk := disk[bitmap := SetBit(disk[bitmap], index, true)];
      return Ok(());
    }

    method ReleaseBit(bitmap: nat, index: nat) returns (r: Result<()>)
      requires l.Shaped(disk)
      modifies this`disk
      ensures r.Ok? <==> bitmap < l.blocksCount && index / 8 < l.blockSize
      ensures r.Err? ==> disk == old(disk)
      ensures r.Ok? ==> disk == old(disk)[bitmap := SetBit(old(disk)[bitmap], index, false)]
      ensures l.Shaped(disk)
    {
      if bitmap >= l.blocksCount || index / 8 >= l.blockSize {
        return Err(Corrupt);
      }
      disk := disk[bitmap := SetBit(disk[bitmap], index, false)];
      return Ok(());
    }

    /** Moves a group's free count and the superblock's total, and writes both. */
    method Account(w: Which, g: nat, delta: int) returns (r: Result<()>, ghost v: int, ghost mid: Disk)
      requires l.Ok() && l.Shaped(disk) && g < l.Groups() && l.DescAt(g) + 32 <= l.blockSize
      modifies this`disk, this`freeBlocks, this`freeInodes
      ensures l.Shaped(disk) && |disk| == |old(disk)|
      ensures v == Half(old(disk), l.DescBlock(g), l.DescAt(g) + CountField(w)) + delta
      ensures var fb := old(freeBlocks) + if w == Blocks then delta else 0;
              var fi := old(freeInodes) + if w == Inodes then delta else 0;
              && (0 <= v < 0x1_0000 && 0 <= fb < 0x1_0000_0000 && 0 <= fi < 0x1_0000_0000 ==> r.Ok?)
              && (r.Ok? ==>
                    && 0 <= v < 0x1_0000 && freeBlocks == fb < 0x1_0000_0000 && freeInodes == fi < 0x1_0000_0000
                    && Recounted(l, old(disk), mid, w, g, v) && Flushed(l, mid, disk, fb, fi))
    {
      hide Put16, Put32, Get32;
      BookkeepingApart(l, w, g, g);
      var n, at := l.DescBlock(g), l.DescAt(g) + CountField(w);
      var next: int := Get16(disk[n], at) + delta;
      v, mid := next, disk;
      if !(0 <= next < 0x1_0000) {
        return Err(Corrupt), v, mid;
      }
      disk := disk[n := Put16(disk[n], at, next)];
      mid := disk;
      var fb: int := freeBlocks + if w == Blocks then delta else 0;
      var fi: int := freeInodes + if w == Inodes then delta else 0;
      if !(0 <= fb < 0x1_0000_0000 && 0 <= fi < 0x1_0000_0000) {
        return Err(Corrupt), v, mid;
      }
      freeBlocks, freeInodes := fb, fi;
      var s := l.SuperBlock();
      disk := disk[s := Put32(Put32(disk[s], l.SuperAt() + 12, fb), l.SuperAt() + 16, fi)];
      return Ok(()), v, mid;
    }

    // ----- blocks -----

    /** Takes a free block of group `g`, given the bit that stands for it. */
    method TakeBlock(g: nat, index: nat, bitmap: nat) returns (r: Result<u32>)
      requires Valid() && g < l.Groups() && index < l.Limit(Blocks, g) && bitmap == l.Map(Blocks, g)
      requires !Marked(disk, bitmap, index)
      modifies this`disk, this`freeBlocks, this`freeInodes
      ensures r.Ok? && r.value == l.GroupFirst(g) + index
      ensures Booked(l, disk, freeBlocks, freeInodes) && Grabbed(l, old(disk), disk, r.value)
      ensures freeBlocks == old(freeBlocks) - 1 && freeInodes == old(freeInodes)
    {
      hide *;
      ghost var d0 := disk;
      ghost var fb, fi := freeBlocks, freeInodes;
      Opened();
      TakeFacts(l, d0, fb, fi, g, index);
      var c := ClaimBit(bitmap, index);
      ghost var d1 := disk;
      ToggledIs(l, d0, d1, Blocks, g, index, true);
      TakenBy(l, d0, d1, d1, d1, d1, g, index, fb, fi, Half(d1, l.DescBlock(g), l.DescAt(g) + CountField(Blocks)) - 1, owner);
      var a, v, d2 := Account(Blocks, g, -1);
      ghost var d3 := disk;
      var number := l.GroupFirst(g) + index;
      disk := disk[number := Zeroes(l.blockSize)];
      TakenBy(l, d0, d1, d2, d3, disk, g, index, fb, fi, v, owner);
      return Ok(number);
    }

    /** Looks for a clear bit in one group; a group past the last real one has nothing to find. */
    method ScanGroup(group: nat) returns (r: Result<Option<(nat, nat)>>)
      requires l.Ok() && l.Shaped(disk) && l.Described(disk) && l.GroupFirst(group) <= l.blocksCount
      ensures r.Err? ==> group >= l.Groups()
      ensures r.Ok? && r.value.Some? ==>
                group < l.Groups() && r.value.value.0 == l.Map(Blocks, group)
                && r.value.value.1 < l.Limit(Blocks, group) && !Marked(disk, r.value.value.0, r.value.value.1)
      ensures r.Ok? && r.value.None? && group < l.Groups() ==> AllMarked(l, disk, group)
    {
      var n := l.DescBlock(group);
      ScanFacts(l, disk, group);
      if n >= l.blocksCount {
        return Err(Corrupt);
      }
      var bitmap := Get32(disk[n], l.DescAt(group));
      var limit := Min(l.blocksPerGroup, l.blocksCount - l.GroupFirst(group));
      var found := FirstFreeBit(bitmap, limit);
      if found.Err? {
        return Err(Corrupt);
      }
      return Ok(if found.value.Some? then Some((bitmap, found.value.value)) else None);
    }

    /** Allocates one block, zeroed. It fails only when no block is free, and then writes nothing. */
    method AllocBlock() returns (r: Result<u32>)
      requires Valid()
      modifies this`disk, this`freeBlocks, this`freeInodes
      ensures r.Ok? ==> Booked(l, disk, freeBlocks, freeInodes) && Grabbed(l, old(disk), disk, r.value)
                        && freeBlocks == old(freeBlocks) - 1 && freeInodes == old(freeInodes)
      ensures r.Err? ==> disk == old(disk) && freeBlocks == old(freeBlocks) && freeInodes == old(freeInodes)
                         && Exhausted(l, disk)
    {
      hide *;
      Opened();
      BookedFacts(l, disk, freeBlocks, freeInodes);
      var groups := (l.blocksCount + l.blocksPerGroup - 1) / l.blocksPerGroup;
      var group := 0;
      while group < groups
        invariant disk == old(disk) && freeBlocks == old(freeBlocks) && freeInodes == old(freeInodes)
        invariant forall g :: 0 <= g < group && g < l.Groups() ==> AllMarked(l, disk, g)
      {
        GroupEnd(l, group);
        var found := ScanGroup(group);
        if found.Err? {
          PastEnd(l, disk, group);
          return Err(found.error);
        }
        if found.value.Some? {
          r := TakeBlock(group, found.value.value.1, found.value.value.0);
          return;
        }
        group := group + 1;
      }
      GroupEnd(l, group);
      PastEnd(l, disk, group);
      return Err(Full);
    }

    // ----- reading -----

    /** `inode` is the one live copy of a file on this volume. */
    ghost predicate Live(inode: Inode)
      reads this
    {
      inode.number in ino && ino[inode.number] == inode
    }

    lemma NowLive(inode: Inode)
      requires inode.number in ino && ino[inode.number] == inode
      ensures Live(inode)
    {}

    /** Nothing having changed, nothing about a live inode has. */
    lemma StillLive(inode: Inode)
      requires l.Ok() && inode.number in ino && ino[inode.number] == inode && |inode.blocks| == 15
      ensures Live(inode) && ino[inode.number := inode] == ino
      ensures SameTables(l, disk, disk) && SameContents(l, disk, disk, ino, ino) && SameIdentity(inode, inode)
    {}

    lemma LiveFacts(inode: Inode)
      requires Valid() && Live(inode)
      ensures l.Ok() && l.Geometry() && l.Shaped(disk) && Tree(l, disk, ino, owner) && |inode.blocks| == 15
      ensures inode.number in ino && ino[inode.number] == inode && l.blockSize / 4 > 0 && l.blockSize > 0
      ensures forall index: nat :: PathOf(l, index) != [] ==> ValidPath(l, PathOf(l, index))
    {
      ResolveFacts(l, disk, freeBlocks, freeInodes, ino, owner, inode);
    }

    /** Walks one indirect level at a time. */
    method Resolve(inode: Inode, index: nat) returns (r: Result<Option<nat>>)
      requires Valid() && Live(inode)
      ensures var p := PathOf(l, index);
              r == if p == [] then Err(Corrupt)
                   else Ok(if PtrAt(disk, inode.blocks, p) == 0 then None else Some(PtrAt(disk, inode.blocks, p)))
    {
      hide *;
      LiveFacts(inode);
      PathOfCases(l, index);
      var per := l.blockSize / 4;
      var top, depth, within;
      if index < 12 {
        top, depth, within := index, 0, 0;
      } else if index < 12 + per {
        top, depth, within := 12, 1, index - 12;
      } else if index < 12 + per + per * per {
        top, depth, within := 13, 2, index - 12 - per;
      } else {
        if index >= 12 + per + per * per + per * per * per {
          return Err(Corrupt);
        }
        top, depth, within := 14, 3, index - 12 - per - per * per;
      }
      r := Descend(inode, top, depth, within, PathOf(l, index));
    }

    method Descend(inode: Inode, top: nat, depth: nat, from: nat, ghost p: Path) returns (r: Result<Option<nat>>)
      requires l.Shaped(disk) && Tree(l, disk, ino, owner) && |inode.blocks| == 15
      requires inode.number in ino && ino[inode.number] == inode
      requires l.blockSize / 4 > 0 && top < 15 && p == [top] + Digits(l.blockSize / 4, depth, from) && ValidPath(l, p)
      ensures r == Ok(if PtrAt(disk, inode.blocks, p) == 0 then None else Some(PtrAt(disk, inode.blocks, p)))
    {
      hide *;
      var per := l.blockSize / 4;
      var slot, level: nat, within := inode.blocks[top], depth, from;
      DescendStart(disk, inode.blocks, p, top);
      assert p[1..] == Digits(per, depth, from);
      while level > 0
        invariant level <= depth && |p| == depth + 1 && 0 <= within && p[depth - level + 1..] == Digits(per, level, within)
        invariant slot == PtrAt(disk, inode.blocks, p[..depth - level + 1])
      {
        ghost var k := depth - level + 1;
        if slot == 0 {
          HoleBelow(disk, inode.blocks, p, k);
          return Ok(None);
        }
        DescendStep(l, disk, ino, owner, inode, p, k, level, within);
        level := level - 1;
        var stride := Power(per, level);
        var entry := within / stride;
        within := within % stride;
        slot := Get32(disk[slot], 4 * entry);
      }
      assert p[..depth + 1] == p;
      return Ok(if slot == 0 then None else Some(slot));
    }

    /** Reads file contents: holes as zeroes, and short only at the end of the file. */
    method ReadAt(inode: Inode, offset: nat, out: array<byte>) returns (r: Result<nat>)
      requires Valid() && Live(inode)
      modifies out
      ensures r.Ok? ==> r.value == if offset >= inode.size then 0 else Min(out.Length, inode.size - offset)
      ensures r.Ok? ==> forall i :: 0 <= i < out.Length ==>
                out[i] == if i < r.value then FileByte(l, disk, inode, offset + i) else old(out[i])
      ensures r.Err? ==> exists at: nat :: offset <= at < inode.size && PathAt(l, at) == []
    {
      hide *;
      LiveFacts(inode);
      if offset >= inode.size {
        return Ok(0);
      }
      MinIs(out.Length, inode.size - offset);
      var want := Min(out.Length, inode.size - offset);
      var done := 0;
      while done < want
        invariant done <= want <= out.Length && offset + want <= inode.size
        invariant forall i :: 0 <= i < done ==> out[i] == FileByte(l, disk, inode, offset + i)
        invariant forall i :: done <= i < out.Length ==> out[i] == old(out[i])
      {
        var at := offset + done;
        var index, within := at / l.blockSize, at % l.blockSize;
        var take := if l.blockSize - within <= want - done then l.blockSize - within else want - done;
        var found := Resolve(inode, index);
        if found.Err? {
          assert PathAt(l, at) == [] by { PathAtIs(l, at); }
          return Err(found.error);
        }
        ReadFacts(l, disk, ino, owner, inode, at);
        if found.value.None? {
          forall i | 0 <= i < take {
            out[done + i] := 0;
          }
        } else {
          var block := disk[found.value.value];
          forall i | 0 <= i < take {
            out[done + i] := block[within + i];
          }
        }
        forall i | done <= i < done + take ensures out[i] == FileByte(l, disk, inode, offset + i) {
          ByteOf(l, disk, inode, at, i - done);
        }
        done := done + take;
      }
      return Ok(done);
    }

    // ----- writing -----

    /** Takes a block for one of the first thirteen slots of `inode`, which is empty. */
    method FillSlot(inode: Inode, slot: nat) returns (r: Result<u32>, inode': Inode)
      requires Valid() && Live(inode) && slot <= 12 && |inode.blocks| == 15 && inode.blocks[slot] == 0
      modifies this
      ensures Valid() && Live(inode') && ino == old(ino)[inode.number := inode']
      ensures sealed == old(sealed) && (inode.number != 0 ==> Lost(owner) == old(Lost(owner)))
      ensures SameTables(l, old(disk), disk) && SameContents(l, old(disk), disk, old(ino), ino)
      ensures SameIdentity(inode, inode')
      ensures r.Err? ==> inode' == inode && disk == old(disk) && Exhausted(l, disk)
      ensures r.Ok? ==> inode'.blocks == inode.blocks[slot := r.value] && r.value != 0 && Blank(l, disk, r.value)
                        && OnlyPtr(l, old(disk), disk, old(ino), ino, inode.number, [slot], r.value)
    {
      hide *;
      Opened();
      LiveFacts(inode);
      ghost var d, fb, fi := disk, freeBlocks, freeInodes;
      r := AllocBlock();
      if r.Err? {
        StillLive(inode);
        return r, inode;
      }
      GrabbedNonzero(l, d, disk, r.value);
      GrabbedBlank(l, d, disk, r.value);
      inode' := inode.(blocks := inode.blocks[slot := r.value], sectors := inode.sectors + l.blockSize / 512);
      ghost var i := ino[inode.number := inode'];
      FilledSlot(l, d, disk, ino, i, owner, inode, inode', slot, r.value);
      LostTaken(l, Used(l, d), owner, r.value, Claim(inode.number, [slot]));
      ino := i;
      owner := owner[r.value := Claim(inode.number, [slot])];
      Closed();
      NowLive(inode');
      return r, inode';
    }

    /** Takes a block for entry `k` of the indirect block of `inode`, which is empty. */
    method FillEntry(inode: Inode, k: nat) returns (r: Result<u32>, inode': Inode)
      requires Valid() && Live(inode) && |inode.blocks| == 15 && inode.blocks[12] != 0
      requires k < l.blockSize / 4 && PtrAt(disk, inode.blocks, [12, k]) == 0
      modifies this
      ensures Valid() && Live(inode') && ino == old(ino)[inode.number := inode']
      ensures sealed == old(sealed) && (inode.number != 0 ==> Lost(owner) == old(Lost(owner)))
      ensures SameTables(l, old(disk), disk) && SameContents(l, old(disk), disk, old(ino), ino)
      ensures SameIdentity(inode, inode')
      ensures r.Err? ==> inode' == inode && disk == old(disk) && Exhausted(l, disk)
      ensures r.Ok? ==> inode'.blocks == inode.blocks && r.value != 0 && Blank(l, disk, r.value)
                        && OnlyPtr(l, old(disk), disk, old(ino), ino, inode.number, [12, k], r.value)
    {
      hide *;
      Opened();
      LiveFacts(inode);
      ghost var d := disk;
      r := AllocBlock();
      if r.Err? {
        StillLive(inode);
        return r, inode;
      }
      GrabbedNonzero(l, d, disk, r.value);
      inode' := inode.(sectors := inode.sectors + l.blockSize / 512);
      ghost var d1, i := disk, ino[inode.number := inode'];
      var n := inode.blocks[12];
      IndirectFacts(l, d, disk, freeBlocks, freeInodes, ino, owner, inode);
      disk := disk[n := Put32(disk[n], 4 * k, r.value)];
      FilledEntry(l, d, d1, disk, freeBlocks, freeInodes, ino, i, owner, inode, inode', k, r.value);
      StillBlank(l, d, d1, disk, n, r.value, ino, owner, inode);
      LostTaken(l, Used(l, d), owner, r.value, Claim(inode.number, [12, k]));
      ino := i;
      owner := owner[r.value := Claim(inode.number, [12, k])];
      Closed();
      NowLive(inode');
      return r, inode';
    }

    /** Resolves a block reached through an indirect block that is there, filling the hole if there is one. */
    method ResolveIndirect(inode: Inode, index: nat) returns (r: Result<u32>, inode': Inode)
      requires Valid() && Live(inode) && 12 <= index < 12 + l.blockSize / 4
      requires |inode.blocks| == 15 && inode.blocks[12] != 0
      modifies this
      ensures Valid() && Live(inode') && ino == old(ino)[inode.number := inode']
      ensures sealed == old(sealed) && (inode.number != 0 ==> Lost(owner) == old(Lost(owner)))
      ensures SameTables(l, old(disk), disk) && SameContents(l, old(disk), disk, old(ino), ino)
      ensures SameIdentity(inode, inode')
      ensures r.Ok? ==> Resolved(l, old(disk), disk, inode, inode', index, r.value)
      ensures r.Ok? ==> FoundOrBlank(l, old(disk), disk, inode, inode', index, r.value)
      ensures r.Err? ==> Exhausted(l, disk)
      ensures PtrAt(old(disk), inode.blocks, PathOf(l, index)) != 0 ==> r.Ok?
      ensures PointersKept(l, old(disk), disk, old(ino), ino, inode.number, index)
    {
      hide *;
      LiveFacts(inode);
      ghost var d, i := disk, ino;
      StillLive(inode);
      AllSame(l, disk, ino, inode.number, index);
      PathOfIndirect(l, index - 12);
      EntryFacts(l, disk, ino, owner, inode, index - 12);
      var existing := Get32(disk[inode.blocks[12]], 4 * (index - 12));
      if existing != 0 {
        ResolvedIs(l, disk, disk, inode, inode, index, existing);
        FoundIs(l, disk, inode, index, existing);
        return Ok(existing), inode;
      }
      r, inode' := FillEntry(inode, index - 12);
      if r.Ok? {
        LeafSet(l, d, disk, i, ino, inode, inode', [12, index - 12], r.value, index);
        BlankIs(l, d, disk, inode, inode', index, r.value);
      }
    }

    /** Resolves a file block, filling the hole if there is one. */
    method ResolveOrAlloc(inode: Inode, index: nat) returns (r: Result<u32>, inode': Inode)
      requires Valid() && Live(inode)
      modifies this
      ensures Valid() && Live(inode') && ino == old(ino)[inode.number := inode']
      ensures sealed == old(sealed) && (inode.number != 0 ==> Lost(owner) == old(Lost(owner)))
      ensures SameTables(l, old(disk), disk) && SameContents(l, old(disk), disk, old(ino), ino)
      ensures SameIdentity(inode, inode') && SameIndirect(inode, inode', index)
      ensures index >= 12 + l.blockSize / 4 ==> r == Err(TooLarge)
      ensures r.Err? ==> index >= 12 + l.blockSize / 4 || Exhausted(l, disk)
      ensures index < 12 + l.blockSize / 4 && PtrAt(old(disk), inode.blocks, PathOf(l, index)) != 0 ==> r.Ok?
      ensures r.Ok? ==> Resolved(l, old(disk), disk, inode, inode', index, r.value)
                        && FoundOrBlank(l, old(disk), disk, inode, inode', index, r.value)
      ensures PointersKept(l, old(disk), disk, old(ino), ino, inode.number, index)
    {
      hide *;
      LiveFacts(inode);
      ghost var d, i := disk, ino;
      StillLive(inode);
      AllSame(l, disk, ino, inode.number, index);
      if index < 12 {
        PathOfDirect(l, disk, inode.blocks, index);
        SameIndirectIs(inode, inode, index);
        if inode.blocks[index] == 0 {
          r, inode' := FillSlot(inode, index);
          if r.Ok? {
            LeafSet(l, d, disk, i, ino, inode, inode', [index], r.value, index);
            BlankIs(l, d, disk, inode, inode', index, r.value);
            SameNumber(inode, inode');
          }
          SameIndirectIs(inode, inode', index);
          return;
        }
        ResolvedIs(l, disk, disk, inode, inode, index, inode.blocks[index]);
        FoundIs(l, disk, inode, index, inode.blocks[index]);
        return Ok(inode.blocks[index]), inode;
      }
      SameIndirectIs(inode, inode, index);
      if index >= 12 + l.blockSize / 4 {
        return Err(TooLarge), inode;
      }
      inode' := inode;
      AllSame(l, disk, ino, inode.number, -1);
      if inode.blocks[12] == 0 {
        NoEntry(d, inode.blocks, index - 12);
        PathOfIndirect(l, index - 12);
        r, inode' := FillSlot(inode, 12);
        if r.Err? {
          SameIndirectIs(inode, inode', index);
          return;
        }
        ElsewhereSet(l, d, disk, i, ino, inode.number, r.value, index);
        KeptAt(l, d, disk, i, ino, inode, inode', index);
      }
      ghost var d1, i1, inode1 := disk, ino, inode';
      r, inode' := ResolveIndirect(inode', index);
      Compose(l, d, d1, disk, i, i1, ino, inode, inode1, inode', index);
      SameIndirectIs(inode, inode', index);
      if r.Ok? && inode.blocks[12] == 0 {
        BlankAgain(l, d, d1, disk, inode, inode1, inode', index, r.value);
      }
    }

    /**
     Between calls: the volume is sound, every inode is marked in use and on the medium as it
     is, no block lies past a file's end, every directory is tidy, every name stands for an
     inode there is, and every named file has as many links as names.
     */
    ghost predicate Mounted()
      reads this
    {
      Steady() && LinksTrue()
    }

    ghost predicate Steady()
      reads this
    {
      Synced(l, disk, ino, 0) && Settled()
    }

    ghost predicate LinksTrue()
      reads this
    {
      Referenced(Dirs(l, disk, ino), ino + sealed)
    }

    ghost predicate Settled()
      reads this
    {
      && Valid() && 0 !in ino && AllTrimmed(l, disk, ino, 0) && Listed(l, disk, ino) && AllTidy(l, disk, ino)
      && Sealed(l, disk, ino, sealed)
    }

    lemma SettledFacts()
      requires Settled()
      ensures Valid() && 0 !in ino && AllTrimmed(l, disk, ino, 0) && Listed(l, disk, ino) && AllTidy(l, disk, ino)
      ensures Sealed(l, disk, ino, sealed) && 0 !in sealed && sealed.Keys !! ino.Keys
    {}

    lemma SteadyFacts()
      requires Steady()
      ensures Settled() && Synced(l, disk, ino, 0)
    {}

    lemma MountedFacts()
      requires Mounted()
      ensures Steady() && LinksTrue() && Referenced(Dirs(l, disk, ino), ino + sealed)
    {}

    lemma LinksFacts()
      ensures LinksTrue() <==> Referenced(Dirs(l, disk, ino), ino + sealed)
    {}

    lemma MountedIs()
      requires Steady() && Referenced(Dirs(l, disk, ino), ino + sealed)
      ensures Mounted() && LinksTrue()
    {}

    lemma SteadyIs()
      requires Valid() && 0 !in ino && Synced(l, disk, ino, 0) && AllTrimmed(l, disk, ino, 0)
      requires Listed(l, disk, ino) && AllTidy(l, disk, ino) && Sealed(l, disk, ino, sealed)
      ensures Steady()
    {}

    lemma SettledIs()
      requires Valid() && 0 !in ino && AllTrimmed(l, disk, ino, 0) && Listed(l, disk, ino) && AllTidy(l, disk, ino)
      requires Sealed(l, disk, ino, sealed)
      ensures Settled()
    {}

    /** A live inode of a mounted volume is in step with a slot of its kind. */
    lemma InStep(inode: Inode)
      requires Steady() && Live(inode)
      ensures Settled() && Synced(l, disk, ino, inode.number) && Slotted(l, disk, inode)
    {
      LiveSlotted(l, disk, freeBlocks, freeInodes, ino, owner, inode);
    }

    /** Writes `inode` back to its slot, and touches no other. */
    method FlushInode(inode: Inode) returns (r: Result<()>)
      requires Valid() && Slotted(l, disk, inode)
      modifies this`disk
      ensures r.Ok? && Valid() && SyncedAt(l, disk, inode, inode.number) && SlotsKept(l, old(disk), disk, inode.number)
      ensures SameContents(l, old(disk), disk, ino, ino) && PointersKept(l, old(disk), disk, ino, ino, 0, -1)
      ensures SameInodeMaps(l, old(disk), disk)
    {
      hide *;
      Opened();
      ghost var d := disk;
      FlushFacts(l, d, freeBlocks, freeInodes, inode);
      var index := inode.number - 1;
      var group, within := index / l.inodesPerGroup, index % l.inodesPerGroup;
      var table := Get32(disk[l.DescBlock(group)], l.DescAt(group) + 8);
      var block := table + within / l.InodesPerBlock();
      var offset := within % l.InodesPerBlock() * l.inodeSize;
      disk := disk[block := Patched(disk[block], offset, inode)];
      FlushedInode(l, d, disk, freeBlocks, freeInodes, ino, owner, inode);
      Closed();
      return Ok(());
    }

    /** Writes the part of a write that falls in one block: read, modify, write back. */
    method WriteChunk(inode: Inode, at: nat, chunk: seq<byte>) returns (r: Result<()>, inode': Inode)
      requires Valid() && Live(inode) && l.blockSize > 0 && at % l.blockSize + |chunk| <= l.blockSize
      modifies this
      ensures Valid() && Live(inode') && ino == old(ino)[inode.number := inode']
      ensures sealed == old(sealed) && (inode.number != 0 ==> Lost(owner) == old(Lost(owner)))
      ensures SameTables(l, old(disk), disk)
      ensures SameIdentity(inode, inode') && SameIndirect(inode, inode', at / l.blockSize)
      ensures r.Err? ==> SameContents(l, old(disk), disk, old(ino), ino)
      ensures r.Err? ==> at / l.blockSize >= 12 + l.blockSize / 4 || Exhausted(l, disk)
      ensures r.Ok? ==> Wrote(l, old(disk), disk, old(ino), ino, inode.number, at, chunk)
      ensures PointersKept(l, old(disk), disk, old(ino), ino, inode.number, at / l.blockSize)
      ensures r.Ok? ==> at + |chunk| < 0x1_0000_0000
    {
      hide *;
      LiveFacts(inode);
      ghost var d, i := disk, ino;
      var index, within := at / l.blockSize, at % l.blockSize;
      var found, changed := ResolveOrAlloc(inode, index);
      inode' := changed;
      if found.Err? {
        return Err(found.error), inode';
      }
      ghost var d1 := disk;
      Opened();
      LiveFacts(inode');
      SameNumber(inode, inode');
      ChunkFacts(l, d, disk, i, ino, owner, inode, inode', index, found.value, at, |chunk|);
      var number := found.value;
      disk := disk[number := Overwritten(disk[number], within, chunk)];
      ChunkWritten(l, d, d1, disk, freeBlocks, freeInodes, i, ino, owner, inode', index, number, at, chunk);
      Closed();
      NowLive(inode');
      return Ok(()), inode';
    }

    /**
     Writes `bytes` at `offset`. A write that succeeds changes exactly those bytes of that one
     file, grows the file if it reaches past its end, and leaves every inode on the medium.
     */
    method WriteAt(inode: Inode, offset: u64, bytes: seq<byte>) returns (r: Result<nat>, inode': Inode)
      requires Mounted() && Live(inode)
      modifies this
      ensures Valid() && Live(inode') && ino == old(ino)[inode.number := inode']
      ensures sealed == old(sealed) && Lost(owner) == old(Lost(owner))
      ensures inode.kind != Regular ==> r == Err(NotDirectory) && inode' == inode && disk == old(disk) && Mounted()
      ensures r.Err? && inode.kind == Regular ==>
                offset + |bytes| > (12 + l.blockSize / 4) * l.blockSize || Exhausted(l, disk)
      ensures r.Ok? ==> r.value == |bytes| && Mounted()
      ensures r.Ok? ==> Wrote(l, old(disk), disk, old(ino), ino, inode.number, offset, bytes)
      ensures r.Ok? ==> Grown(inode, inode', offset + |bytes|)
      ensures r.Ok? ==> OthersSame(l, old(disk), disk, old(ino), ino, inode.number)
    {
      hide *;
      MountedFacts();
      SteadyFacts();
      SettledFacts();
      LiveFacts(inode);
      StillLive(inode);
      ghost var d, i := disk, ino;
      if inode.kind != Regular {
        return Err(NotDirectory), inode;
      }
      inode' := inode;
      var done := 0;
      assert bytes[..0] == [];
      ProgressStart(l, d, i, inode, offset);
      while done < |bytes|
        invariant 0 <= done <= |bytes| && Valid() && Live(inode')
        invariant Progress(l, d, disk, i, ino, inode, inode', offset, bytes[..done])
        invariant inode'.number == inode.number && sealed == old(sealed) && Lost(owner) == old(Lost(owner))
        invariant done > 0 ==> offset + done < 0x1_0000_0000
      {
        var at := offset + done;
        var within := at % l.blockSize;
        var take := if l.blockSize - within <= |bytes| - done then l.blockSize - within else |bytes| - done;
        ghost var d1, i1, inode1 := disk, ino, inode';
        LiveFacts(inode');
        var w, changed := WriteChunk(inode', at, bytes[done..done + take]);
        inode' := changed;
        SameNumber(inode1, inode');
        if w.Err? {
          ProgressMap(l, d, d1, i, i1, inode, inode1, offset, bytes[..done], ino, inode');
          if at / l.blockSize >= 12 + l.blockSize / 4 {
            ReachesPast(at, l.blockSize, 12 + l.blockSize / 4);
          }
          return Err(w.error), inode';
        }
        ProgressStep(l, d, d1, disk, i, i1, ino, inode, inode1, inode', offset, bytes[..done], bytes[done..done + take]);
        assert bytes[..done] + bytes[done..done + take] == bytes[..done + take];
        done := done + take;
      }
      assert bytes[..done] == bytes;
      var end := offset + done;
      ghost var i1, inode1 := ino, inode';
      inode' := inode'.(size := if end > inode'.size then end else inode'.size);
      ProgressMap(l, d, disk, i, i1, inode, inode1, offset, bytes, ino[inode.number := inode'], inode');
      Opened();
      ino := ino[inode.number := inode'];
      WriteEnds(l, d, disk, freeBlocks, freeInodes, i, i1, ino, owner, inode, inode1, inode', offset, bytes);
      Closed();
      NowLive(inode');
      ghost var d2 := disk;
      var flushed := FlushInode(inode');
      SyncedAgain(l, d2, disk, ino, inode');
      AfterFlush(l, d, d2, disk, i, ino, inode, inode', offset, bytes);
      ListedEnds(l, d, d2, disk, i, ino);
      OthersKeptFlushed(l, d, d2, disk, i, ino, inode.number);
      OthersByWrite(l, d, disk, i, ino, inode.number, offset, bytes);
      GrownIs(inode, inode', offset + |bytes|);
      TidyKept(l, d, disk, i, ino, inode.number);
      SealedEnds(l, d, d2, disk, i, ino, sealed, inode.number);
      SteadyIs();
      LinksKept(l, d, disk, i, ino, sealed, inode');
      MountedIs();
      NowLive(inode');
      return Ok(done), inode';
    }

    // ----- shortening -----

    /** Gives a block back. The books stay true exactly when the block was in use, which is not looked at. */
    method FreeBlock(number: nat) returns (r: Result<()>)
      requires Booked(l, disk, freeBlocks, freeInodes)
      modifies this`disk, this`freeBlocks, this`freeInodes
      ensures r.Ok? ==> l.firstDataBlock <= number < l.blocksCount
      ensures l.firstDataBlock <= number < l.blocksCount && number in Used(l, old(disk)) ==> r.Ok?
      ensures !(l.firstDataBlock <= number < l.blocksCount) ==>
                disk == old(disk) && freeBlocks == old(freeBlocks) && freeInodes == old(freeInodes)
      ensures r.Ok? ==> freeBlocks == old(freeBlocks) + 1 && freeInodes == old(freeInodes)
      ensures r.Ok? ==> (Booked(l, disk, freeBlocks, freeInodes) <==> number in Used(l, old(disk)))
      ensures r.Ok? && number in Used(l, old(disk)) ==> Dropped(l, old(disk), disk, number)
      ensures r.Ok? && number !in Used(l, old(disk)) ==> Used(l, disk) == Used(l, old(disk))
    {
      hide *;
      if number < l.firstDataBlock || number >= l.blocksCount {
        return Err(Corrupt);
      }
      ghost var d0, fb, fi := disk, freeBlocks, freeInodes;
      FreeFacts(l, d0, fb, fi, number);
      var group := (number - l.firstDataBlock) / l.blocksPerGroup;
      var index := (number - l.firstDataBlock) % l.blocksPerGroup;
      var bitmap := Get32(disk[l.DescBlock(group)], l.DescAt(group));
      var c := ReleaseBit(bitmap, index);
      ghost var d1 := disk;
      ToggledIs(l, d0, d1, Blocks, group, index, false);
      if number in Used(l, d0) {
        FreedBy(l, d0, d1, d1, d1, number, group, index, fb, fi, Half(d1, l.DescBlock(group), l.DescAt(group) + CountField(Blocks)) + 1);
      }
      var a, v, d2 := Account(Blocks, group, 1);
      if a.Err? {
        return a;
      }
      if number in Used(l, d0) {
        FreedBy(l, d0, d1, d2, disk, number, group, index, fb, fi, v);
      } else {
        FreedUnused(l, d0, d1, d2, disk, number, group, index, fb, fi, v);
      }
      return Ok(());
    }

    /** Gives back the block in one of the first thirteen slots of `inode`. */
    method DropSlot(inode: Inode, slot: nat) returns (inode': Inode)
      requires Valid() && Live(inode) && slot <= 12 && |inode.blocks| == 15 && inode.blocks[slot] != 0
      requires slot == 12 ==> Emptied(l, disk, inode.blocks)
      modifies this
      ensures Valid() && Live(inode') && ino == old(ino)[inode.number := inode']
      ensures sealed == old(sealed) && (inode.number != 0 ==> Lost(owner) == old(Lost(owner)))
      ensures SameTables(l, old(disk), disk) && SameIdentity(inode, inode') && inode'.blocks == inode.blocks[slot := 0]
      ensures OnlyPtr(l, old(disk), disk, old(ino), ino, inode.number, [slot], 0)
      ensures Holed(l, old(disk), disk, old(ino), ino, inode.number, [slot])
    {
      hide *;
      Opened();
      LiveFacts(inode);
      ghost var d := disk;
      SlotFacts(l, disk, Used(l, disk), ino, owner, inode, slot);
      var number, spb := inode.blocks[slot], l.blockSize / 512;
      var freed := FreeBlock(number);
      LessIs(inode.sectors, spb);
      inode' := inode.(blocks := inode.blocks[slot := 0], sectors := Less(inode.sectors, spb));
      ghost var i := ino[inode.number := inode'];
      DroppedSlot(l, d, disk, ino, i, owner, inode, inode', slot);
      LostGiven(l, d, ino, owner, inode.number, [slot]);
      ino := i;
      owner := owner - {number};
      Closed();
      NowLive(inode');
    }

    /** Clears entry `k` of the indirect block of `inode` and gives back the block it named. */
    method DropEntry(inode: Inode, k: nat) returns (inode': Inode)
      requires Valid() && Live(inode) && |inode.blocks| == 15 && inode.blocks[12] != 0
      requires k < l.blockSize / 4 && PtrAt(disk, inode.blocks, [12, k]) != 0
      modifies this
      ensures Valid() && Live(inode') && ino == old(ino)[inode.number := inode']
      ensures sealed == old(sealed) && (inode.number != 0 ==> Lost(owner) == old(Lost(owner)))
      ensures SameTables(l, old(disk), disk) && SameIdentity(inode, inode')
      ensures OnlyPtr(l, old(disk), disk, old(ino), ino, inode.number, [12, k], 0)
      ensures Holed(l, old(disk), disk, old(ino), ino, inode.number, [12, k])
    {
      hide *;
      Opened();
      LiveFacts(inode);
      ghost var d := disk;
      EntryOwned(l, disk, freeBlocks, freeInodes, ino, owner, inode, k);
      var indirect, spb := inode.blocks[12], l.blockSize / 512;
      var number := Get32(disk[indirect], 4 * k);
      disk := disk[indirect := Put32(disk[indirect], 4 * k, 0)];
      ghost var d1 := disk;
      DataWriteBooked(l, d, d1, freeBlocks, freeInodes, indirect);
      var freed := FreeBlock(number);
      LessIs(inode.sectors, spb);
      inode' := inode.(sectors := Less(inode.sectors, spb));
      ghost var i := ino[inode.number := inode'];
      DroppedEntry(l, d, d1, disk, ino, i, owner, inode, inode', k, number);
      LostGiven(l, d, ino, owner, inode.number, [12, k]);
      ino := i;
      owner := owner - {number};
      Closed();
      NowLive(inode');
    }

    /** Drops file block `index`, if there is one. */
    method DropBlock(inode: Inode, index: nat) returns (inode': Inode)
      requires Valid() && Live(inode) && index < 12 + l.blockSize / 4
      modifies this
      ensures Valid() && Live(inode') && ino == old(ino)[inode.number := inode']
      ensures sealed == old(sealed) && (inode.number != 0 ==> Lost(owner) == old(Lost(owner)))
      ensures PathOf(l, index) != []
      ensures PtrAt(old(disk), inode.blocks, PathOf(l, index)) == 0 ==> inode' == inode && disk == old(disk)
      ensures PtrAt(old(disk), inode.blocks, PathOf(l, index)) != 0 ==>
                && SameTables(l, old(disk), disk) && SameIdentity(inode, inode')
                && OnlyPtr(l, old(disk), disk, old(ino), ino, inode.number, PathOf(l, index), 0)
                && Holed(l, old(disk), disk, old(ino), ino, inode.number, PathOf(l, index))
    {
      hide *;
      LiveFacts(inode);
      StillLive(inode);
      if index < 12 {
        PathOfDirect(l, disk, inode.blocks, index);
        if inode.blocks[index] != 0 {
          inode' := DropSlot(inode, index);
          return;
        }
        return inode;
      }
      PathOfIndirect(l, index - 12);
      if inode.blocks[12] == 0 {
        NoEntry(disk, inode.blocks, index - 12);
        return inode;
      }
      EntryFacts(l, disk, ino, owner, inode, index - 12);
      if Get32(disk[inode.blocks[12]], 4 * (index - 12)) == 0 {
        return inode;
      }
      inode' := DropEntry(inode, index - 12);
    }

    /**
     Shortens a file. Exactly the blocks past the new end are given back and read as holes;
     the rest of the last kept block is left as it was, and no other file changes.
     */
    method Truncate(inode: Inode, length: nat) returns (r: Result<()>, inode': Inode)
      requires Settled() && Live(inode) && Synced(l, disk, ino, inode.number) && Slotted(l, disk, inode)
      modifies this
      ensures Valid() && Live(inode') && ino == old(ino)[inode.number := inode']
      ensures sealed == old(sealed) && Lost(owner) == old(Lost(owner))
      ensures inode.kind != Regular ==> r == Err(NotDirectory) && inode' == inode && disk == old(disk)
      ensures inode.kind == Regular && length > inode.size ==> r == Err(TooLarge) && inode' == inode && disk == old(disk)
      ensures r.Err? && inode.kind == Regular ==> r == Err(TooLarge)
      ensures r.Ok? <==> inode.kind == Regular && length <= inode.size &&
                         (BlocksFor(l, length) == BlocksFor(l, inode.size) ||
                          BlocksFor(l, inode.size) <= 12 + l.blockSize / 4)
      ensures r.Ok? ==> Steady() && Shortened(inode, inode', length) && (old(LinksTrue()) ==> Mounted())
      ensures r.Ok? ==> Cut(l, old(disk), disk, old(ino), ino, inode.number, BlocksFor(l, length), BlocksFor(l, inode.size))
      ensures r.Ok? ==> OthersSame(l, old(disk), disk, old(ino), ino, inode.number)
    {
      hide *;
      SettledFacts();
      LinksFacts();
      LiveFacts(inode);
      StillLive(inode);
      ghost var d, i := disk, ino;
      if inode.kind != Regular {
        return Err(NotDirectory), inode;
      }
      if length > inode.size {
        return Err(TooLarge), inode;
      }
      BlocksForIs(l, length);
      BlocksForIs(l, inode.size);
      CeilMono(l, length, inode.size);
      var keep := (length + l.blockSize - 1) / l.blockSize;
      var had := (inode.size + l.blockSize - 1) / l.blockSize;
      var index := keep;
      inode' := inode;
      CuttingStart(l, disk, ino, inode, keep);
      while index < had
        invariant keep <= index <= had && Valid() && Live(inode')
        invariant Cutting(l, d, disk, i, ino, inode, inode', keep, index)
        invariant inode'.number == inode.number && sealed == old(sealed) && Lost(owner) == old(Lost(owner))
        invariant index > keep ==> index <= 12 + l.blockSize / 4
      {
        ghost var d1, i1, inode1 := disk, ino, inode';
        CuttingIs(l, d, disk, i, ino, inode, inode', keep, index);
        if index >= 12 + l.blockSize / 4 {
          return Err(TooLarge), inode';
        }
        LiveFacts(inode');
        StillLive(inode');
        inode' := DropBlock(inode', index);
        if PtrAt(d1, inode1.blocks, PathOf(l, index)) == 0 {
          CuttingSkip(l, d, disk, i, ino, inode, inode', keep, index);
        } else {
          SameNumber(inode1, inode');
          CuttingStep(l, d, d1, disk, i, i1, ino, inode, inode1, inode', keep, index, PathOf(l, index));
        }
        index := index + 1;
      }
      LiveFacts(inode');
      if keep <= 12 && inode'.blocks[12] != 0 {
        CutEmpties(l, d, disk, i, ino, inode, inode', keep, had);
        ghost var d1, i1, inode1 := disk, ino, inode';
        inode' := DropSlot(inode', 12);
        CuttingIndirect(l, d, d1, disk, i, i1, ino, inode, inode1, inode', keep, had);
      }
      ghost var i1, inode1 := ino, inode';
      CuttingIs(l, d, disk, i, ino, inode, inode', keep, had);
      inode' := inode'.(size := length);
      Opened();
      ino := ino[inode.number := inode'];
      CutEnds(l, d, disk, freeBlocks, freeInodes, i, i1, ino, owner, inode, inode1, inode', length);
      Closed();
      NowLive(inode');
      ghost var d2 := disk;
      var flushed := FlushInode(inode');
      SyncedAgain(l, d2, disk, ino, inode');
      CutFlushed(l, d, d2, disk, i, ino, inode.number, keep, had);
      ListedEnds(l, d, d2, disk, i, ino);
      OthersKeptFlushed(l, d, d2, disk, i, ino, inode.number);
      OthersByCut(l, d, disk, i, ino, inode.number, keep, had);
      ShortenedIs(inode, inode', length);
      TidyKept(l, d, disk, i, ino, inode.number);
      SealedEnds(l, d, d2, disk, i, ino, sealed, inode.number);
      SteadyIs();
      if old(LinksTrue()) {
        LinksKept(l, d, disk, i, ino, sealed, inode');
        MountedIs();
      }
      NowLive(inode');
      return Ok(()), inode';
    }

    // ----- directories -----

    /** Reads inode `number` from its slot. */
    method ReadInode(number: nat) returns (r: Result<Inode>)
      requires Booked(l, disk, freeBlocks, freeInodes)
      ensures r == if 0 < number <= l.inodesCount then Ok(SlotInode(l, disk, number)) else Err(Corrupt)
    {
      if number == 0 || number > l.inodesCount {
        return Err(Corrupt);
      }
      LocateFacts(l, disk, freeBlocks, freeInodes, number);
      var index := number - 1;
      var group, within := index / l.inodesPerGroup, index % l.inodesPerGroup;
      var table := Get32(disk[l.DescBlock(group)], l.DescAt(group) + 8);
      var block := table + within / l.InodesPerBlock();
      var offset := within % l.InodesPerBlock() * l.inodeSize;
      return Ok(Parse(number, disk[block], offset));
    }

    /** Finds a name: the inode its first entry points at, as the directory's blocks list them. */
    method LookupIn(directory: Inode, name: Name) returns (r: Result<Inode>)
      requires Valid() && Live(directory)
      ensures |name| > MAX_NAME ==> r == Err(NameTooLong)
      ensures |name| <= MAX_NAME && directory.kind != Directory ==> r == Err(NotDirectory)
      ensures |name| <= MAX_NAME && directory.kind == Directory ==>
                var w := DirWalk(l, disk, directory, 0, BlocksFor(l, directory.size));
                r == match Find(w.0, name) {
                       case Some(n) => if n == 0 then Err(NotFound) else if n <= l.inodesCount then Ok(SlotInode(l, disk, n)) else Err(Corrupt)
                       case None => if w.1 then Err(NotFound) else Err(Corrupt)
                     }
    {
      hide *;
      if |name| > MAX_NAME {
        return Err(NameTooLong);
      }
      if directory.kind != Directory {
        return Err(NotDirectory);
      }
      Opened();
      LiveFacts(directory);
      BlocksForIs(l, directory.size);
      var blocks := (directory.size + l.blockSize - 1) / l.blockSize;
      ghost var all := DirWalk(l, disk, directory, 0, blocks);
      var found: nat := 0;
      var index := 0;
      while index < blocks
        invariant 0 <= index <= blocks && found == 0
        invariant var w := DirWalk(l, disk, directory, index, blocks); Find(all.0, name) == Find(w.0, name) && all.1 == w.1
      {
        DirStep(l, disk, directory, index, blocks, name);
        HoleIs(l, disk, directory, index);
        var at := Resolve(directory, index);
        if at.Err? {
          return Err(at.error);
        }
        if at.value.Some? {
          BlockBytesIs(l, disk, ino, owner, directory, index);
          var v := VisitBlock(disk[at.value.value], name);
          if v.Err? {
            return Err(v.error);
          }
          if v.value.Some? {
            found := v.value.value;
            break;
          }
        }
        index := index + 1;
      }
      DirEnd(l, disk, directory, blocks, name);
      if found == 0 {
        return Err(NotFound);
      }
      r := ReadInode(found);
    }

    /**
     One turn of the search in `link`: a block that is not there is taken first, and then is no
     record; the entry goes into the first record with room, if there is one.
     */
    method TryBlock(directory: Inode, index: nat, e: Entry) returns (r: Result<bool>, directory': Inode)
      requires Steady() && Live(directory) && directory.kind == Directory && 0 < e.inode <= l.inodesCount
      requires e.name != [] && |e.name| <= MAX_NAME && index < BlocksFor(l, directory.size)
      modifies this
      ensures Valid() && Live(directory') && ino == old(ino)[directory.number := directory']
      ensures sealed == old(sealed) && Lost(owner) == old(Lost(owner))
      ensures r.Err? <==> index >= 12 + l.blockSize / 4 || Hole(l, old(disk), directory, index)
      ensures r.Ok? ==> directory' == directory && (r.value <==> Roomy(l, old(disk), directory, Needed(|e.name|), index))
      ensures r.Ok? && !r.value ==> disk == old(disk) && Steady()
      ensures r.Ok? && r.value ==> Entered(l, old(disk), disk, ino, directory, e)
      ensures r.Ok? && r.value && e.name !in NameMap(Listing(l, old(disk), directory)) ==>
                Steady() && (old(LinksTrue()) && Adopts(Dirs(l, old(disk), ino), ino + sealed, e.inode) ==> Mounted())
    {
      hide *;
      SteadyFacts();
      SettledFacts();
      LinksFacts();
      LiveFacts(directory);
      StillLive(directory);
      ghost var d, i := disk, ino;
      TidyFacts(l, d, i, directory);
      HoleIs(l, d, directory, index);
      var found, changed := ResolveOrAlloc(directory, index);
      directory' := changed;
      if found.Err? {
        return Err(found.error), directory';
      }
      var number := found.value;
      Opened();
      LiveFacts(directory');
      LinkFacts(l, d, disk, freeBlocks, freeInodes, i, ino, owner, directory, directory', index, number);
      var block := disk[number];
      var room := RoomIn(block, Needed(|e.name|));
      if room.Err? {
        return Err(room.error), directory';
      }
      ScanSays(l, d, directory, Needed(|e.name|), index, room.value);
      if room.value.None? {
        SteadyIs();
        return Ok(false), directory';
      }
      var at := room.value.value;
      var updated := Inserted(block, at, e);
      InsertedLists(block, at, e);
      disk := disk[number := updated];
      LinkEnds(l, d, disk, freeBlocks, freeInodes, ino, sealed, owner, directory, index, number, updated, e);
      Closed();
      NowLive(directory');
      if e.name !in NameMap(Listing(l, d, directory)) {
        SteadyIs();
        if old(LinksTrue()) && Adopts(Dirs(l, d, i), i + sealed, e.inode) {
          MountedIs();
        }
      }
      return Ok(true), directory';
    }

    /**
     Puts an entry into the slack of a directory's records. It does not look for the name, so
     only a name that was not listed leaves the directory tidy.
     */
    method Link(directory: Inode, name: Name, inode: u32, kind: Kind) returns (r: Result<()>, directory': Inode)
      requires Steady() && Live(directory) && directory.kind == Directory && 0 < inode <= l.inodesCount
      modifies this
      ensures Valid() && Live(directory') && ino == old(ino)[directory.number := directory']
      ensures sealed == old(sealed) && Lost(owner) == old(Lost(owner))
      ensures name == [] || |name| > MAX_NAME ==> r == Err(NameTooLong) && unchanged(this)
      ensures name != [] && |name| <= MAX_NAME ==>
                (r.Ok? <==> Linkable(l, old(disk), directory, Needed(|name|)))
      ensures name != [] && |name| <= MAX_NAME && r.Err? && Whole(l, old(disk), directory) ==>
                r == Err(Full) && disk == old(disk) && ino == old(ino) && Steady() && (old(LinksTrue()) ==> Mounted())
      ensures r.Ok? ==> directory' == directory && Entered(l, old(disk), disk, ino, directory, Entry(inode, kind, name))
      ensures r.Ok? && name !in NameMap(Listing(l, old(disk), directory)) ==>
                Steady() && (old(LinksTrue()) && Adopts(Dirs(l, old(disk), ino), ino + sealed, inode) ==> Mounted())
    {
      hide *;
      SteadyFacts();
      SettledFacts();
      LiveFacts(directory);
      StillLive(directory);
      ghost var d, i := disk, ino;
      directory' := directory;
      if name == [] || |name| > MAX_NAME {
        return Err(NameTooLong), directory';
      }
      BlocksForIs(l, directory.size);
      var needed := Needed(|name|);
      var blocks := (directory.size + l.blockSize - 1) / l.blockSize;
      var index := 0;
      CrowdedNone(l, d, directory, needed);
      WholeIs(l, d, directory);
      while index < blocks
        invariant 0 <= index <= blocks && Steady() && Live(directory') && directory' == directory && disk == d && ino == i
        invariant sealed == old(sealed) && Lost(owner) == old(Lost(owner)) && (old(LinksTrue()) <==> LinksTrue())
        invariant Crowded(l, d, directory, needed, index)
      {
        if NoHoles(l, d, directory, blocks) {
          HoleMet(l, d, directory, index, blocks);
        }
        LinksFacts();
        var tried, changed := TryBlock(directory', index, Entry(inode, kind, name));
        directory' := changed;
        if tried.Err? {
          NoneFound(l, d, directory, needed, index);
          return Err(tried.error), directory';
        }
        if tried.value {
          RoomFound(l, d, directory, needed, index);
          return Ok(()), directory';
        }
        LinksFacts();
        CrowdedMore(l, d, directory, needed, index);
        index := index + 1;
      }
      SteadyFacts();
      SettledFacts();
      NoneFound(l, d, directory, needed, index);
      LinksFacts();
      if LinksTrue() {
        MountedIs();
      }
      return Err(Full), directory';
    }

    // ----- inodes -----

    /** Takes the first clear bit of some group, passing over a group where that bit is reserved. */
    method AllocInode() returns (r: Result<nat>)
      requires Booked(l, disk, freeBlocks, freeInodes)
      modifies this`disk, this`freeBlocks, this`freeInodes
      ensures r.Ok? ==> 0 < r.value <= l.inodesCount && l.firstInode <= r.value && !InodeInUse(l, old(disk), r.value)
      ensures r.Ok? ==> Booked(l, disk, freeBlocks, freeInodes) && InodeBooks(l, old(disk), disk, r.value, true)
                        && freeBlocks == old(freeBlocks) && freeInodes == old(freeInodes) - 1
      ensures r.Err? ==> disk == old(disk) && freeBlocks == old(freeBlocks) && freeInodes == old(freeInodes)
      ensures r.Ok? <==> Takable(l, old(disk))
    {
      hide *;
      ghost var d0, fb, fi := disk, freeBlocks, freeInodes;
      BookedFacts(l, disk, freeBlocks, freeInodes);
      InodeGroups(l);
      var groups := (l.inodesCount + l.inodesPerGroup - 1) / l.inodesPerGroup;
      var group := 0;
      while group < groups
        invariant 0 <= group <= groups && disk == d0 && freeBlocks == fb && freeInodes == fi
        invariant forall g: nat :: g < group ==> Barren(l, disk, g)
      {
        InodeScanFacts(l, d0, fb, fi, group);
        var bitmap := Get32(disk[l.DescBlock(group)], l.DescAt(group) + 4);
        var found := FirstFreeBit(bitmap, l.inodesPerGroup);
        if found.value.None? {
          BarrenIs(l, disk, group, None);
          group := group + 1;
          continue;
        }
        var index := found.value.value;
        ClearNumber(l, disk, group, index);
        NumberIs(l, group, index);
        FirstClearIs(l, disk, group, index);
        var number := group * l.inodesPerGroup + index + 1;
        if number < l.firstInode {
          BarrenIs(l, disk, group, Some(index));
          group := group + 1;
          continue;
        }
        var c := ClaimBit(bitmap, index);
        ghost var d1 := disk;
        ToggledIs(l, d0, d1, Inodes, group, index, true);
        InodeToggled(l, d0, d1, d1, d1, group, index, true, fb, fi, Half(d1, l.DescBlock(group), l.DescAt(group) + CountField(Inodes)) - 1);
        var a, v, d2 := Account(Inodes, group, -1);
        InodeToggled(l, d0, d1, d2, disk, group, index, true, fb, fi, v);
        return Ok(number);
      }
      AllBarren(l, disk);
      return Err(Full);
    }

    /** Gives an inode back. The books stay true exactly when the inode was in use, which is not looked at. */
    method FreeInode(number: nat) returns (r: Result<()>)
      requires Booked(l, disk, freeBlocks, freeInodes)
      modifies this`disk, this`freeBlocks, this`freeInodes
      ensures r.Ok? ==> 0 < number <= l.inodesCount
      ensures InodeInUse(l, old(disk), number) ==> r.Ok?
      ensures !(0 < number <= l.inodesCount) ==>
                disk == old(disk) && freeBlocks == old(freeBlocks) && freeInodes == old(freeInodes)
      ensures r.Ok? ==> freeBlocks == old(freeBlocks) && freeInodes == old(freeInodes) + 1
      ensures r.Ok? ==> (Booked(l, disk, freeBlocks, freeInodes) <==> InodeInUse(l, old(disk), number))
      ensures InodeInUse(l, old(disk), number) ==> InodeBooks(l, old(disk), disk, number, false)
    {
      hide *;
      if number == 0 || number > l.inodesCount {
        NotInUse(l, disk, number);
        return Err(Corrupt);
      }
      ghost var d0, fb, fi := disk, freeBlocks, freeInodes;
      BookedFacts(l, disk, freeBlocks, freeInodes);
      InodePlace(l, number);
      var index := number - 1;
      var group, within := index / l.inodesPerGroup, index % l.inodesPerGroup;
      InodeScanFacts(l, d0, fb, fi, group);
      InUseIs(l, d0, number);
      NumberBack(l, number);
      var bitmap := Get32(disk[l.DescBlock(group)], l.DescAt(group) + 4);
      var c := ReleaseBit(bitmap, within);
      ghost var d1 := disk;
      ToggledIs(l, d0, d1, Inodes, group, within, false);
      if InodeInUse(l, d0, number) {
        InodeToggled(l, d0, d1, d1, d1, group, within, false, fb, fi, Half(d1, l.DescBlock(group), l.DescAt(group) + CountField(Inodes)) + 1);
      }
      var a, v, d2 := Account(Inodes, group, 1);
      if a.Err? {
        return a;
      }
      if InodeInUse(l, d0, number) {
        InodeToggled(l, d0, d1, d2, disk, group, within, false, fb, fi, v);
      } else {
        InodeFreedUnused(l, d0, d1, d2, disk, group, within, fb, fi, v);
      }
      return Ok(());
    }

    /** Writes the slot of a new, empty file over whatever its last owner left there. */
    method StampSlot(number: nat, ghost d: Disk)
      requires Booked(l, disk, freeBlocks, freeInodes) && 0 < number <= l.inodesCount && l.Shaped(d)
      requires InodeBooks(l, d, disk, number, true) && !InodeInUse(l, d, number)
      requires Owned(l, d, Used(l, d), ino, owner) && 0 !in ino && AllTrimmed(l, d, ino, 0) && AllTidy(l, d, ino)
      requires Listed(l, d, ino) && Synced(l, d, ino, 0) && Sealed(l, d, ino, sealed)
      modifies this
      ensures Steady() && number !in old(ino) && ino == old(ino)[number := FreshInode(number)]
      ensures number !in sealed && sealed == old(sealed) && owner == old(owner)
      ensures OthersSame(l, d, disk, old(ino), ino, number)
    {
      hide *;
      BookedFacts(l, disk, freeBlocks, freeInodes);
      NotThere(l, d, ino, number);
      SealedFacts(l, d, ino, sealed);
      NotThere(l, d, sealed, number);
      SealedBooks(l, d, disk, ino, sealed, number, true);
      MarkedOnly(l, d, disk, ino, owner, number, true, 0);
      InodeBooksFacts(l, d, disk, number, true);
      SyncedMore(l, disk, ino, number);
      LocateFacts(l, disk, freeBlocks, freeInodes, number);
      ghost var d1, i := disk, ino;
      var index := number - 1;
      var group, within := index / l.inodesPerGroup, index % l.inodesPerGroup;
      var table := Get32(disk[l.DescBlock(group)], l.DescAt(group) + 8);
      var block := table + within / l.InodesPerBlock();
      var offset := within % l.InodesPerBlock() * l.inodeSize;
      disk := disk[block := FreshSlot(disk[block], offset, l.inodeSize)];
      FreshSynced(l, d1, disk, freeBlocks, freeInodes, number);
      SlotRewritten(l, d1, disk, freeBlocks, freeInodes, ino, owner, number, SlotAt(l, number), l.inodeSize);
      SealedSlots(l, d1, disk, ino, sealed, number);
      SealedFacts(l, disk, ino, sealed);
      MapsKeepMark(l, d1, disk, number);
      Joined(l, disk, freeBlocks, freeInodes, ino, owner, number);
      OthersTwice(l, d, d1, disk, i, i, i, number);
      OthersJoin(l, d, disk, i, FreshInode(number));
      FreshNumber(number);
      ino := ino[number := FreshInode(number)];
      Closed();
      SealedIs(l, disk, ino, sealed);
      SteadyIs();
    }

    /**
     Creates an empty regular file. A success adds exactly that name and that file, and changes
     no other. When the name finds no room the inode stays taken, with no name.
     */
    method Create(directory: Inode, name: Name) returns (r: Result<Inode>, directory': Inode)
      requires Mounted() && Live(directory)
      modifies this
      ensures Valid() && sealed == old(sealed) && Lost(owner) == old(Lost(owner))
      ensures directory.kind != Directory ==> r == Err(NotDirectory) && unchanged(this)
      ensures directory.kind == Directory && |name| <= MAX_NAME && name in NameMap(Listing(l, old(disk), directory)) ==>
                r == Err(Exists) && unchanged(this)
      ensures name == [] || |name| > MAX_NAME ==> r.Err?
      ensures directory.kind == Directory && name !in NameMap(Listing(l, old(disk), directory)) && !Takable(l, old(disk)) ==>
                r.Err? && unchanged(this) && Mounted()
      ensures directory.kind == Directory && name != [] && |name| <= MAX_NAME
                && name !in NameMap(Listing(l, old(disk), directory)) ==>
                (r.Ok? <==> Linkable(l, old(disk), directory, Needed(|name|)) && Takable(l, old(disk)))
      ensures directory.kind == Directory && name !in NameMap(Listing(l, old(disk), directory)) && Takable(l, old(disk))
                && r.Err? && (name == [] || |name| > MAX_NAME || Whole(l, old(disk), directory)) ==>
                && Mounted() && Listing(l, disk, directory) == Listing(l, old(disk), directory)
                && exists n: nat :: n !in old(ino + sealed) && !InodeInUse(l, old(disk), n) && ino == old(ino)[n := FreshInode(n)]
      ensures r.Ok? ==> Mounted() && directory' == directory && name !in NameMap(Listing(l, old(disk), directory))
      ensures r.Ok? ==> r.value == FreshInode(r.value.number) && r.value.number !in old(ino + sealed)
                        && ino == old(ino)[r.value.number := r.value]
      ensures r.Ok? ==> NameMap(Listing(l, disk, directory)) ==
                        NameMap(Listing(l, old(disk), directory))[name := r.value.number]
      ensures r.Ok? ==> Untouched(l, old(disk), disk, old(ino), ino, directory.number, r.value.number)
    {
      hide *;
      MountedFacts();
      SteadyFacts();
      SettledFacts();
      LiveFacts(directory);
      ghost var d, i := disk, ino;
      directory' := directory;
      if directory.kind != Directory {
        return Err(NotDirectory), directory;
      }
      TidyFacts(l, d, i, directory);
      LookupTidy(l, Listing(l, d, directory), name);
      ListingIs(l, d, directory);
      var existing := LookupIn(directory, name);
      if existing.Ok? {
        return Err(Exists), directory;
      }
      Opened();
      var n := AllocInode();
      if n.Err? {
        Closed();
        return Err(n.error), directory;
      }
      var number := n.value;
      StampSlot(number, d);
      ghost var d2, i2 := disk, ino;
      FreshNumber(number);
      LinksJoin(l, d, disk, i, sealed, FreshInode(number));
      MountedIs();
      LinksFacts();
      NowLive(directory);
      if |name| > MAX_NAME {
        LongNameAbsent(l, d, directory, name);
      }
      SameListing(l, d, d2, i, i2, number, directory);
      SameLinkable(l, d, d2, i, i2, number, directory, Needed(|name|));
      SameWhole(l, d, d2, i, i2, number, directory);
      var linked, dir := Link(directory, name, number, Regular);
      directory' := dir;
      if linked.Err? {
        return Err(linked.error), directory';
      }
      EnteredFacts(l, d2, disk, ino, directory, Entry(number, Regular, name));
      CreateEnds(l, d, d2, disk, i, i2, ino, directory, number);
      return Ok(FreshInode(number)), directory';
    }

    /** Stamps the deletion time into a slot nobody reads any more. */
    method SetDtime(number: nat, when: u32)
      requires Settled() && Synced(l, disk, ino, number) && 0 < number <= l.inodesCount && number !in sealed
      modifies this`disk
      ensures Settled() && Synced(l, disk, ino, number) && OthersSame(l, old(disk), disk, ino, ino, number)
      ensures SameInodeMaps(l, old(disk), disk)
    {
      hide *;
      SettledFacts();
      Opened();
      LocateFacts(l, disk, freeBlocks, freeInodes, number);
      ghost var d := disk;
      var index := number - 1;
      var group, within := index / l.inodesPerGroup, index % l.inodesPerGroup;
      var table := Get32(disk[l.DescBlock(group)], l.DescAt(group) + 8);
      var block := table + within / l.InodesPerBlock();
      var offset := within % l.InodesPerBlock() * l.inodeSize;
      disk := disk[block := Put32(disk[block], offset + 20, when)];
      SlotRewritten(l, d, disk, freeBlocks, freeInodes, ino, owner, number, offset + 20, 4);
      SealedSlots(l, d, disk, ino, sealed, number);
      Closed();
      SettledIs();
    }

    /** Writes an inode back and keeps everything a mounted volume keeps. */
    method Flush(inode: Inode)
      requires Settled() && Synced(l, disk, ino, inode.number) && Slotted(l, disk, inode)
      requires inode.number !in sealed && (inode.number in ino ==> ino[inode.number] == inode)
      modifies this`disk
      ensures Steady() && OthersSame(l, old(disk), disk, ino, ino, inode.number) && SameInodeMaps(l, old(disk), disk)
      ensures SyncedAt(l, disk, inode, inode.number)
    {
      hide *;
      SettledFacts();
      Opened();
      BookedFacts(l, disk, freeBlocks, freeInodes);
      ghost var d := disk;
      var flushed := FlushInode(inode);
      SyncedAgain(l, d, disk, ino, inode);
      FilesKept(l, d, disk, ino, inode.number);
      ListedFrame(l, d, disk, ino, ino);
      SealedSlots(l, d, disk, ino, sealed, inode.number);
      SteadyIs();
    }

    /** The end of an inode: written back, stamped and given back. Blocks it still holds are lost. */
    method Bury(inode: Inode, deletedAt: u32)
      requires Settled() && Synced(l, disk, ino, inode.number) && Slotted(l, disk, inode) && InodeInUse(l, disk, inode.number)
      requires inode.number !in sealed && (inode.number in ino ==> ino[inode.number] == inode)
      modifies this
      ensures Steady() && ino == old(ino) - {inode.number} && sealed == old(sealed)
      ensures !InodeInUse(l, disk, inode.number) && OthersSame(l, old(disk), disk, old(ino), ino, inode.number)
      ensures Lost(owner) == old(Lost(owner)) + Held(old(owner), inode.number)
    {
      hide *;
      ghost var d := disk;
      var number := inode.number;
      Flush(inode);
      ghost var d1 := disk;
      SteadyFacts();
      SettledFacts();
      Opened();
      BookedFacts(l, disk, freeBlocks, freeInodes);
      MapsKeepMark(l, d, disk, number);
      SyncedMore(l, disk, ino, number);
      SetDtime(number, deletedAt);
      ghost var d2 := disk;
      SettledFacts();
      Opened();
      BookedFacts(l, disk, freeBlocks, freeInodes);
      MapsKeepMark(l, d1, disk, number);
      var freed := FreeInode(number);
      MarkedOnly(l, d2, disk, ino, owner, number, false, number);
      SealedBooks(l, d2, disk, ino, sealed, number, false);
      InodeBooksFacts(l, d2, disk, number, false);
      InodeGone(l, disk, ino, owner, number);
      BuriedOthers(l, d, d1, d2, disk, ino, number);
      SealedFewer(l, disk, ino, sealed, number);
      ino, owner := ino - {number}, Abandoned(owner, number);
      Closed();
      SteadyIs();
    }

    /**
     The inode's part of `unlink`: one link fewer, and with the last one the file itself goes.
     A regular file is emptied first; anything else leaves the blocks it holds marked.
     */
    method DropLink(number: nat, deletedAt: u32) returns (r: Result<()>)
      requires Steady() && number in ino + sealed && (ino + sealed)[number].kind != Directory
      modifies this
      ensures Valid()
      ensures var t := old(ino + sealed)[number];
              r.Ok? <==> t.links > 1 || t.kind != Regular || BlocksFor(l, t.size) <= 12 + l.blockSize / 4
      ensures r.Err? ==> r == Err(TooLarge)
      ensures r.Ok? ==> Steady() && ino == FewerIn(old(ino), number) && sealed == FewerIn(old(sealed), number)
      ensures r.Ok? && old(ino + sealed)[number].links <= 1 ==> !InodeInUse(l, disk, number)
      ensures r.Ok? ==> OthersSame(l, old(disk), disk, old(ino), ino, number)
      ensures Lost(owner) == old(Lost(owner)) +
                if Leaves(old(ino + sealed)[number]) then Held(old(owner), number) else {}
    {
      hide *;
      SteadyFacts();
      SettledFacts();
      Opened();
      ghost var d, i, s := disk, ino, sealed;
      SealedFacts(l, d, i, s);
      AllReads(l, d, i, s, number);
      var read := ReadInode(number);
      var target := read.value;
      ghost var t := target;
      LessOne(target.links);
      target := target.(links := Less(target.links, 1));
      LeavesIs(t);
      if number in ino {
        NewLinks(l, d, freeBlocks, freeInodes, i, i[number := target], owner, number, target);
        ino := ino[number := target];
        SealedKeys(l, d, i, ino, s);
      } else {
        Unsealed(l, d, i, s, number, target);
        sealed := sealed - {number};
      }
      Closed();
      SettledIs();
      FewerInIs(i, number);
      FewerInIs(s, number);
      if target.links > 0 {
        Flush(target);
        SteadyFacts();
        SettledFacts();
        if number in i {
          FewerLinks(l, d, disk, i, ino, number, target);
        } else {
          Opened();
          BookedFacts(l, disk, freeBlocks, freeInodes);
          MapsKeepMark(l, d, disk, number);
          Resealed(l, disk, i, sealed, target);
          sealed := sealed[number := target];
          Closed();
          SteadyIs();
        }
        return Ok(());
      }
      ghost var i1, d1 := ino, disk;
      if target.kind == Regular {
        NowLive(target);
        var cut, emptied := Truncate(target, 0);
        ZeroBlocks(l);
        if cut.Err? {
          return Err(cut.error);
        }
        ShortenedIs(target, emptied, 0);
        OthersTwice(l, d, d1, disk, i, i1, ino, number);
        i1, d1 := ino, disk;
        InStep(emptied);
        SettledFacts();
        MarkOf(l, disk, ino, number);
        NothingLeft(emptied);
        target := emptied;
      }
      Bury(target, deletedAt);
      SteadyFacts();
      SettledFacts();
      GoneOthers(l, d, d1, disk, i, i1, ino, number);
      return Ok(());
    }

    /** An emptied file holds nothing. */
    lemma NothingLeft(inode: Inode)
      requires Settled() && Live(inode) && inode.size == 0
      ensures Held(owner, inode.number) == {}
    {
      EmptiedSlots(l, disk, ino, inode.number);
      EmptyHolds(l, disk, Used(l, disk), ino, owner, inode.number);
    }

    /**
     Removes a name. The record before it absorbs the record, so the listing loses exactly
     that name; the file it named has one link fewer, or is gone with its last one. Blocks are
     lost only with the last name of something that is neither a regular file nor a directory.
     */
    method Unlink(directory: Inode, name: Name, deletedAt: u32) returns (r: Result<()>)
      requires Mounted() && Live(directory)
      modifies this
      ensures Valid()
      ensures deletedAt == 0 ==> r == Err(Corrupt)
      ensures deletedAt != 0 && directory.kind != Directory ==> r == Err(NotDirectory)
      ensures deletedAt != 0 && directory.kind == Directory && (name == [] || |name| > MAX_NAME) ==>
                r == Err(NameTooLong)
      ensures deletedAt != 0 && directory.kind == Directory && name != [] && |name| <= MAX_NAME ==>
                var n := Named(Listing(l, old(disk), directory), name);
                && (n == 0 ==> r == Err(NotFound))
                && (n != 0 ==> n in old(ino + sealed))
                && (n != 0 && old(ino + sealed)[n].kind == Directory ==> r == Err(NotDirectory))
                && (n != 0 && old(ino + sealed)[n].kind != Directory ==>
                      var t := old(ino + sealed)[n];
                      r.Ok? <==> t.links > 1 || t.kind != Regular || BlocksFor(l, t.size) <= 12 + l.blockSize / 4)
      ensures r.Ok? ==>
                var n := Named(Listing(l, old(disk), directory), name);
                && Mounted() && NameMap(Listing(l, disk, directory)) == NameMap(Listing(l, old(disk), directory)) - {name}
                && n in old(ino + sealed) && ino == FewerIn(old(ino), n) && sealed == FewerIn(old(sealed), n)
                && (old(ino + sealed)[n].links <= 1 ==> !InodeInUse(l, disk, n))
                && Untouched(l, old(disk), disk, old(ino), ino, directory.number, n)
                && Lost(owner) == old(Lost(owner)) +
                     (if Leaves(old(ino + sealed)[n]) then Held(old(owner), n) else {})
      ensures r.Ok? && AllReached(l, old(disk), old(ino)) ==>
                var t := old(ino + sealed)[Named(Listing(l, old(disk), directory), name)];
                AllReached(l, disk, ino) <==> t.links > 1 || t.kind == Regular || t.sectors == 0
      ensures r.Err? ==> r == Err(TooLarge) || (unchanged(this) && Mounted())
      ensures r.Err? ==> Lost(owner) == old(Lost(owner))
    {
      hide *;
      MountedFacts();
      SteadyFacts();
      SettledFacts();
      if deletedAt == 0 {
        return Err(Corrupt);
      }
      if directory.kind != Directory {
        return Err(NotDirectory);
      }
      if name == [] || |name| > MAX_NAME {
        return Err(NameTooLong);
      }
      Opened();
      LiveFacts(directory);
      TidyFacts(l, disk, ino, directory);
      NamedFacts(l, Listing(l, disk, directory), name);
      ghost var d, i, s, o := disk, ino, sealed, owner;
      var found, index := FindEntry(directory, name);
      if found.None? {
        return Err(NotFound);
      }
      var number, at, previous := found.value.0, found.value.1, found.value.2;
      EntryFoundFacts(l, disk, ino, owner, directory, name, index, number, at, previous);
      SoundFits(disk[number], at);
      var block := disk[number];
      var inode := Get32(block, at);
      NamedThere(l, d, i, s, directory, name);
      AllReads(l, d, i, s, inode);
      var read := ReadInode(inode);
      if read.value.kind == Directory {
        return Err(NotDirectory);
      }
      AbsorbedRemoves(block, name, at, previous);
      var updated := Absorbed(block, at, previous);
      disk := disk[number := updated];
      DirBlockWritten(l, d, disk, freeBlocks, freeInodes, ino, owner, directory, index, number, updated);
      Unlinked(l, d, disk, ino, directory, name, index, updated);
      DirWriteKeeps(l, d, disk, ino);
      SealedTables(l, d, disk, ino, ino, sealed);
      Closed();
      SteadyIs();
      ghost var d1 := disk;
      r := DropLink(inode, deletedAt);
      LeavesIs((i + s)[inode]);
      if r.Ok? {
        UnlinkEnds(l, d, d1, disk, i, ino, directory, inode);
        LinksFewer(l, d, d1, disk, i, ino, s, sealed, directory, name, inode);
        MountedIs();
        SteadyFacts();
        SettledFacts();
        Opened();
        LossIff(l, d, disk, i, ino, s, o, owner, inode);
      }
    }

    /** Where a directory's entry of that name is. */
    method FindEntry(directory: Inode, name: Name) returns (r: Option<(nat, nat, Option<nat>)>, ghost index: nat)
      requires Valid() && Live(directory) && TidyBlocks(l, disk, directory)
      ensures r.None? ==> Find(Listing(l, disk, directory), name).None?
      ensures r.Some? ==> EntryFound(l, disk, directory, name, index, r.value.0, r.value.1, r.value.2)
                          && r.value.0 < |disk| && r.value.1 + 8 <= |disk[r.value.0]|
                          && Find(Listing(l, disk, directory), name) == Some(Get32(disk[r.value.0], r.value.1))
    {
      hide *;
      Opened();
      LiveFacts(directory);
      BlocksForIs(l, directory.size);
      ListingIs(l, disk, directory);
      var blocks := (directory.size + l.blockSize - 1) / l.blockSize;
      ghost var all := DirWalk(l, disk, directory, 0, blocks);
      var next := 0;
      while next < blocks
        invariant 0 <= next <= blocks
        invariant var w := DirWalk(l, disk, directory, next, blocks); Find(all.0, name) == Find(w.0, name)
      {
        DirStep(l, disk, directory, next, blocks, name);
        HoleIs(l, disk, directory, next);
        PathThere(l, disk, directory, next);
        var at := Resolve(directory, next);
        if at.value.Some? {
          BlockBytesIs(l, disk, ino, owner, directory, next);
          TiledAt(l, disk, directory, next);
          TiledWalks(BlockBytes(l, disk, directory, next), 0);
          var number := at.value.value;
          var v := FindName(disk[number], name);
          if v.value.Some? {
            EntryFoundIs(l, disk, directory, name, next, number, v.value.value.0, v.value.value.1);
            return Some((number, v.value.value.0, v.value.value.1)), next;
          }
        }
        next := next + 1;
      }
      DirEnd(l, disk, directory, blocks, name);
      return None, 0;
    }
  }
}
