/** Little-endian fields and bitmaps inside a block of bytes. */
module Ext2Bits {
  import opened Common
  import opened Bits

  type Block = seq<byte>

  // ----- little-endian fields -----

  function Get16(b: Block, at: nat): u16
    requires at + 2 <= |b|
  {
    (b[at] as int) + 0x100 * (b[at + 1] as int)
  }

  function Get32(b: Block, at: nat): u32
    requires at + 4 <= |b|
  {
    (b[at] as int) + 0x100 * (b[at + 1] as int) + 0x1_0000 * (b[at + 2] as int) + 0x100_0000 * (b[at + 3] as int)
  }

  /** Every byte outside `[at, at + n)` is the same. */
  predicate SameOutside(b: Block, c: Block, at: nat, n: nat)
  {
    |b| == |c| && forall i :: 0 <= i < |b| && !(at <= i < at + n) ==> b[i] == c[i]
  }

  function Put16(b: Block, at: nat, v: u16): (r: Block)
    requires at + 2 <= |b|
    ensures |r| == |b| && SameOutside(b, r, at, 2) && Get16(r, at) == v
  {
    b[at := v % 256][at + 1 := v / 256]
  }

  function Put32(b: Block, at: nat, v: u32): (r: Block)
    requires at + 4 <= |b|
    ensures |r| == |b| && SameOutside(b, r, at, 4) && Get32(r, at) == v
  {
    LittleEndian(v);
    b[at := v % 256][at + 1 := v / 0x100 % 256][at + 2 := v / 0x1_0000 % 256][at + 3 := v / 0x100_0000]
  }

  lemma LittleEndian(v: u32)
    ensures v / 0x100_0000 < 256
    ensures v == v % 256 + 0x100 * (v / 0x100 % 256) + 0x1_0000 * (v / 0x1_0000 % 256) + 0x100_0000 * (v / 0x100_0000)
  {
    assert v / 0x1_0000 == v / 0x100 / 256 && v / 0x100_0000 == v / 0x1_0000 / 256;
  }

  lemma Get16Same(b: Block, c: Block, at: nat, n: nat, other: nat)
    requires SameOutside(b, c, at, n) && other + 2 <= |b| && (other + 2 <= at || at + n <= other)
    ensures Get16(c, other) == Get16(b, other)
  {}

  lemma Get32Same(b: Block, c: Block, at: nat, n: nat, other: nat)
    requires SameOutside(b, c, at, n) && other + 4 <= |b| && (other + 4 <= at || at + n <= other)
    ensures Get32(c, other) == Get32(b, other)
  {}

  // ----- bits -----

  predicate BitAt(b: Block, i: nat)
    requires i / 8 < |b|
  {
    Bit(b[i / 8], i % 8)
  }

  function SetBit(b: Block, i: nat, on: bool): (r: Block)
    requires i / 8 < |b|
    ensures |r| == |b| && SameOutside(b, r, i / 8, 1)
  {
    WithBitIsByte(b[i / 8], i % 8, on);
    b[i / 8 := WithBit(b[i / 8], i % 8, on)]
  }

  lemma SetBitAt(b: Block, i: nat, on: bool, j: nat)
    requires i / 8 < |b| && j / 8 < |b|
    ensures BitAt(SetBit(b, i, on), j) == if i == j then on else BitAt(b, j)
  {
    if i / 8 == j / 8 {
      OneBitChanges(b[i / 8], i % 8, on, j % 8);
    }
  }

  lemma SetBitSame(b: Block, i: nat, on: bool)
    requires i / 8 < |b| && BitAt(b, i) == on
    ensures SetBit(b, i, on) == b
  {
    SameBit(b[i / 8], i % 8, on);
  }

  // ----- counting clear bits -----

  function ClearBits(b: Block, n: nat): (c: nat)
    requires n <= 8 * |b|
    ensures c <= n
  {
    if n == 0 then 0 else ClearBits(b, n - 1) + (if BitAt(b, n - 1) then 0 else 1)
  }

  /** Changing one bit below `n` moves the count by exactly that bit. */
  lemma {:induction false} ClearBitsAfter(b: Block, i: nat, on: bool, n: nat)
    requires i / 8 < |b| && n <= 8 * |b|
    ensures ClearBits(SetBit(b, i, on), n) ==
            ClearBits(b, n) + (if i >= n || BitAt(b, i) == on then 0 else if on then -1 else 1)
  {
    if n > 0 {
      ClearBitsAfter(b, i, on, n - 1);
      SetBitAt(b, i, on, n - 1);
    }
  }

  lemma {:induction false} SomeClear(b: Block, n: nat)
    requires n <= 8 * |b|
    ensures ClearBits(b, n) == 0 <==> forall i :: 0 <= i < n ==> BitAt(b, i)
  {
    if n > 0 {
      SomeClear(b, n - 1);
    }
  }
}
