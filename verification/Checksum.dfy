/** The Internet checksum of RFC 1071: a one's-complement sum of big-endian words. */
module Checksum {
  import opened Common
  import opened Buffers

  const U32_MAX := 0xffff_ffff

  /** The words of a span added up, an odd tail padded with a zero byte. */
  function Total(b: seq<byte>): nat
  {
    if |b| == 0 then 0
    else if |b| == 1 then 256 * (b[0] as int)
    else 256 * (b[0] as int) + b[1] as int + Total(b[2..])
  }

  lemma {:induction false} TotalAppend(a: seq<byte>, b: seq<byte>)
    requires |a| % 2 == 0
    ensures Total(a + b) == Total(a) + Total(b)
  {
    if a == [] {
      assert a + b == b;
    } else {
      assert (a + b)[2..] == a[2..] + b;
      TotalAppend(a[2..], b);
    }
  }

  lemma {:induction false} TotalBound(b: seq<byte>)
    ensures Total(b) <= 0xffff * ((|b| + 1) / 2)
  {
    if |b| > 1 {
      TotalBound(b[2..]);
    }
  }

  lemma TotalWord(v: u16)
    ensures Total(Be16(v)) == v
  {
    assert Be16(v)[2..] == [];
  }

  lemma TotalWord32(v: u32)
    ensures Total(Be32(v)) == v / 0x1_0000 + v % 0x1_0000
  {
    TotalWord(v / 0x1_0000);
    TotalWord(v % 0x1_0000);
    TotalAppend(Be16(v / 0x1_0000), Be16(v % 0x1_0000));
  }

  /** `Sum::add`. The accumulator is 32 bits wide and is never overrun. */
  method Add(sum: u32, bytes: seq<byte>) returns (r: u32)
    requires sum + 0xffff * ((|bytes| + 1) / 2) <= U32_MAX
    ensures r == sum + Total(bytes)
  {
    r := sum;
    var i := 0;
    TotalBound(bytes);
    assert bytes[0..] == bytes;
    while i + 2 <= |bytes|
      invariant 0 <= i <= |bytes| && i % 2 == 0 && r + Total(bytes[i..]) == sum + Total(bytes)
    {
      assert bytes[i..][2..] == bytes[i + 2..];
      r := r + Word(bytes, i);
      i := i + 2;
    }
    if i < |bytes| {
      assert bytes[i..] == [bytes[i]];
      r := r + 256 * (bytes[i] as int);
    } else {
      assert bytes[i..] == [];
    }
  }

  /** `Sum::fold`: the carries folded in twice, and the complement. */
  function Fold(acc: u32): u16
  {
    var once := acc % 0x1_0000 + acc / 0x1_0000;
    var twice := once % 0x1_0000 + once / 0x1_0000;
    0xffff - twice % 0x1_0000
  }

  /** The representative of a sum modulo 65535: zero only for zero, otherwise from 1 to 65535. */
  function Residue(acc: nat): (r: nat)
    ensures r <= 0xffff && r % 0xffff == acc % 0xffff && (r == 0 <==> acc == 0)
  {
    if acc == 0 then 0 else (acc - 1) % 0xffff + 1
  }

  /** Folding sees the sum only modulo 65535, and whether it is zero. */
  lemma FoldIsResidue(acc: u32)
    ensures Fold(acc) == 0xffff - Residue(acc)
  {
    var once := acc % 0x1_0000 + acc / 0x1_0000;
    assert acc == once + 0xffff * (acc / 0x1_0000);
    var twice := once % 0x1_0000 + once / 0x1_0000;
    assert once == twice + 0xffff * (once / 0x1_0000);
    assert once / 0x1_0000 <= 1;
    assert twice <= 0xffff && (twice == 0 <==> acc == 0);
    SameResidue(twice, acc, once / 0x1_0000 + acc / 0x1_0000);
  }

  lemma SameResidue(a: nat, b: nat, k: nat)
    requires b == a + 0xffff * k && a <= 0xffff && (a == 0 <==> b == 0)
    ensures Residue(b) == a
  {
    if a > 0 {
      assert b - 1 == (a - 1) + 0xffff * k;
    }
  }

  /** A sum verifies when it is a nonzero multiple of 65535. */
  predicate Verifies(acc: nat) { acc != 0 && acc % 0xffff == 0 }

  lemma FoldsToZero(acc: u32)
    ensures Fold(acc) == 0 <==> Verifies(acc)
  {
    FoldIsResidue(acc);
  }

  /** What transports put on the wire: a computed zero goes out as all ones. */
  function OnWire(sum: u16): u16 { if sum == 0 then 0xffff else sum }

  /** Filling in the checksum of what was summed with a zero there makes the whole verify. */
  lemma Completes(acc: u32, field: u16)
    requires acc != 0 && (field == Fold(acc) || field == OnWire(Fold(acc)))
    ensures Verifies(acc + field)
  {
    FoldIsResidue(acc);
    var r := Residue(acc);
    assert field == 0xffff - r || (r == 0xffff && field == 0xffff);
  }
}
