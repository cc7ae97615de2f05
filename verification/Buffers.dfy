/** Writing into the middle of a buffer, and big-endian fields. */
module Buffers {
  import opened Common

  function Spliced(s: seq<byte>, at: nat, bytes: seq<byte>): (r: seq<byte>)
    requires at + |bytes| <= |s|
    ensures |r| == |s|
  {
    s[..at] + bytes + s[at + |bytes|..]
  }

  /** Writing next to what was just written makes one longer write. */
  lemma SpliceNext(s: seq<byte>, at: nat, a: seq<byte>, b: seq<byte>)
    requires at + |a| + |b| <= |s|
    ensures Spliced(Spliced(s, at, a), at + |a|, b) == Spliced(s, at, a + b)
  {}

  /** Writing over a field inside what was just written replaces that field. */
  lemma SpliceInside(s: seq<byte>, at: nat, a: seq<byte>, old_: seq<byte>, new_: seq<byte>, c: seq<byte>)
    requires |old_| == |new_| && at + |a| + |old_| + |c| <= |s|
    ensures Spliced(Spliced(s, at, a + old_ + c), at + |a|, new_) == Spliced(s, at, a + new_ + c)
  {}

  lemma SpliceRead(s: seq<byte>, at: nat, bytes: seq<byte>)
    requires at + |bytes| <= |s|
    ensures Spliced(s, at, bytes)[at..at + |bytes|] == bytes
  {}

  /** `copy_from_slice`. */
  method Copy(out: array<byte>, at: nat, bytes: seq<byte>)
    requires at + |bytes| <= out.Length
    modifies out
    ensures out[..] == Spliced(old(out[..]), at, bytes)
  {
    forall i | 0 <= i < |bytes| {
      out[at + i] := bytes[i];
    }
  }

  function Be16(v: u16): (b: seq<byte>)
    ensures |b| == 2
  {
    [v / 256, v % 256]
  }

  function Be32(v: u32): (b: seq<byte>)
    ensures |b| == 4
  {
    Be16(v / 0x1_0000) + Be16(v % 0x1_0000)
  }

  function Word(b: seq<byte>, at: nat): u16
    requires at + 2 <= |b|
  {
    256 * (b[at] as int) + b[at + 1] as int
  }

  function Word32(b: seq<byte>, at: nat): u32
    requires at + 4 <= |b|
  {
    0x1_0000 * (Word(b, at) as int) + Word(b, at + 2) as int
  }
}
