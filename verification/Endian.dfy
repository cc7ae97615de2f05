/** Little-endian numbers. */
module Endian {
  import opened Common

  /** A little-endian number. */
  function LittleEndian(b: seq<byte>): nat
  {
    if b == [] then 0 else b[0] as int + 256 * LittleEndian(b[1..])
  }

  function Pow256(k: nat): nat { if k == 0 then 1 else 256 * Pow256(k - 1) }

  lemma {:induction false} LittleEndianBelow(b: seq<byte>)
    ensures LittleEndian(b) < Pow256(|b|)
  {
    if b != [] {
      LittleEndianBelow(b[1..]);
    }
  }

  /** Equal numbers of one length have equal bytes. */
  lemma {:induction false} LittleEndianInjective(a: seq<byte>, b: seq<byte>)
    requires |a| == |b| && LittleEndian(a) == LittleEndian(b)
    ensures a == b
  {
    if a != [] {
      assert a[0] == LittleEndian(a) % 256 && b[0] == LittleEndian(b) % 256;
      LittleEndianInjective(a[1..], b[1..]);
      assert a == [a[0]] + a[1..] && b == [b[0]] + b[1..];
    }
  }

  /** `to_le_bytes`: the `k` bytes of a number below `256^k`. */
  function Le(n: nat, k: nat): (b: seq<byte>)
    ensures |b| == k
    decreases k
  {
    if k == 0 then [] else [n % 256] + Le(n / 256, k - 1)
  }

  lemma {:induction false} LeReads(n: nat, k: nat)
    requires n < Pow256(k)
    ensures LittleEndian(Le(n, k)) == n
    decreases k
  {
    if k > 0 {
      LeReads(n / 256, k - 1);
      assert Le(n, k)[1..] == Le(n / 256, k - 1);
    }
  }

  lemma LeWrites(b: seq<byte>)
    ensures Le(LittleEndian(b), |b|) == b && LittleEndian(b) < Pow256(|b|)
  {
    LittleEndianBelow(b);
    LeReads(LittleEndian(b), |b|);
    LittleEndianInjective(Le(LittleEndian(b), |b|), b);
  }
}
