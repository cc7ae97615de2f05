/** Single bits of a natural number. */
module Bits {
  import opened Common

  /** Bit `k` of `v`, counting from the least significant. */
  predicate Bit(v: nat, k: nat)
    decreases k
  {
    if k == 0 then v % 2 == 1 else Bit(v / 2, k - 1)
  }

  /** `v | (1 << k)` or `v & !(1 << k)`. */
  function WithBit(v: nat, k: nat, on: bool): nat
    decreases k
  {
    if k == 0 then v / 2 * 2 + (if on then 1 else 0) else 2 * WithBit(v / 2, k - 1, on) + v % 2
  }

  /** Setting or clearing one bit changes that bit and no other. */
  lemma {:induction false} OneBitChanges(v: nat, k: nat, on: bool, j: nat)
    ensures Bit(WithBit(v, k, on), j) == if j == k then on else Bit(v, j)
    decreases k
  {
    var w := WithBit(v, k, on);
    if k == 0 {
      assert w / 2 == v / 2;
    } else {
      assert w / 2 == WithBit(v / 2, k - 1, on) && w % 2 == v % 2;
      if j > 0 {
        OneBitChanges(v / 2, k - 1, on, j - 1);
      }
    }
  }

  lemma {:induction false} SameBit(v: nat, k: nat, on: bool)
    requires Bit(v, k) == on
    ensures WithBit(v, k, on) == v
    decreases k
  {
    if k > 0 {
      SameBit(v / 2, k - 1, on);
    }
  }

  lemma WithBitIsByte(v: byte, k: nat, on: bool)
    requires k < 8
    ensures WithBit(v, k, on) < 256
  {
    WithBitBound(v, k, on, 8);
  }

  function Pow2(n: nat): nat { if n == 0 then 1 else 2 * Pow2(n - 1) }

  lemma {:induction false} WithBitBound(v: nat, k: nat, on: bool, n: nat)
    requires k < n && v < Pow2(n)
    ensures WithBit(v, k, on) < Pow2(n)
    decreases k
  {
    if k > 0 {
      WithBitBound(v / 2, k - 1, on, n - 1);
    }
  }
}
