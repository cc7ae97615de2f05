/** Value types and small helpers shared by every component model. */
module Common {

  datatype Option<+T> = None | Some(value: T)

  type byte = b: int | 0 <= b < 256
  type u16 = x: int | 0 <= x < 0x1_0000
  type u32 = x: int | 0 <= x < 0x1_0000_0000

  const U64_MAX := 0xffff_ffff_ffff_ffff
  type u64 = x: int | 0 <= x <= U64_MAX

  function Min(a: int, b: int): int { if a <= b then a else b }

  function Max(a: int, b: int): int { if a >= b then a else b }

  /** `u64::saturating_add`. */
  function SatAdd(a: u64, b: u64): u64 { if a + b > U64_MAX then U64_MAX else a + b }

  /** `u64::saturating_sub`. */
  function SatSub(a: u64, b: u64): u64 { if a < b then 0 else a - b }

  /** `saturating_sub` where only the lower end can be met. */
  function Less(a: nat, b: nat): nat { if a < b then 0 else a - b }

  lemma LessIs(a: nat, b: nat)
    requires b <= a
    ensures Less(a, b) == a - b
  {}

  lemma LessOne(a: nat)
    ensures Less(a, 1) <= a && (Less(a, 1) == 0 <==> a <= 1) && (a > 1 ==> Less(a, 1) == a - 1)
  {}

  lemma MinIs(a: int, b: int)
    ensures Min(a, b) == if a <= b then a else b
  {}
}
