/** The addition chains: inversion as x^(p-2), and the square root's x^((p-5)/8). */
module FieldPowers {
  import opened Bits
  import opened Field
  import opened FieldBytes
  import opened PrimeField

  lemma {:induction false} OnePower(n: nat)
    ensures Pow(1, n) == 1
  {
    if n > 0 {
      OnePower(n - 1);
    }
  }

  lemma {:induction false} CongPow(x: int, y: int, n: nat)
    requires Cong(x, y)
    ensures Cong(Pow(x, n), Pow(y, n))
  {
    if n > 0 {
      CongPow(x, y, n - 1);
      CongMul(x, y, Pow(x, n - 1), Pow(y, n - 1));
    }
  }

  /** `f` is `x` to the power `n`, modulo p. */
  predicate IsPower(f: Fe, x: int, n: nat) { Small(f) && Cong(Value(f), Pow(x, n)) }

  lemma FirstPower(f: Fe)
    requires Small(f)
    ensures IsPower(f, Value(f), 1)
  {
    assert Pow(Value(f), 1) == Value(f) * Pow(Value(f), 0);
  }

  /** Multiplying adds exponents. */
  method Times(f: Fe, g: Fe, ghost x: int, ghost m: nat, ghost n: nat) returns (r: Fe)
    requires IsPower(f, x, m) && IsPower(g, x, n)
    ensures IsPower(r, x, m + n)
  {
    r := Mul(f, g);
    CongMul(Value(f), Pow(x, m), Value(g), Pow(x, n));
    PowAdd(x, m, n);
  }

  /** Squaring `n` times multiplies the exponent by 2^n. */
  method SquareTimes(f: Fe, n: nat, ghost x: int, ghost m: nat) returns (r: Fe)
    requires IsPower(f, x, m)
    ensures IsPower(r, x, m * Pow2(n))
  {
    r := f;
    var i := 0;
    while i < n
      invariant 0 <= i <= n && IsPower(r, x, m * Pow2(i))
    {
      r := Times(r, r, x, m * Pow2(i), m * Pow2(i));
      Doubles(m, Pow2(i));
      i := i + 1;
    }
  }

  lemma Doubles(m: nat, p: nat)
    ensures m * p + m * p == m * (2 * p)
  {}

  lemma Pow2Chain()
    ensures Pow2(2) == 4 && Pow2(5) == 32 && Pow2(10) == 0x400 && Pow2(20) == 0x10_0000
    ensures Pow2(50) == 0x4_0000_0000_0000 && Pow2(100) == 0x10_0000_0000_0000_0000_0000_0000
  {
    Pow2Small();
    Pow2Add(10, 10);
    Pow2Add(20, 20);
    Pow2Add(40, 10);
    Pow2Add(50, 50);
  }

  const INVERSE: nat := P - 2
  const ROOT: nat := (P - 5) / 8
  const E250: nat := 0x3ff_ffff_ffff_ffff_ffff_ffff_ffff_ffff_ffff_ffff_ffff_ffff_ffff_ffff_ffff_ffff

  /** `(x^(2^250 - 1), x^11)`. */
  method Pow2To250Minus1(z: Fe) returns (r: Fe, z11: Fe)
    requires Small(z)
    ensures IsPower(r, Value(z), E250) && IsPower(z11, Value(z), 11)
  {
    ghost var x := Value(z);
    FirstPower(z);
    Pow2Chain();
    var z2 := Times(z, z, x, 1, 1);
    var z8 := SquareTimes(z2, 2, x, 2);
    var z9 := Times(z, z8, x, 1, 8);
    z11 := Times(z2, z9, x, 2, 9);
    var z22 := Times(z11, z11, x, 11, 11);
    var z_5_0 := Times(z9, z22, x, 9, 22);
    var z_10_5 := SquareTimes(z_5_0, 5, x, 31);
    var z_10_0 := Times(z_10_5, z_5_0, x, 31 * 32, 31);
    var z_20_10 := SquareTimes(z_10_0, 10, x, 0x3ff);
    var z_20_0 := Times(z_20_10, z_10_0, x, 0x3ff * 0x400, 0x3ff);
    var z_40_20 := SquareTimes(z_20_0, 20, x, 0xf_ffff);
    var z_40_0 := Times(z_40_20, z_20_0, x, 0xf_ffff * 0x10_0000, 0xf_ffff);
    var z_50_10 := SquareTimes(z_40_0, 10, x, 0xff_ffff_ffff);
    var z_50_0 := Times(z_50_10, z_10_0, x, 0xff_ffff_ffff * 0x400, 0x3ff);
    var z_100_50 := SquareTimes(z_50_0, 50, x, 0x3_ffff_ffff_ffff);
    var z_100_0 := Times(z_100_50, z_50_0, x, 0x3_ffff_ffff_ffff * 0x4_0000_0000_0000, 0x3_ffff_ffff_ffff);
    var z_200_100 := SquareTimes(z_100_0, 100, x, 0xf_ffff_ffff_ffff_ffff_ffff_ffff);
    var z_200_0 := Times(z_200_100, z_100_0, x, 0xf_ffff_ffff_ffff_ffff_ffff_ffff * 0x10_0000_0000_0000_0000_0000_0000, 0xf_ffff_ffff_ffff_ffff_ffff_ffff);
    var z_250_50 := SquareTimes(z_200_0, 50, x, 0xff_ffff_ffff_ffff_ffff_ffff_ffff_ffff_ffff_ffff_ffff_ffff_ffff);
    r := Times(z_250_50, z_50_0, x, 0xff_ffff_ffff_ffff_ffff_ffff_ffff_ffff_ffff_ffff_ffff_ffff_ffff * 0x4_0000_0000_0000, 0x3_ffff_ffff_ffff);
  }

  /** `invert`: exactly the power p - 2. */
  method Invert(z: Fe) returns (r: Fe)
    requires Small(z)
    ensures IsPower(r, Value(z), INVERSE)
  {
    var z_250_0, z11 := Pow2To250Minus1(z);
    Pow2Chain();
    var up := SquareTimes(z_250_0, 5, Value(z), E250);
    r := Times(up, z11, Value(z), E250 * 32, 11);
  }

  /** `pow_p58`: exactly the power (p - 5) / 8. */
  method PowP58(z: Fe) returns (r: Fe)
    requires Small(z)
    ensures IsPower(r, Value(z), ROOT)
  {
    var z_250_0, z11 := Pow2To250Minus1(z);
    Pow2Chain();
    FirstPower(z);
    var up := SquareTimes(z_250_0, 2, Value(z), E250);
    r := Times(up, z, Value(z), E250 * 4, 1);
  }

}
