/** Field elements as 32 little-endian bytes: the one representative below p, and back. */
module FieldBytes {
  import opened Common
  import opened Bits
  import opened Endian
  import opened Field

  lemma {:induction false} LittleEndianPut(b: seq<byte>, k: nat, v: byte)
    requires k < |b|
    ensures LittleEndian(b[k := v]) == LittleEndian(b) + (v as int - b[k] as int) * Pow256(k)
  {
    if k > 0 {
      LittleEndianPut(b[1..], k - 1, v);
      assert b[k := v][1..] == b[1..][k - 1 := v];
      var delta := v as int - b[k] as int;
      assert 256 * (delta * Pow256(k - 1)) == delta * (256 * Pow256(k - 1));
    } else {
      assert b[0 := v][1..] == b[1..];
    }
  }

  lemma {:induction false} LittleEndianZeroes(b: seq<byte>)
    requires forall i :: 0 <= i < |b| ==> b[i] == 0
    ensures LittleEndian(b) == 0
  {
    if b != [] {
      LittleEndianZeroes(b[1..]);
    }
  }

  // ----- powers of two -----

  lemma {:induction false} Pow2Add(m: nat, n: nat)
    ensures Pow2(m + n) == Pow2(m) * Pow2(n)
  {
    if n > 0 {
      Pow2Add(m, n - 1);
      assert Pow2(m) * (2 * Pow2(n - 1)) == 2 * (Pow2(m) * Pow2(n - 1));
    }
  }

  lemma Pow2Small()
    ensures Pow2(1) == 2 && Pow2(2) == 4 && Pow2(3) == 8 && Pow2(4) == 16 && Pow2(5) == 32 && Pow2(6) == 64
    ensures Pow2(7) == 128 && Pow2(8) == 256 && Pow2(10) == 1024 && Pow2(16) == 0x1_0000 && Pow2(32) == 0x1_0000_0000
    ensures Pow2(51) == RADIX && Pow2(64) == TWO_64
  {
    assert Pow2(4) == 16;
    Pow2Add(4, 4);
    Pow2Add(8, 2);
    Pow2Add(8, 8);
    Pow2Add(16, 16);
    Pow2Add(32, 32);
    Pow2Add(32, 16);
    Pow2Add(48, 3);
  }

  lemma {:induction false} Pow256Is(k: nat)
    ensures Pow256(k) == Pow2(8 * k)
  {
    if k > 0 {
      Pow256Is(k - 1);
      Pow2Small();
      Pow2Add(8 * (k - 1), 8);
    }
  }

  lemma {:induction false} WeightIs(l: nat)
    ensures Weight(l) == Pow2(51 * l)
  {
    if l > 0 {
      WeightIs(l - 1);
      Pow2Small();
      Pow2Add(51 * (l - 1), 51);
    }
  }

  /** The low `k + 1` bits are the low `k` bits and bit `k`. */
  lemma {:induction false} LowBit(v: nat, k: nat)
    ensures Pow2(k) > 0 && Pow2(k + 1) > 0
    ensures v % Pow2(k + 1) == v % Pow2(k) + if Bit(v, k) then Pow2(k) else 0
    decreases k
  {
    Pow2Positive(k);
    Pow2Positive(k + 1);
    if k == 0 {
      assert Pow2(1) == 2;
    } else {
      Pow2Positive(k - 1);
      LowBit(v / 2, k - 1);
      Halve(v, Pow2(k));
      Halve(v, Pow2(k - 1));
    }
  }

  lemma {:induction false} Pow2Positive(k: nat)
    ensures Pow2(k) > 0
  {
    if k > 0 {
      Pow2Positive(k - 1);
    }
  }

  lemma Halve(v: nat, m: nat)
    requires m > 0
    ensures v % (2 * m) == v / 2 % m * 2 + v % 2
  {
    var q, r := v / 2 / m, v / 2 % m;
    assert v / 2 == m * q + r;
    assert v == 2 * m * q + (2 * r + v % 2);
    DivUnique(v, 2 * m, q, 2 * r + v % 2);
  }

  lemma DivUnique(v: int, m: int, q: int, r: int)
    requires m > 0 && v == m * q + r && 0 <= r < m
    ensures v / m == q && v % m == r
  {
    var q', r' := v / m, v % m;
    assert v == m * q' + r';
    if q > q' {
      Apart(m, q', q);
    } else if q < q' {
      Apart(m, q, q');
    }
  }

  lemma Apart(m: int, a: int, b: int)
    requires m > 0 && a < b
    ensures m * a + m <= m * b
  {
    Scale(m, a + 1, b);
  }

  lemma Scale(m: int, a: int, b: int)
    requires m > 0 && a <= b
    ensures m * a <= m * b
  {}

  lemma {:induction false} WithBitAdds(v: nat, k: nat)
    requires v < Pow2(k)
    ensures WithBit(v, k, true) == v + Pow2(k)
    decreases k
  {
    if k > 0 {
      WithBitAdds(v / 2, k - 1);
    }
  }

  // ----- writing the bits out -----

  /** Nothing at or above bit `n` is set. */
  predicate ClearFrom(out: seq<byte>, n: nat)
  {
    && (n / 8 < |out| ==> out[n / 8] as int < Pow2(n % 8))
    && forall k :: n / 8 < k < |out| ==> out[k] == 0
  }

  lemma ClearNext(out: seq<byte>, n: nat)
    requires ClearFrom(out, n)
    ensures ClearFrom(out, n + 1)
  {
    Pow2Small();
  }

  /** Setting bit `n` above everything set so far adds 2^n. */
  lemma SetNext(out: seq<byte>, n: nat)
    requires ClearFrom(out, n) && n / 8 < |out|
    ensures WithBit(out[n / 8], n % 8, true) < 256
    ensures var out' := out[n / 8 := WithBit(out[n / 8], n % 8, true)];
            ClearFrom(out', n + 1) && LittleEndian(out') == LittleEndian(out) + Pow2(n)
  {
    hide LittleEndian, WithBit, Pow2;
    var k, b := n / 8, n % 8;
    BelowHere(out, n);
    WithBitAdds(out[k], b);
    WithBitIsByte(out[k], b, true);
    var v := WithBit(out[k], b, true);
    ClearAfter(out, n, v);
    LittleEndianPut(out, k, v);
    Pow256Is(k);
    Pow2Add(b, 8 * k);
  }

  lemma BelowHere(out: seq<byte>, n: nat)
    requires ClearFrom(out, n) && n / 8 < |out|
    ensures out[n / 8] as int < Pow2(n % 8)
  {
    hide Pow2;
  }

  lemma ClearAfter(out: seq<byte>, n: nat, v: byte)
    requires ClearFrom(out, n) && n / 8 < |out| && v == out[n / 8] as int + Pow2(n % 8)
    ensures ClearFrom(out[n / 8 := v], n + 1)
  {
    Pow2Small();
  }

  /** One limb's bits, from bit `51 * l` on. */
  method PutLimb(out: seq<byte>, limb: u64, l: nat) returns (r: seq<byte>)
    requires |out| == 32 && l < 5 && limb < RADIX && ClearFrom(out, 51 * l)
    ensures |r| == 32 && ClearFrom(r, 51 * l + 51) && LittleEndian(r) == LittleEndian(out) + limb * Weight(l)
  {
    hide *;
    r := out;
    var i := 0;
    NoBits(limb, l);
    while i < 51
      invariant 0 <= i <= 51 && |r| == 32 && Pow2(i) > 0 && ClearFrom(r, 51 * l + i)
      invariant LittleEndian(r) == LittleEndian(out) + limb % Pow2(i) * Weight(l)
    {
      var n := 51 * l + i;
      BitAdds(limb, l, i);
      if Bit(limb, i) {
        SetNext(r, n);
        r := r[n / 8 := WithBit(r[n / 8], n % 8, true)];
      } else {
        ClearNext(r, n);
      }
      i := i + 1;
    }
    Pow2Small();
  }

  lemma NoBits(limb: nat, l: nat)
    ensures Pow2(0) == 1 && limb % Pow2(0) * Weight(l) == 0
  {}

  /** What bit `i` of limb `l` adds to the number. */
  lemma BitAdds(limb: nat, l: nat, i: nat)
    ensures Pow2(i) > 0 && Pow2(i + 1) > 0
    ensures limb % Pow2(i + 1) * Weight(l) == limb % Pow2(i) * Weight(l) + if Bit(limb, i) then Pow2(51 * l + i) else 0
  {
    LowBit(limb, i);
    WeightIs(l);
    Pow2Add(i, 51 * l);
    hide *;
    if Bit(limb, i) {
      AddOut(limb % Pow2(i), Pow2(i), Weight(l));
    }
  }

  // ----- the canonical representative -----

  lemma DivDiv(x: nat, w: nat)
    requires w > 0
    ensures RADIX * w > 0 && x / (RADIX * w) == x / w / RADIX
  {
    var q := x / w;
    var a, r := q / RADIX, q % RADIX;
    assert x == w * q + x % w && q == RADIX * a + r;
    assert w * (RADIX * a + r) == RADIX * w * a + w * r;
    Scale(w, r + 1, RADIX);
    assert w * (r + 1) == w * r + w;
    assert RADIX * w > 0;
    DivUnique(x, RADIX * w, a, w * r + x % w);
  }

  lemma DivPlus(x: nat, b: nat, w: nat)
    requires w > 0
    ensures (x + b * w) / w == x / w + b
  {
    assert x == w * (x / w) + x % w;
    assert w * (x / w + b) == w * (x / w) + b * w;
    DivUnique(x + b * w, w, x / w + b, x % w);
  }

  lemma {:induction false} WeightPositive(i: nat)
    ensures Weight(i) > 0
  {
    if i > 0 {
      WeightPositive(i - 1);
    }
  }

  /** Whether the settled limbs reach p, by carrying nineteen through them. */
  method Overflows(t: seq<u64>) returns (carry: u64)
    requires |t| == 5 && Below(t, RADIX)
    ensures carry == if Sum(t, 5) >= P then 1 else 0
  {
    carry := 19;
    var i := 0;
    while i < 5
      invariant 0 <= i <= 5 && Weight(i) > 0 && carry < RADIX && carry == (19 + Sum(t, i)) / Weight(i)
    {
      SumBelow(t, i);
      WeightPositive(i + 1);
      DivPlus(19 + Sum(t, i), t[i], Weight(i));
      DivDiv(19 + Sum(t, i + 1), Weight(i));
      carry := (carry + t[i]) / RADIX;
      i := i + 1;
    }
    Weights();
    SumBelow(t, 5);
  }

  /** The fully settled limbs of the representative below p. */
  method Canonical(f: Fe) returns (t: seq<u64>)
    requires |f.limbs| == 5 && Below(f.limbs, 0x8000_0000_0000_0000)
    ensures |t| == 5 && Below(t, RADIX) && Sum(t, 5) == Value(f) % P
  {
    var g := Reduce(f);
    var u := g.limbs;
    SumBelow(u, 5);
    Weights();
    var carry := Overflows(u);
    SumFirst(u, 19 * carry);
    u := u[0 := u[0] + 19 * carry];
    var r, top := CarryPass(u);
    SumBelow(r, 5);
    CanonicalValue(Value(g), carry, Sum(r, 5), top);
    t := r;
  }

  lemma CanonicalValue(v: int, carry: int, s: int, top: int)
    requires 0 <= v < P + 19 && carry == (if v >= P then 1 else 0)
    requires 0 <= s < P + 19 && top >= 0 && s + top * (P + 19) == v + 19 * carry
    ensures s == v % P
  {
    ModUnique(v, carry, v - P * carry);
  }

  /** `to_bytes`: the one representative below p. */
  method ToBytes(f: Fe) returns (out: seq<byte>)
    requires |f.limbs| == 5 && Below(f.limbs, 0x8000_0000_0000_0000)
    ensures |out| == 32 && LittleEndian(out) == Value(f) % P
  {
    var t := Canonical(f);
    out := seq(32, _ => 0);
    LittleEndianZeroes(out);
    var l := 0;
    while l < 5
      invariant 0 <= l <= 5 && |out| == 32 && ClearFrom(out, 51 * l) && LittleEndian(out) == Sum(t, l)
    {
      out := PutLimb(out, t[l], l);
      l := l + 1;
    }
  }

  // ----- reading them back -----

  function Quo(a: nat, b: nat): nat { if b == 0 then 0 else a / b }

  function Rem(a: nat, b: nat): nat { if b == 0 then 0 else a % b }

  const TWO_64 := 0x1_0000_0000_0000_0000

  lemma MulPositive(m: nat, n: nat)
    requires m > 0 && n > 0
    ensures m * n > 0
  {}

  lemma QuoQuo(x: nat, m: nat, n: nat)
    requires m > 0 && n > 0
    ensures Quo(x, m * n) == Quo(Quo(x, m), n)
  {
    var q := x / m;
    var a, r := q / n, q % n;
    assert x == m * q + x % m && q == n * a + r;
    assert m * (n * a + r) == m * n * a + m * r;
    Scale(m, r + 1, n);
    assert m * (r + 1) == m * r + m;
    MulPositive(m, n);
    DivUnique(x, m * n, a, m * r + x % m);
  }

  lemma QuoRem(n: nat, s: nat)
    requires s > 0
    ensures n == s * Quo(n, s) + Rem(n, s) && Rem(n, s) < s
  {}

  lemma QuoRemUnique(n: nat, s: nat, q: nat, r: nat)
    requires n == s * q + r && r < s
    ensures Quo(n, s) == q && Rem(n, s) == r
  {
    DivUnique(n, s, q, r);
  }

  lemma RemQuo(n: nat, s: nat, m: nat)
    requires s > 0 && m > 0
    ensures Quo(Rem(n, s * m), s) == Rem(Quo(n, s), m)
  {
    hide Quo, Rem;
    var q, t := Quo(n, s), Rem(n, s);
    var a, r := Quo(q, m), Rem(q, m);
    QuoRem(n, s);
    QuoRem(q, m);
    TwoDigits(s, m, a, r, t);
    QuoRemUnique(n, s * m, a, s * r + t);
    QuoRemUnique(s * r + t, s, r, t);
  }

  lemma TwoDigits(s: nat, m: nat, a: nat, r: nat, t: nat)
    requires r < m && t < s
    ensures s * (m * a + r) + t == (s * m) * a + (s * r + t) && s * r + t < s * m
  {
    Scale(s, r + 1, m);
  }

  lemma RemRem(n: nat, a: nat, b: nat)
    requires a > 0 && b > 0
    ensures Rem(Rem(n, a * b), a) == Rem(n, a)
  {
    MulPositive(a, b);
    var q, r := n / (a * b), n % (a * b);
    assert n == a * b * q + r && r == a * (r / a) + r % a;
    assert a * b * q == a * (b * q);
    assert a * (b * q) + a * (r / a) == a * (b * q + r / a);
    DivUnique(n, a, b * q + r / a, r % a);
  }

  lemma {:induction false} DropIs(b: seq<byte>, at: nat)
    requires at <= |b|
    ensures LittleEndian(b[at..]) == Quo(LittleEndian(b), Pow256(at))
  {
    if at == 0 {
      assert b[0..] == b;
    } else {
      DropIs(b[1..], at - 1);
      assert b[1..][at - 1..] == b[at..];
      Pow256Positive(at - 1);
      QuoQuo(LittleEndian(b), 256, Pow256(at - 1));
    }
  }

  lemma Pow256Positive(k: nat)
    ensures Pow256(k) > 0
  {
    Pow256Is(k);
    Pow2Positive(8 * k);
  }

  lemma {:induction false} TakeIs(b: seq<byte>, n: nat)
    requires n <= |b|
    ensures LittleEndian(b[..n]) == Rem(LittleEndian(b), Pow256(n))
  {
    if n > 0 {
      TakeIs(b[1..], n - 1);
      assert b[..n][1..] == b[1..][..n - 1];
      Pow256Positive(n - 1);
      ModStep(b[0], LittleEndian(b[1..]), Pow256(n - 1));
    }
  }

  lemma ModStep(x: byte, y: nat, m: nat)
    requires m > 0
    ensures Rem(x as int + 256 * y, 256 * m) == x as int + 256 * Rem(y, m)
  {
    var q, r := y / m, y % m;
    assert y == m * q + r;
    assert 256 * (m * q) == 256 * m * q;
    DivUnique(x as int + 256 * y, 256 * m, q, x as int + 256 * r);
  }

  /** `u64::from_le_bytes` of eight bytes. */
  function Load(b: seq<byte>, at: nat): nat
    requires at + 8 <= |b|
  {
    LittleEndian(b[at..at + 8])
  }

  lemma LoadIs(b: seq<byte>, at: nat)
    requires at + 8 <= |b|
    ensures Load(b, at) == Rem(Quo(LittleEndian(b), Pow256(at)), TWO_64)
  {
    DropIs(b, at);
    TakeIs(b[at..], 8);
    assert b[at..][..8] == b[at..at + 8];
    Pow256Is(8);
    Pow2Small();
  }

  /** Fifty-one bits of a number, read through eight bytes that cover them. */
  lemma LimbIs(b: seq<byte>, at: nat, shift: nat, l: nat)
    requires at + 8 <= |b| && shift <= 13 && 8 * at + shift == 51 * l
    ensures Rem(Quo(Load(b, at), Pow2(shift)), RADIX) == Rem(Quo(LittleEndian(b), Weight(l)), RADIX)
  {
    hide *;
    LoadIs(b, at);
    Pow2Positive(shift);
    Pow256Positive(at);
    Pow256Is(at);
    Pow2Add(8 * at, shift);
    WeightIs(l);
    QuoQuo(LittleEndian(b), Pow256(at), Pow2(shift));
    WindowIs(Quo(LittleEndian(b), Pow256(at)), shift);
  }

  /** Shifting sixty-four bits down by at most thirteen leaves the fifty-one that count. */
  lemma WindowIs(n: nat, shift: nat)
    requires shift <= 13
    ensures Rem(Quo(Rem(n, TWO_64), Pow2(shift)), RADIX) == Rem(Quo(n, Pow2(shift)), RADIX)
  {
    hide *;
    Pow2Positive(shift);
    Pow2Positive(64 - shift);
    Pow2Positive(13 - shift);
    Pow2Add(shift, 64 - shift);
    Pow2Small();
    RemQuo(n, Pow2(shift), Pow2(64 - shift));
    Pow2Add(51, 13 - shift);
    RemRem(Quo(n, Pow2(shift)), RADIX, Pow2(13 - shift));
  }

  /** Limb `i` of a number. */
  function Digit(n: nat, i: nat): nat { Rem(Quo(n, Weight(i)), RADIX) }

  /** Successive limbs of a number make it up, as far as they reach. */
  lemma {:induction false} DigitsSum(t: seq<int>, n: nat, k: nat)
    requires k <= |t| && forall i: nat :: i < k ==> t[i] == Digit(n, i)
    ensures Sum(t, k) == Rem(n, Weight(k))
  {
    if k > 0 {
      DigitsSum(t, n, k - 1);
      WeightPositive(k - 1);
      DigitMath(n, Weight(k - 1));
    }
  }

  lemma DigitMath(n: nat, w: nat)
    requires w > 0
    ensures Rem(n, RADIX * w) == Rem(n, w) + Rem(Quo(n, w), RADIX) * w
  {
    var q := n / w;
    assert n == w * q + n % w && q == RADIX * (q / RADIX) + q % RADIX;
    assert w * (RADIX * (q / RADIX) + q % RADIX) == RADIX * w * (q / RADIX) + w * (q % RADIX);
    Scale(w, q % RADIX + 1, RADIX);
    assert w * (q % RADIX + 1) == w * (q % RADIX) + w;
    DivUnique(n, RADIX * w, q / RADIX, w * (q % RADIX) + n % w);
  }

  const TWO_255 := P + 19

  /** The five limbs `from_bytes` reads are those of the number, one after the other. */
  lemma LoadsAreDigits(b: seq<byte>)
    requires |b| == 32
    ensures Load(b, 0) % RADIX == Digit(LittleEndian(b), 0) && Load(b, 6) / 8 % RADIX == Digit(LittleEndian(b), 1)
    ensures Load(b, 12) / 64 % RADIX == Digit(LittleEndian(b), 2) && Load(b, 19) / 2 % RADIX == Digit(LittleEndian(b), 3)
    ensures Load(b, 24) / 4096 % RADIX == Digit(LittleEndian(b), 4)
  {
    LimbIs(b, 0, 0, 0);
    LimbIs(b, 6, 3, 1);
    LimbIs(b, 12, 6, 2);
    LimbIs(b, 19, 1, 3);
    LimbIs(b, 24, 12, 4);
    Pow2Small();
    Pow2Add(10, 2);
    hide LittleEndian;
    hide Weight;
  }

  /** `from_bytes`: the number the bytes spell, without its top bit. */
  method FromBytes(bytes: seq<byte>) returns (r: Fe)
    requires |bytes| == 32
    ensures Small(r) && Value(r) == LittleEndian(bytes) % TWO_255
  {
    LoadsAreDigits(bytes);
    hide Load;
    hide Digit;
    hide LittleEndian;
    var limbs: seq<u64> := [Load(bytes, 0) % RADIX, Load(bytes, 6) / 8 % RADIX, Load(bytes, 12) / 64 % RADIX,
                            Load(bytes, 19) / 2 % RADIX, Load(bytes, 24) / 4096 % RADIX];
    DigitsSum(limbs, LittleEndian(bytes), 5);
    Weights();
    r := Fe(limbs);
  }

  // ----- what the encoding decides -----

  /** `eq` compares encodings, and that is equality modulo p. */
  method Equal(a: Fe, b: Fe) returns (r: bool)
    requires Small(a) && Small(b)
    ensures r <==> Cong(Value(a), Value(b))
  {
    var x := ToBytes(a);
    var y := ToBytes(b);
    r := x == y;
    if LittleEndian(x) == LittleEndian(y) {
      LittleEndianInjective(x, y);
    }
  }

  method IsZero(a: Fe) returns (r: bool)
    requires Small(a)
    ensures r <==> Value(a) % P == 0
  {
    var x := ToBytes(a);
    var zero := seq(32, _ => 0);
    LittleEndianZeroes(zero);
    r := x == zero;
    if LittleEndian(x) == 0 {
      LittleEndianInjective(x, zero);
    }
  }

  /** The parity of the canonical representative. */
  method IsNegative(a: Fe) returns (r: bool)
    requires Small(a)
    ensures r <==> Value(a) % P % 2 == 1
  {
    var x := ToBytes(a);
    assert LittleEndian(x) == x[0] as int + 256 * LittleEndian(x[1..]);
    r := x[0] % 2 == 1;
  }
}
