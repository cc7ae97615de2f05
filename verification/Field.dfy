/**
 Arithmetic modulo 2^255 - 19 in five limbs of 51 bits. Every operation is a loop over
 limbs that never leaves its machine words, and equals the integer operation modulo p.
 */
module Field {
  import opened Common

  const RADIX := 0x8_0000_0000_0000
  const P: nat := 0x7fff_ffff_ffff_ffff_ffff_ffff_ffff_ffff_ffff_ffff_ffff_ffff_ffff_ffff_ffff_ffed
  const U128_MAX := 0xffff_ffff_ffff_ffff_ffff_ffff_ffff_ffff
  type u128 = x: int | 0 <= x <= U128_MAX

  /** Five limbs, least significant first. */
  datatype Fe = Fe(limbs: seq<u64>)

  const ZERO := Fe([0, 0, 0, 0, 0])
  const ONE := Fe([1, 0, 0, 0, 0])

  function Weight(i: nat): nat { if i == 0 then 1 else RADIX * Weight(i - 1) }

  /** What the first `k` limbs stand for. */
  function Sum(t: seq<int>, k: nat): int
    requires k <= |t|
  {
    if k == 0 then 0 else Sum(t, k - 1) + t[k - 1] * Weight(k - 1)
  }

  function Value(f: Fe): int { if |f.limbs| == 5 then Sum(f.limbs, 5) else 0 }

  predicate Below(t: seq<int>, bound: int) { forall i :: 0 <= i < |t| ==> 0 <= t[i] < bound }

  /** Five limbs that `reduce` can settle. */
  predicate Loose(f: Fe) { |f.limbs| == 5 && Below(f.limbs, 0x8000_0000_0000_0000) }

  /** Five settled limbs: what every operation returns. */
  predicate Small(f: Fe): (b: bool)
    ensures b ==> Loose(f)
  {
    |f.limbs| == 5 && Below(f.limbs, RADIX)
  }

  /** Equal modulo p. */
  predicate Cong(x: int, y: int) { x % P == y % P }

  // ----- congruence -----

  lemma CongBy(x: int, y: int, k: int)
    requires x == y + P * k
    ensures Cong(x, y)
  {
    ModPlus(y, k);
  }

  lemma ModPlus(y: int, k: int)
    ensures (y + P * k) % P == y % P
  {
    var q := y / P;
    assert y == P * q + y % P;
    assert y + P * k == P * (q + k) + y % P;
    ModUnique(y + P * k, q + k, y % P);
  }

  lemma ModUnique(x: int, q: int, r: int)
    requires x == P * q + r && 0 <= r < P
    ensures x % P == r && x / P == q
  {
    assert x == P * (x / P) + x % P;
  }

  lemma CongSplit(x: int)
    ensures x == P * (x / P) + x % P && Cong(x, x % P)
  {
    CongBy(x, x % P, x / P);
  }

  lemma CongAdd(x: int, y: int, u: int, v: int)
    requires Cong(x, y) && Cong(u, v)
    ensures Cong(x + u, y + v)
  {
    CongSplit(x);
    CongSplit(y);
    CongSplit(u);
    CongSplit(v);
    assert x + u == y + v + P * (x / P - y / P + u / P - v / P);
    CongBy(x + u, y + v, x / P - y / P + u / P - v / P);
  }

  lemma CongMul(x: int, y: int, u: int, v: int)
    requires Cong(x, y) && Cong(u, v)
    ensures Cong(x * u, y * v)
  {
    CongSplit(x);
    CongSplit(y);
    CongSplit(u);
    CongSplit(v);
    var k, m := x / P - y / P, u / P - v / P;
    assert x == y + P * k && u == v + P * m;
    assert (y + P * k) * (v + P * m) == y * v + P * (k * v + y * m + k * P * m) by { Gather(y, k, v, m); }
    CongBy(x * u, y * v, k * v + y * m + k * P * m);
  }

  lemma Gather(y: int, k: int, v: int, m: int)
    ensures y * v + y * (P * m) + P * k * v + P * k * (P * m) == y * v + P * (k * v + y * m + k * P * m)
  {
    assert y * (P * m) == P * (y * m);
    assert P * k * v == P * (k * v);
    assert P * k * (P * m) == P * (k * P * m);
  }

  // ----- sums of limbs -----

  lemma Weights()
    ensures Weight(0) == 1 && Weight(1) == RADIX && Weight(2) == 0x40_0000_0000_0000_0000_0000_0000
    ensures Weight(3) == 0x200_0000_0000_0000_0000_0000_0000_0000_0000_0000
    ensures Weight(4) == 0x1000_0000_0000_0000_0000_0000_0000_0000_0000_0000_0000_0000_0000
    ensures Weight(5) == P + 19
  {
    assert Weight(1) == RADIX * Weight(0);
    assert Weight(2) == RADIX * Weight(1);
    assert Weight(3) == RADIX * Weight(2);
    assert Weight(4) == RADIX * Weight(3);
    assert Weight(5) == RADIX * Weight(4);
  }

  lemma SumFive(t: seq<int>)
    requires |t| == 5
    ensures Sum(t, 5) == t[0] + t[1] * Weight(1) + t[2] * Weight(2) + t[3] * Weight(3) + t[4] * Weight(4)
  {
    assert Sum(t, 5) == Sum(t, 4) + t[4] * Weight(4);
    assert Sum(t, 4) == Sum(t, 3) + t[3] * Weight(3);
    assert Sum(t, 3) == Sum(t, 2) + t[2] * Weight(2);
    assert Sum(t, 2) == Sum(t, 1) + t[1] * Weight(1);
    assert Sum(t, 1) == t[0] * Weight(0);
  }

  lemma {:induction false} SumSame(t: seq<int>, u: seq<int>, k: nat)
    requires k <= |t| && k <= |u| && forall i :: 0 <= i < k ==> t[i] == u[i]
    ensures Sum(t, k) == Sum(u, k)
  {
    if k > 0 {
      SumSame(t, u, k - 1);
    }
  }

  lemma {:induction false} SumBelow(t: seq<int>, k: nat)
    requires k <= |t| && Below(t, RADIX)
    ensures 0 <= Sum(t, k) < Weight(k)
  {
    if k > 0 {
      SumBelow(t, k - 1);
      Grow(t[k - 1], RADIX - 1, Weight(k - 1));
      assert Weight(k) == (RADIX - 1) * Weight(k - 1) + Weight(k - 1);
    }
  }

  lemma Grow(a: int, b: int, w: nat)
    requires 0 <= a <= b
    ensures 0 <= a * w <= b * w
  {}

  /** One limb's carry moves to the next weight. */
  lemma CarryMoves(limb: nat, w: nat)
    ensures limb % RADIX * w + limb / RADIX * (RADIX * w) == limb * w
  {
    assert limb == limb / RADIX * RADIX + limb % RADIX;
    assert limb / RADIX * RADIX * w == limb / RADIX * (RADIX * w);
  }

  // ----- carrying -----

  /** Masks every limb and passes its carry up; what is left over comes out at the top. */
  method CarryPass(t: seq<u64>) returns (r: seq<u64>, carry: u64)
    requires |t| == 5 && Below(t, 0x8000_0000_0000_0000)
    ensures |r| == 5 && Below(r, RADIX) && carry <= 0x1000
    ensures Sum(r, 5) + carry * Weight(5) == Sum(t, 5)
  {
    r, carry := t, 0;
    var i := 0;
    while i < 5
      invariant 0 <= i <= 5 && |r| == 5 && carry <= 0x1000
      invariant forall k :: 0 <= k < i ==> 0 <= r[k] < RADIX
      invariant forall k :: i <= k < 5 ==> r[k] == t[k]
      invariant Sum(r, i) + carry * Weight(i) == Sum(t, i)
    {
      ghost var before := r;
      var limb: u64 := r[i] + carry;
      CarryMoves(limb, Weight(i));
      AddOut(t[i], carry, Weight(i));
      r := r[i := limb % RADIX];
      SumSame(before, r, i);
      carry := limb / RADIX;
      i := i + 1;
    }
  }

  lemma AddOut(a: int, b: int, w: int)
    ensures (a + b) * w == a * w + b * w
  {}

  lemma SumFirst(t: seq<int>, x: int)
    requires |t| == 5
    ensures Sum(t[0 := t[0] + x], 5) == Sum(t, 5) + x
  {
    SumFive(t);
    SumFive(t[0 := t[0] + x]);
  }

  lemma SumLow(t: seq<int>)
    requires |t| == 5 && forall i :: 0 <= i < 5 ==> 0 <= t[i]
    ensures t[0] <= Sum(t, 5)
  {
    SumFive(t);
    Weights();
  }

  /** How far `reduce` has settled the limbs after each of its two passes. */
  predicate Settling(t: seq<int>, pass: nat)
  {
    && |t| == 5 && Below(t, 0x8000_0000_0000_0000)
    && (pass >= 1 ==> t[0] < RADIX + 19 * 0x1000 && forall i :: 1 <= i < 5 ==> t[i] < RADIX)
    && (pass >= 2 ==> Below(t, RADIX))
  }

  /** The second pass can carry at most once, and then the low limb has room for it. */
  lemma SecondPass(t: seq<int>, r: seq<int>, carry: int)
    requires Settling(t, 1) && |r| == 5 && Below(r, RADIX) && carry >= 0 && Sum(r, 5) + carry * Weight(5) == Sum(t, 5)
    ensures r[0] + 19 * carry < RADIX
  {
    SumLow(r);
    SumFive(t);
    Weights();
    assert Sum(t, 5) < Weight(5) + 19 * 0x1000;
  }

  /** `reduce`: settled limbs, the same value modulo p. */
  method Reduce(f: Fe) returns (r: Fe)
    requires Loose(f)
    ensures Small(r) && Cong(Value(r), Value(f))
  {
    var t := f.limbs;
    var pass := 0;
    while pass < 2
      invariant 0 <= pass <= 2 && Settling(t, pass) && Cong(Sum(t, 5), Value(f))
    {
      var u, carry := CarryPass(t);
      if pass == 1 {
        SecondPass(t, u, carry);
      }
      Weights();
      SumFirst(u, 19 * carry);
      CongBy(Sum(u[0 := u[0] + 19 * carry], 5), Sum(t, 5), -(carry as int));
      t := u[0 := u[0] + 19 * carry];
      pass := pass + 1;
    }
    r := Fe(t);
  }

  // ----- addition and subtraction -----

  lemma SumAdd(a: seq<int>, b: seq<int>, c: seq<int>)
    requires |a| == |b| == |c| == 5 && forall i :: 0 <= i < 5 ==> c[i] == a[i] + b[i]
    ensures Sum(c, 5) == Sum(a, 5) + Sum(b, 5)
  {
    SumFive(a);
    SumFive(b);
    SumFive(c);
    Weights();
  }

  method Add(a: Fe, b: Fe) returns (r: Fe)
    requires Small(a) && Small(b)
    ensures Small(r) && Cong(Value(r), Value(a) + Value(b))
  {
    var out: seq<u64> := [0, 0, 0, 0, 0];
    for i := 0 to 5
      invariant |out| == 5 && forall k :: 0 <= k < i ==> out[k] == a.limbs[k] + b.limbs[k]
    {
      out := out[i := a.limbs[i] + b.limbs[i]];
    }
    SumAdd(a.limbs, b.limbs, out);
    r := Reduce(Fe(out));
  }

  /** The limbs of 2p. */
  const TWICE_P := [0xf_ffff_ffff_ffda, 0xf_ffff_ffff_fffe, 0xf_ffff_ffff_fffe, 0xf_ffff_ffff_fffe, 0xf_ffff_ffff_fffe]

  lemma SumSub(a: seq<int>, b: seq<int>, c: seq<int>)
    requires |a| == |b| == |c| == 5 && forall i :: 0 <= i < 5 ==> c[i] == a[i] + TWICE_P[i] - b[i]
    ensures Sum(c, 5) == Sum(a, 5) - Sum(b, 5) + 2 * P
  {
    SumFive(a);
    SumFive(b);
    SumFive(c);
    Weights();
  }

  method Sub(a: Fe, b: Fe) returns (r: Fe)
    requires Small(a) && Small(b)
    ensures Small(r) && Cong(Value(r), Value(a) - Value(b))
  {
    var out: seq<u64> := [0, 0, 0, 0, 0];
    out := out[0 := a.limbs[0] + 0xf_ffff_ffff_ffda - b.limbs[0]];
    for i := 1 to 5
      invariant |out| == 5 && forall k :: 0 <= k < i ==> out[k] == a.limbs[k] + TWICE_P[k] - b.limbs[k]
    {
      out := out[i := a.limbs[i] + 0xf_ffff_ffff_fffe - b.limbs[i]];
    }
    SumSub(a.limbs, b.limbs, out);
    CongBy(Sum(out, 5), Value(a) - Value(b), 2);
    r := Reduce(Fe(out));
  }

  method Neg(a: Fe) returns (r: Fe)
    requires Small(a)
    ensures Small(r) && Cong(Value(r), -Value(a))
  {
    SumFive(ZERO.limbs);
    r := Sub(ZERO, a);
  }

  // ----- multiplication -----

  /** Row `i` of the schoolbook product in column `k`; what falls past the top wraps around nineteen-fold. */
  function Term(a: seq<int>, b: seq<int>, i: nat, k: nat): int
    requires |a| == |b| == 5 && i < 5 && k < 5
  {
    if k >= i then a[i] * b[k - i] else a[i] * (b[k - i + 5] * 19)
  }

  /** Column `k` over the first `i` rows. */
  function Column(a: seq<int>, b: seq<int>, i: nat, k: nat): int
    requires |a| == |b| == 5 && i <= 5 && k < 5
  {
    if i == 0 then 0 else Column(a, b, i - 1, k) + Term(a, b, i - 1, k)
  }

  function RowSum(a: seq<int>, b: seq<int>, i: nat): int
    requires |a| == |b| == 5 && i < 5
  {
    Term(a, b, i, 0) + Term(a, b, i, 1) * Weight(1) + Term(a, b, i, 2) * Weight(2) + Term(a, b, i, 3) * Weight(3) + Term(a, b, i, 4) * Weight(4)
  }

  lemma Spread(x: int, b: seq<int>)
    requires |b| == 5
    ensures x * Sum(b, 5) == x * b[0] + (x * b[1]) * Weight(1) + (x * b[2]) * Weight(2) + (x * b[3]) * Weight(3) + (x * b[4]) * Weight(4)
  {
    SumFive(b);
    var s1, s2, s3, s4 := b[1] * Weight(1), b[2] * Weight(2), b[3] * Weight(3), b[4] * Weight(4);
    assert x * (b[0] + s1 + s2 + s3 + s4) == x * b[0] + x * s1 + x * s2 + x * s3 + x * s4;
    Assoc(x, b[1], Weight(1));
    Assoc(x, b[2], Weight(2));
    Assoc(x, b[3], Weight(3));
    Assoc(x, b[4], Weight(4));
  }

  lemma Assoc(x: int, y: int, w: int)
    ensures x * (y * w) == (x * y) * w
  {}

  /** What row `i` sends past the top. */
  function Over(a: seq<int>, b: seq<int>, i: nat): int
    requires |a| == |b| == 5 && i < 5
  {
    if i == 0 then 0
    else if i == 1 then a[1] * b[4]
    else if i == 2 then a[2] * b[3] + (a[2] * b[4]) * Weight(1)
    else if i == 3 then a[3] * b[2] + (a[3] * b[3]) * Weight(1) + (a[3] * b[4]) * Weight(2)
    else a[4] * b[1] + (a[4] * b[2]) * Weight(1) + (a[4] * b[3]) * Weight(2) + (a[4] * b[4]) * Weight(3)
  }

  /** A row, folded: only a multiple of p is lost. */
  lemma RowFolds(a: seq<int>, b: seq<int>, i: nat)
    requires |a| == |b| == 5 && i < 5
    ensures a[i] * Sum(b, 5) * Weight(i) == RowSum(a, b, i) + P * Over(a, b, i)
  {
    hide *;
    var p := seq(5, j requires 0 <= j < 5 => a[i] * b[j]);
    Spread(a[i], b);
    Weights();
    RowSumIs(a, b, i, p);
    OverIs(a, b, i, p);
    RowMath(p, i);
  }

  /** The products of one row, by the column each lands in. */
  function Rotated(p: seq<int>, i: nat): int
    requires |p| == 5 && i < 5
  {
    if i == 0 then p[0] + p[1] * Weight(1) + p[2] * Weight(2) + p[3] * Weight(3) + p[4] * Weight(4)
    else if i == 1 then 19 * p[4] + p[0] * Weight(1) + p[1] * Weight(2) + p[2] * Weight(3) + p[3] * Weight(4)
    else if i == 2 then 19 * p[3] + 19 * p[4] * Weight(1) + p[0] * Weight(2) + p[1] * Weight(3) + p[2] * Weight(4)
    else if i == 3 then 19 * p[2] + 19 * p[3] * Weight(1) + 19 * p[4] * Weight(2) + p[0] * Weight(3) + p[1] * Weight(4)
    else 19 * p[1] + 19 * p[2] * Weight(1) + 19 * p[3] * Weight(2) + 19 * p[4] * Weight(3) + p[0] * Weight(4)
  }

  function Past(p: seq<int>, i: nat): int
    requires |p| == 5 && i < 5
  {
    if i == 0 then 0
    else if i == 1 then p[4]
    else if i == 2 then p[3] + p[4] * Weight(1)
    else if i == 3 then p[2] + p[3] * Weight(1) + p[4] * Weight(2)
    else p[1] + p[2] * Weight(1) + p[3] * Weight(2) + p[4] * Weight(3)
  }

  lemma RowMath(p: seq<int>, i: nat)
    requires |p| == 5 && i < 5
    ensures (p[0] + p[1] * Weight(1) + p[2] * Weight(2) + p[3] * Weight(3) + p[4] * Weight(4)) * Weight(i) == Rotated(p, i) + P * Past(p, i)
  {
    Weights();
    hide Weight;
    if i == 0 {
    } else if i == 1 {
    } else if i == 2 {
    } else if i == 3 {
    } else {
    }
  }

  lemma RowSumIs(a: seq<int>, b: seq<int>, i: nat, p: seq<int>)
    requires |a| == |b| == |p| == 5 && i < 5 && forall j :: 0 <= j < 5 ==> p[j] == a[i] * b[j]
    ensures RowSum(a, b, i) == Rotated(p, i)
  {
    Nineteen(a, b, i);
    hide Weight;
  }

  lemma OverIs(a: seq<int>, b: seq<int>, i: nat, p: seq<int>)
    requires |a| == |b| == |p| == 5 && i < 5 && forall j :: 0 <= j < 5 ==> p[j] == a[i] * b[j]
    ensures Over(a, b, i) == Past(p, i)
  {
    hide Weight;
  }

  lemma Nineteen(a: seq<int>, b: seq<int>, i: nat)
    requires |a| == |b| == 5 && i < 5
    ensures forall j :: 0 <= j < 5 ==> a[i] * (b[j] * 19) == 19 * (a[i] * b[j])
  {
    forall j | 0 <= j < 5 ensures a[i] * (b[j] * 19) == 19 * (a[i] * b[j]) {
      Assoc(a[i], b[j], 19);
    }
  }

  lemma ColumnsAreRows(a: seq<int>, b: seq<int>, c: seq<int>)
    requires |a| == |b| == |c| == 5 && forall k :: 0 <= k < 5 ==> c[k] == Column(a, b, 5, k)
    ensures Sum(c, 5) == RowSum(a, b, 0) + RowSum(a, b, 1) + RowSum(a, b, 2) + RowSum(a, b, 3) + RowSum(a, b, 4)
  {
    SumFive(c);
    Weights();
    ColumnFive(a, b, 0);
    ColumnFive(a, b, 1);
    ColumnFive(a, b, 2);
    ColumnFive(a, b, 3);
    ColumnFive(a, b, 4);
  }

  lemma ColumnFive(a: seq<int>, b: seq<int>, k: nat)
    requires |a| == |b| == 5 && k < 5
    ensures Column(a, b, 5, k) == Term(a, b, 0, k) + Term(a, b, 1, k) + Term(a, b, 2, k) + Term(a, b, 3, k) + Term(a, b, 4, k)
  {
    assert Column(a, b, 5, k) == Column(a, b, 4, k) + Term(a, b, 4, k);
    assert Column(a, b, 4, k) == Column(a, b, 3, k) + Term(a, b, 3, k);
    assert Column(a, b, 3, k) == Column(a, b, 2, k) + Term(a, b, 2, k);
    assert Column(a, b, 2, k) == Column(a, b, 1, k) + Term(a, b, 1, k);
  }

  /** The five folded columns stand for the product modulo p. */
  lemma ProductFolds(a: seq<int>, b: seq<int>, c: seq<int>)
    requires |a| == |b| == |c| == 5 && forall k :: 0 <= k < 5 ==> c[k] == Column(a, b, 5, k)
    ensures Sum(a, 5) * Sum(b, 5) == Sum(c, 5) + P * OverAll(a, b)
  {
    hide *;
    var s := Sum(b, 5);
    RowFolds(a, b, 0);
    RowFolds(a, b, 1);
    RowFolds(a, b, 2);
    RowFolds(a, b, 3);
    RowFolds(a, b, 4);
    ColumnsAreRows(a, b, c);
    SumTimes(a, s);
    OverAllIs(a, b);
    Gathered(Over(a, b, 0), Over(a, b, 1), Over(a, b, 2), Over(a, b, 3), Over(a, b, 4));
  }

  lemma Gathered(a: int, b: int, c: int, d: int, e: int)
    ensures P * (a + b + c + d + e) == P * a + P * b + P * c + P * d + P * e
  {}

  /** How many times p the five rows lose together. */
  function OverAll(a: seq<int>, b: seq<int>): int
    requires |a| == |b| == 5
  {
    Over(a, b, 0) + Over(a, b, 1) + Over(a, b, 2) + Over(a, b, 3) + Over(a, b, 4)
  }

  lemma OverAllIs(a: seq<int>, b: seq<int>)
    requires |a| == |b| == 5
    ensures OverAll(a, b) == Over(a, b, 0) + Over(a, b, 1) + Over(a, b, 2) + Over(a, b, 3) + Over(a, b, 4)
  {
    hide Over;
  }

  lemma SumTimes(a: seq<int>, s: int)
    requires |a| == 5
    ensures Sum(a, 5) * s == a[0] * s * Weight(0) + a[1] * s * Weight(1) + a[2] * s * Weight(2) + a[3] * s * Weight(3) + a[4] * s * Weight(4)
  {
    Spread(s, a);
    assert Weight(0) == 1;
    assert s * a[0] == a[0] * s && s * a[1] == a[1] * s && s * a[2] == a[2] * s && s * a[3] == a[3] * s && s * a[4] == a[4] * s;
  }

  const COLUMN := 19 * RADIX * RADIX

  lemma TermBounds(a: seq<int>, b: seq<int>, i: nat, k: nat)
    requires |a| == |b| == 5 && i < 5 && k < 5 && Below(a, RADIX) && Below(b, RADIX)
    ensures 0 <= Term(a, b, i, k) < COLUMN
  {
    var y := if k >= i then b[k - i] else b[k - i + 5] * 19;
    ProductBelow(a[i], y);
  }

  lemma ProductBelow(x: int, y: int)
    requires 0 <= x < RADIX && 0 <= y < 19 * RADIX
    ensures 0 <= x * y < COLUMN
  {
    Grow(x, RADIX - 1, y);
  }

  lemma {:induction false} ColumnBounds(a: seq<int>, b: seq<int>, i: nat, k: nat)
    requires |a| == |b| == 5 && i <= 5 && k < 5 && Below(a, RADIX) && Below(b, RADIX)
    ensures 0 <= Column(a, b, i, k) <= i * COLUMN
  {
    if i > 0 {
      ColumnBounds(a, b, i - 1, k);
      TermBounds(a, b, i - 1, k);
    }
  }

  /** Which step of row `i` reaches column `k`. */
  function StepOf(i: nat, k: nat): nat
    requires i < 5 && k < 5
  {
    if k >= i then k - i else k - i + 5
  }

  /** The columns of the product, row by row. */
  method Columns(a: seq<u64>, b: seq<u64>) returns (c: seq<u128>)
    requires |a| == |b| == 5 && Below(a, RADIX) && Below(b, RADIX)
    ensures |c| == 5 && forall k :: 0 <= k < 5 ==> c[k] == Column(a, b, 5, k) <= 5 * COLUMN
  {
    var b19: seq<u64> := [b[0], b[1] * 19, b[2] * 19, b[3] * 19, b[4] * 19];
    c := [0, 0, 0, 0, 0];
    var i := 0;
    while i < 5
      invariant 0 <= i <= 5 && |c| == 5 && forall k :: 0 <= k < 5 ==> c[k] == Column(a, b, i, k)
    {
      var j := 0;
      while j < 5
        invariant 0 <= j <= 5 && |c| == 5
        invariant forall k :: 0 <= k < 5 ==>
                    c[k] == Column(a, b, i, k) + if StepOf(i, k) < j then Term(a, b, i, k) else 0
      {
        var k := if i + j < 5 then i + j else i + j - 5;
        ColumnBounds(a, b, i, k);
        TermBounds(a, b, i, k);
        var product: u128 := if i + j < 5 then (a[i] as int) * (b[j] as int) else (a[i] as int) * (b19[j] as int);
        c := c[k := c[k] + product];
        j := j + 1;
      }
      i := i + 1;
    }
    forall k | 0 <= k < 5 ensures Column(a, b, 5, k) <= 5 * COLUMN {
      ColumnBounds(a, b, 5, k);
    }
  }

  lemma LowBits(v: nat)
    ensures v % 0x1_0000_0000_0000_0000 % RADIX == v % RADIX
  {
    var q, r := v / 0x1_0000_0000_0000_0000, v % 0x1_0000_0000_0000_0000;
    assert r == r / RADIX * RADIX + r % RADIX;
    assert v == (q * 0x2000 + r / RADIX) * RADIX + r % RADIX;
  }

  /** Carries the columns down to limbs; the last carry wraps around nineteen-fold. */
  method FoldColumns(c: seq<u128>) returns (r: seq<u64>)
    requires |c| == 5 && forall k :: 0 <= k < 5 ==> c[k] <= 5 * COLUMN
    ensures |r| == 5 && Below(r, 0x8000_0000_0000_0000) && Cong(Sum(r, 5), Sum(c, 5))
  {
    var out: seq<u64> := [0, 0, 0, 0, 0];
    var carry: u128 := 0;
    var i := 0;
    while i < 5
      invariant 0 <= i <= 5 && |out| == 5 && Below(out, RADIX) && carry <= 96 * RADIX
      invariant Sum(out, i) + carry * Weight(i) == Sum(c, i)
    {
      ghost var before := out;
      var value: u128 := c[i] + carry;
      CarryMoves(value, Weight(i));
      AddOut(c[i], carry, Weight(i));
      LowBits(value);
      out := out[i := value % 0x1_0000_0000_0000_0000 % RADIX];
      SumSame(before, out, i);
      carry := value / RADIX;
      i := i + 1;
    }
    Weights();
    SumFirst(out, 19 * carry);
    CongBy(Sum(out[0 := out[0] + 19 * carry], 5), Sum(c, 5), -(carry as int));
    r := out[0 := out[0] + 19 * carry];
  }

  method Mul(x: Fe, y: Fe) returns (r: Fe)
    requires Loose(x) && Loose(y)
    ensures Small(r) && Cong(Value(r), Value(x) * Value(y))
  {
    var a := Reduce(x);
    var b := Reduce(y);
    var c := Columns(a.limbs, b.limbs);
    ProductFolds(a.limbs, b.limbs, c);
    CongBy(Value(a) * Value(b), Sum(c, 5), OverAll(a.limbs, b.limbs));
    CongMul(Value(a), Value(x), Value(b), Value(y));
    var out := FoldColumns(c);
    r := Reduce(Fe(out));
  }

  method Square(x: Fe) returns (r: Fe)
    requires Loose(x)
    ensures Small(r) && Cong(Value(r), Value(x) * Value(x))
  {
    r := Mul(x, x);
  }
}
