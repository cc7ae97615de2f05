/** Inverses and square roots of ratios modulo a prime, by powering. */
module SquareRoots {
  import opened PrimeField

  /** Equal modulo `p`. */
  ghost predicate Eq(p: nat, x: int, y: int) { Divides(p, x - y) }

  lemma EqSame(p: nat, x: int)
    ensures Eq(p, x, x)
  {
    DividesBy(p, x - x, 0);
  }

  lemma EqBack(p: nat, x: int, y: int)
    requires Eq(p, x, y)
    ensures Eq(p, y, x)
  {
    DividesCombined(p, x - y, x - y, -1, 0);
  }

  lemma EqChain(p: nat, x: int, y: int, z: int)
    requires Eq(p, x, y) && Eq(p, y, z)
    ensures Eq(p, x, z)
  {
    DividesCombined(p, x - y, y - z, 1, 1);
  }

  lemma EqTimes(p: nat, x: int, y: int, u: int, v: int)
    requires Eq(p, x, y) && Eq(p, u, v)
    ensures Eq(p, x * u, y * v)
  {
    DividesCombined(p, x - y, u - v, u, y);
    assert u * (x - y) + y * (u - v) == x * u - y * v;
  }

  lemma {:induction false} EqPow(p: nat, x: int, y: int, n: nat)
    requires Eq(p, x, y)
    ensures Eq(p, Pow(x, n), Pow(y, n))
  {
    hide Eq;
    if n == 0 {
      EqSame(p, 1);
    } else {
      EqPow(p, x, y, n - 1);
      EqTimes(p, x, y, Pow(x, n - 1), Pow(y, n - 1));
    }
  }

  lemma EqRest(p: nat, x: int)
    requires p > 0
    ensures Eq(p, x, x % p)
  {
    DividesBy(p, x - x % p, x / p);
  }

  lemma NoZeroDivisors(p: nat, a: int, b: int)
    requires Prime(p) && Eq(p, a * b, 0)
    ensures Eq(p, a, 0) || Eq(p, b, 0)
  {
    hide Eq, Prime;
    PrimeFacts(p);
    EqRest(p, a);
    EqSame(p, b);
    EqTimes(p, a, a % p, b, b);
    EqBack(p, a * b, a % p * b);
    EqChain(p, a % p * b, a * b, 0);
    EuclidEq(p, a % p, b);
    if Eq(p, a % p, 0) {
      EqChain(p, a, a % p, 0);
    }
  }

  lemma EuclidEq(p: nat, a: nat, b: int)
    requires Prime(p) && Eq(p, a * b, 0)
    ensures Eq(p, a, 0) || Eq(p, b, 0)
  {
    hide Divides, Prime;
    Euclid(p, a, b);
  }

  lemma FermatEq(p: nat, z: int)
    requires Prime(p) && !Eq(p, z, 0)
    ensures Eq(p, Pow(z, p - 1), 1)
  {
    hide Pow, Prime;
    PrimeFacts(p);
    EqRest(p, z);
    if Eq(p, z % p, 0) {
      EqChain(p, z, z % p, 0);
    }
    assert !Divides(p, z % p) by {
      assert z % p - 0 == z % p;
    }
    Fermat(p, z % p);
    EqPow(p, z, z % p, p - 1);
    EqChain(p, Pow(z, p - 1), Pow(z % p, p - 1), 1);
  }

  /** A nonzero number times its power p - 2 is 1. */
  lemma InverseByPower(p: nat, z: int)
    requires Prime(p) && !Eq(p, z, 0)
    ensures p > 1 && Eq(p, z * Pow(z, p - 2), 1)
  {
    PrimeFacts(p);
    FermatEq(p, z);
    OneMorePower(z, p - 2);
  }

  lemma OneMorePower(z: int, n: nat)
    ensures Pow(z, n + 1) == z * Pow(z, n)
  {}

  lemma SquareOne(p: nat, e: int)
    requires Prime(p) && Eq(p, e * e, 1)
    ensures Eq(p, e, 1) || Eq(p, e, -1)
  {
    hide Prime;
    assert (e - 1) * (e + 1) == e * e - 1;
    NoZeroDivisors(p, e - 1, e + 1);
  }

  lemma PowDouble(x: int, n: nat)
    ensures Pow(x, n) * Pow(x, n) == Pow(x, 2 * n) == Pow(x * x, n)
  {
    PowAdd(x, n, n);
    PowTimes(x, x, n);
  }

  /** Dividing by `m`, whose inverse is `inv`. */
  lemma Ratio(p: nat, w: int, n: int, m: int, inv: int)
    requires Eq(p, m * inv, 1) && Eq(p, w * m, n)
    ensures Eq(p, n * inv * m, n) && Eq(p, w, n * inv)
  {
    hide Eq;
    EqSame(p, n);
    EqTimes(p, n, n, m * inv, 1);
    assert n * (m * inv) == n * inv * m;
    EqSame(p, inv);
    EqTimes(p, w * m, n, inv, inv);
    EqSame(p, w);
    EqTimes(p, w, w, m * inv, 1);
    assert w * (m * inv) == w * m * inv;
    EqBack(p, w * m * inv, w);
    EqChain(p, w, w * m * inv, n * inv);
  }

  /** The candidate squared is the ratio times its own quarter power. */
  lemma CandidateSquared(p: nat, k: nat, r: int, n: int, m: int)
    requires Eq(p, r * m, n)
    ensures var c := Pow(r, k) * r; Eq(p, c * c * m, Pow(r, 2 * k + 1) * n)
  {
    hide Pow, Eq;
    var a := Pow(r, k);
    PowDouble(r, k);
    OneMorePower(r, 2 * k);
    assert (a * r) * (a * r) == r * (a * a) * r;
    Assoc3(r * (a * a), r, m);
    EqSame(p, r * (a * a));
    EqTimes(p, r * (a * a), r * (a * a), r * m, n);
  }

  /** A nonzero square's quarter power is 1 or -1. */
  lemma QuarterPower(p: nat, x: int, r: int, q: nat)
    requires Prime(p) && Eq(p, x * x, r) && !Eq(p, x, 0) && 4 * q == p - 1
    ensures Eq(p, Pow(r, q), 1) || Eq(p, Pow(r, q), -1)
  {
    hide Pow, Prime, Eq;
    var e := Pow(x * x, q);
    EqPow(p, x * x, r, q);
    PowDouble(x, q);
    PowDouble(x, 2 * q);
    FermatEq(p, x);
    SquareOne(p, e);
    EqBack(p, e, Pow(r, q));
    if Eq(p, e, 1) {
      EqChain(p, Pow(r, q), e, 1);
    } else {
      EqChain(p, Pow(r, q), e, -1);
    }
  }

  /** Times a root of -1, a candidate off by a sign is right. */
  lemma SignFixed(p: nat, c: int, i: int, n: int, m: int)
    requires Eq(p, i * i, -1) && Eq(p, c * c * m, -n)
    ensures Eq(p, (c * i) * (c * i) * m, n)
  {
    hide Eq;
    assert (c * i) * (c * i) * m == (c * c * m) * (i * i) by {
      assert (c * i) * (c * i) == (c * c) * (i * i);
      assert (c * c) * (i * i) * m == c * c * m * (i * i);
    }
    EqTimes(p, c * c * m, -n, i * i, -1);
    assert (-n) * (-1) == n;
  }

  lemma SignCases(p: nat, e: int, i: int, n: int, m: int, c: int)
    requires (Eq(p, e, 1) || Eq(p, e, -1)) && Eq(p, i * i, -1) && Eq(p, c * c * m, e * n)
    ensures Eq(p, c * c * m, n) || Eq(p, (c * i) * (c * i) * m, n)
  {
    hide Eq;
    EqSame(p, n);
    if Eq(p, e, 1) {
      EqTimes(p, e, 1, n, n);
      EqChain(p, c * c * m, e * n, n);
    } else {
      EqTimes(p, e, -1, n, n);
      EqChain(p, c * c * m, e * n, -n);
      SignFixed(p, c, i, n, m);
    }
  }

  lemma ZeroRoot(p: nat, x: int, n: int, m: int, c: int, e: int)
    requires Eq(p, x, 0) && Eq(p, x * x * m, n) && Eq(p, c * c * m, e * n)
    ensures Eq(p, c * c * m, n)
  {
    hide Eq;
    EqTimes(p, x, 0, x, 0);
    EqSame(p, m);
    EqTimes(p, x * x, 0, m, m);
    EqBack(p, x * x * m, n);
    EqChain(p, n, x * x * m, 0);
    EqSame(p, e);
    EqTimes(p, e, e, n, 0);
    EqChain(p, c * c * m, e * n, 0);
    EqBack(p, n, 0);
    EqChain(p, c * c * m, 0, n);
  }

  /** The root tried for `n / m` modulo a prime that is 5 modulo 8. */
  function Tried(p: nat, n: int, m: int): int
    requires p >= 5
  {
    var r := n * Pow(m, p - 2); Pow(r, (p - 5) / 8) * r
  }

  /** If `n / m` has a square root, the one tried is a root, or becomes one times a root of -1. */
  lemma RootOfRatio(p: nat, i: int, x: int, n: int, m: int)
    requires Prime(p) && p % 8 == 5 && Eq(p, i * i, -1) && Eq(p, x * x * m, n) && !Eq(p, m, 0)
    ensures var c := Tried(p, n, m); Eq(p, c * c * m, n) || Eq(p, (c * i) * (c * i) * m, n)
  {
    hide Pow, Prime, Eq;
    var inv, k := Pow(m, p - 2), (p - 5) / 8;
    var r := n * inv;
    var c := Pow(r, k) * r;
    InverseByPower(p, m);
    Ratio(p, x * x, n, m, inv);
    CandidateSquared(p, k, r, n, m);
    if Eq(p, x, 0) {
      ZeroRoot(p, x, n, m, c, Pow(r, 2 * k + 1));
    } else {
      QuarterPower(p, x, r, 2 * k + 1);
      SignCases(p, Pow(r, 2 * k + 1), i, n, m, c);
    }
  }

  /** Two roots of one ratio are equal or opposite. */
  lemma OppositeRoots(p: nat, x: int, w: int, m: int, n: int)
    requires Prime(p) && Eq(p, x * x * m, n) && Eq(p, w * w * m, n) && !Eq(p, m, 0)
    ensures Eq(p, x, w) || Eq(p, x, -w)
  {
    hide Prime, Eq;
    EqBack(p, w * w * m, n);
    EqChain(p, x * x * m, n, w * w * m);
    Difference(p, x * x * m, w * w * m);
    assert x * x * m - w * w * m == (x - w) * (x + w) * m by {
      assert x * x - w * w == (x - w) * (x + w);
      assert x * x * m - w * w * m == (x * x - w * w) * m;
    }
    NoZeroDivisors(p, (x - w) * (x + w), m);
    NoZeroDivisors(p, x - w, x + w);
    Difference(p, x, w);
    Difference(p, x, -w);
  }

  lemma Difference(p: nat, x: int, y: int)
    ensures Eq(p, x - y, 0) <==> Eq(p, x, y)
  {
    assert x - y - 0 == x - y;
  }
}
