/** Arithmetic modulo a prime: no zero divisors, and Fermat's little theorem. */
module PrimeField {

  function Pow(x: int, n: nat): int { if n == 0 then 1 else x * Pow(x, n - 1) }

  lemma {:induction false} PowAdd(x: int, m: nat, n: nat)
    ensures Pow(x, m + n) == Pow(x, m) * Pow(x, n)
  {
    if m > 0 {
      PowAdd(x, m - 1, n);
      Assoc3(x, Pow(x, m - 1), Pow(x, n));
    }
  }

  lemma Assoc3(a: int, b: int, c: int)
    ensures a * (b * c) == a * b * c
  {}

  lemma {:induction false} PowTimes(x: int, y: int, n: nat)
    ensures Pow(x * y, n) == Pow(x, n) * Pow(y, n)
  {
    if n > 0 {
      PowTimes(x, y, n - 1);
      var a, b := Pow(x, n - 1), Pow(y, n - 1);
      assert x * y * (a * b) == (x * a) * (y * b) by {
        Assoc3(x * y, a, b);
        assert x * y * a == x * a * y;
        Assoc3(x * a, y, b);
      }
    }
  }

  ghost predicate Divides(d: int, n: int) { exists k :: n == d * k }

  ghost predicate Prime(p: nat)
  {
    p > 1 && forall d: nat :: Divides(d, p) ==> d == 1 || d == p
  }

  // ----- no zero divisors -----

  lemma DividesBy(d: int, n: int, k: int)
    requires n == d * k
    ensures Divides(d, n)
  {}

  lemma DividesCombined(p: int, x: int, y: int, a: int, b: int)
    requires Divides(p, x) && Divides(p, y)
    ensures Divides(p, a * x + b * y)
  {
    var k :| x == p * k;
    var m :| y == p * m;
    assert a * (p * k) == p * (a * k) && b * (p * m) == p * (b * m);
    DividesBy(p, a * x + b * y, a * k + b * m);
  }

  /** A positive number whose multiple of `b` is a multiple of `p`. */
  ghost predicate Kills(p: nat, b: int, d: nat) { d > 0 && Divides(p, d * b) }

  lemma {:induction false} LeastKiller(p: nat, b: int, n: nat) returns (d: nat)
    requires Kills(p, b, n)
    ensures Kills(p, b, d) && forall e: nat :: e < d ==> !Kills(p, b, e)
    decreases n
  {
    if e: nat :| e < n && Kills(p, b, e) {
      d := LeastKiller(p, b, e);
    } else {
      d := n;
    }
  }

  /** The least killer divides every killer. */
  lemma LeastDivides(p: nat, b: int, d: nat, n: nat)
    requires Kills(p, b, d) && (forall e: nat :: e < d ==> !Kills(p, b, e)) && Divides(p, n * b)
    ensures Divides(d, n)
  {
    var q, r := n / d, n % d;
    assert n == d * q + r;
    RemainderTimes(n, d, q, r, b);
    DividesCombined(p, n * b, d * b, 1, -q);
    assert !Kills(p, b, r);
    assert r == 0;
    DividesBy(d, n, q);
  }

  lemma RemainderTimes(n: int, d: int, q: int, r: int, b: int)
    requires n == d * q + r
    ensures r * b == 1 * (n * b) + (-q) * (d * b)
  {
    assert (d * q + r) * b == d * q * b + r * b;
    assert q * (d * b) == d * q * b;
  }

  /** A prime that divides a product divides one of its factors. */
  lemma Euclid(p: nat, a: nat, b: int)
    requires Prime(p) && Divides(p, a * b)
    ensures Divides(p, a) || Divides(p, b)
  {
    DividesBy(p, p * b, b);
    var d := LeastKiller(p, b, p);
    LeastDivides(p, b, d, p);
    LeastDivides(p, b, d, a);
    if d == 1 {
      assert 1 * b == b;
    }
  }

  // ----- Fermat -----

  /** The product of a set of numbers. */
  ghost function Product(s: set<nat>): nat
  {
    if s == {} then 1 else
    var x :| x in s;
    x * Product(s - {x})
  }

  /** Any element may be taken out first. */
  lemma {:induction false} ProductTakes(s: set<nat>, y: nat)
    requires y in s
    ensures Product(s) == y * Product(s - {y})
    decreases s
  {
    var x := ProductSome(s);
    if x != y {
      hide Product;
      ProductTakes(s - {x}, y);
      ProductTakes(s - {y}, x);
      assert s - {x} - {y} == s - {y} - {x};
      Swap(x, y, Product(s - {x} - {y}));
    }
  }

  lemma ProductSome(s: set<nat>) returns (x: nat)
    requires s != {}
    ensures x in s && Product(s) == x * Product(s - {x})
  {
    x :| x in s && Product(s) == x * Product(s - {x});
  }

  lemma Swap(x: int, y: int, r: int)
    ensures x * (y * r) == y * (x * r)
  {}

  /** The residues of the multiples of `a` by a set of numbers. */
  ghost function Multiples(p: nat, a: nat, s: set<nat>): set<nat>
    requires p > 0
  {
    set k | k in s :: (a * k) % p
  }

  /** 1 to n. */
  function Upto(n: nat): set<nat> { if n == 0 then {} else Upto(n - 1) + {n} }

  lemma {:induction false} UptoIs(n: nat)
    ensures |Upto(n)| == n && forall k: nat :: k in Upto(n) <==> 1 <= k <= n
  {
    if n > 0 {
      UptoIs(n - 1);
    }
  }

  lemma SmallNotDivided(p: nat, k: int)
    requires 0 - p < k < p && k != 0
    ensures !Divides(p, k)
  {
    if Divides(p, k) {
      var m :| k == p * m;
      Scaled(p, m);
    }
  }

  lemma Scaled(p: nat, m: int)
    ensures m >= 1 ==> p * m >= p
    ensures m <= -1 ==> p * m <= 0 - p
    ensures m == 0 ==> p * m == 0
  {}

  /** Multiplying by `a` does not confuse two residues. */
  lemma MultiplesApart(p: nat, a: nat, j: nat, k: nat)
    requires Prime(p) && !Divides(p, a) && j < p && k < p && (a * j) % p == (a * k) % p
    ensures j == k
  {
    var x, y := a * j, a * k;
    assert x - y == p * (x / p - y / p) by {
      assert x == p * (x / p) + x % p && y == p * (y / p) + y % p;
      assert p * (x / p) - p * (y / p) == p * (x / p - y / p);
    }
    assert x - y == a * (j - k);
    DividesBy(p, a * (j - k), x / p - y / p);
    Euclid(p, a, j - k);
    if j != k {
      SmallNotDivided(p, j - k);
    }
  }

  /** So it rearranges the residues 1 to p - 1. */
  lemma {:induction false} MultiplesInside(p: nat, a: nat, s: set<nat>)
    requires Prime(p) && !Divides(p, a) && forall k :: k in s ==> 1 <= k < p
    ensures forall r :: r in Multiples(p, a, s) ==> 1 <= r < p
    ensures |Multiples(p, a, s)| == |s|
    decreases s
  {
    forall r | r in Multiples(p, a, s)
      ensures 1 <= r < p
    {
      var k :| k in s && r == (a * k) % p;
      if r == 0 {
        assert (a * k) % p == (a * 0) % p;
        MultiplesApart(p, a, k, 0);
      }
    }
    if s == {} {
      assert Multiples(p, a, s) == {};
    } else {
      var x :| x in s;
      MultiplesInside(p, a, s - {x});
      MultiplesSplit(p, a, s, x);
    }
  }

  lemma MultiplesSplit(p: nat, a: nat, s: set<nat>, x: nat)
    requires Prime(p) && !Divides(p, a) && x in s && forall k :: k in s ==> 1 <= k < p
    ensures (a * x) % p !in Multiples(p, a, s - {x})
    ensures Multiples(p, a, s) == Multiples(p, a, s - {x}) + {(a * x) % p}
  {
    if (a * x) % p in Multiples(p, a, s - {x}) {
      var k :| k in s - {x} && (a * x) % p == (a * k) % p;
      MultiplesApart(p, a, x, k);
    }
    assert s == (s - {x}) + {x};
  }

  lemma AllResidues(p: nat, a: nat)
    requires Prime(p) && !Divides(p, a)
    ensures Multiples(p, a, Upto(p - 1)) == Upto(p - 1)
  {
    UptoIs(p - 1);
    MultiplesInside(p, a, Upto(p - 1));
    Filled(Multiples(p, a, Upto(p - 1)), Upto(p - 1));
  }

  lemma Filled(a: set<nat>, b: set<nat>)
    requires a <= b && |a| == |b|
    ensures a == b
  {
    assert b == a + (b - a);
    assert |b| == |a| + |b - a|;
    assert b - a == {};
  }

  /** The product of the residues is the product of the numbers times a power of `a`. */
  lemma {:induction false} ProductOfMultiples(p: nat, a: nat, s: set<nat>)
    requires Prime(p) && !Divides(p, a) && forall k :: k in s ==> 1 <= k < p
    ensures Divides(p, Product(Multiples(p, a, s)) - Pow(a, |s|) * Product(s))
    decreases s
  {
    if s == {} {
      assert Multiples(p, a, s) == {};
      DividesBy(p, 0, 0);
    } else {
      var x :| x in s;
      var rest := s - {x};
      ProductOfMultiples(p, a, rest);
      MultiplesSplit(p, a, s, x);
      var r, m := (a * x) % p, Multiples(p, a, rest);
      ProductTakes(s, x);
      ProductTakes(Multiples(p, a, s), r);
      assert Multiples(p, a, s) - {r} == m;
      assert |s| == |rest| + 1;
      hide Product, Multiples, Divides;
      TermMoves(p, a, x, r, Product(m), Pow(a, |rest|), Product(rest));
    }
  }

  lemma TermMoves(p: nat, a: int, x: int, r: int, m: int, power: int, rest: int)
    requires p > 0 && r == (a * x) % p && Divides(p, m - power * rest)
    ensures Divides(p, r * m - a * power * (x * rest))
  {
    var y := a * x;
    DividesBy(p, y - r, y / p);
    DividesCombined(p, m - power * rest, y - r, r, 0 - power * rest);
    TermMath(a, x, r, m, power, rest);
  }

  lemma TermMath(a: int, x: int, r: int, m: int, power: int, rest: int)
    ensures r * (m - power * rest) + (0 - power * rest) * (a * x - r) == r * m - a * power * (x * rest)
  {
    var w := power * rest;
    assert r * (m - w) == r * m - r * w;
    assert (0 - w) * (a * x - r) == r * w - w * (a * x);
    assert w * (a * x) == a * power * (x * rest) by {
      assert power * rest * (a * x) == a * power * (x * rest) by {
        Assoc3(power * rest, a, x);
        assert power * rest * a == a * power * rest;
        Assoc3(a * power, rest, x);
      }
    }
  }

  lemma {:induction false} ProductNotDivided(p: nat, s: set<nat>)
    requires Prime(p) && forall k :: k in s ==> 1 <= k < p
    ensures !Divides(p, Product(s))
    decreases s
  {
    if s == {} {
      SmallNotDivided(p, 1);
    } else {
      var x := ProductSome(s);
      ProductNotDivided(p, s - {x});
      SmallNotDivided(p, x);
      if Divides(p, Product(s)) {
        Euclid(p, x, Product(s - {x}));
      }
    }
  }

  /** Fermat's little theorem. */
  lemma Fermat(p: nat, a: nat)
    requires Prime(p) && !Divides(p, a)
    ensures Divides(p, Pow(a, p - 1) - 1)
  {
    hide *;
    PrimeFacts(p);
    var all := Upto(p - 1);
    UptoIs(p - 1);
    AllResidues(p, a);
    ProductOfMultiples(p, a, all);
    ProductNotDivided(p, all);
    Cancel(p, Product(all), Pow(a, p - 1));
  }

  lemma PrimeFacts(p: nat)
    requires Prime(p)
    ensures p > 1
  {}

  lemma Cancel(p: nat, f: nat, g: int)
    requires Prime(p) && Divides(p, f - g * f) && !Divides(p, f)
    ensures Divides(p, g - 1)
  {
    hide *;
    assert f * (g - 1) == (0 - 1) * (f - g * f) + 0 * (f - g * f);
    DividesCombined(p, f - g * f, f - g * f, -1, 0);
    Euclid(p, f, g - 1);
  }
}
