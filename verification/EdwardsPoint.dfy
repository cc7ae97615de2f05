/** Compressed points of the Ed25519 curve: what decoding accepts, and that encoding gives it back. */
module EdwardsPoint {
  import opened Common
  import opened Bits
  import opened Endian
  import opened Field
  import opened FieldBytes
  import opened FieldPowers
  import opened PrimeField

  const D_BYTES: seq<byte> :=
    [0xa3, 0x78, 0x59, 0x13, 0xca, 0x4d, 0xeb, 0x75, 0xab, 0xd8, 0x41, 0x41, 0x4d, 0x0a, 0x70, 0x00,
     0x98, 0xe8, 0x79, 0x77, 0x79, 0x40, 0xc7, 0x8c, 0x73, 0xfe, 0x6f, 0x2b, 0xee, 0x6c, 0x03, 0x52]

  const SQRT_M1_BYTES: seq<byte> :=
    [0xb0, 0xa0, 0x0e, 0x4a, 0x27, 0x1b, 0xee, 0xc4, 0x78, 0xe4, 0x2f, 0xad, 0x06, 0x18, 0x43, 0x2f,
     0xa7, 0xd7, 0xfb, 0x3d, 0x99, 0x00, 0x4d, 0x2b, 0x0b, 0xdf, 0xc1, 0x4f, 0x80, 0x24, 0x83, 0x2b]

  const D: nat := 0x5203_6cee_2b6f_fe73_8cc7_4079_7779_e898_0070_0a4d_4141_d8ab_75eb_4dca_1359_78a3
  const SQRT_M1: nat := 0x2b83_2480_4fc1_df0b_2b4d_0099_3dfb_d7a7_2f43_1806_ad2f_e478_c4ee_1b27_4a0e_a0b0

  /** The bytes of `d` spell it, and it is -121665/121666. */
  lemma DIsTheQuotient()
    ensures |D_BYTES| == 32 && LittleEndian(D_BYTES) == D && Cong(D * 121666, -121665)
  {
    hide LittleEndian;
    Evaluate(D_BYTES);
    assert Four(D_BYTES, 0) == 0x135978a3;
    assert Four(D_BYTES, 4) == 0x75eb4dca;
    assert Four(D_BYTES, 8) == 0x4141d8ab;
    assert Four(D_BYTES, 12) == 0x700a4d;
    assert Four(D_BYTES, 16) == 0x7779e898;
    assert Four(D_BYTES, 20) == 0x8cc74079;
    assert Four(D_BYTES, 24) == 0x2b6ffe73;
    assert Four(D_BYTES, 28) == 0x52036cee;
    CongBy(D * 121666, -121665, 0x13083);
  }

  /** The bytes of the constant root spell it, and its square is -1. */
  lemma SqrtM1Squares()
    ensures |SQRT_M1_BYTES| == 32 && LittleEndian(SQRT_M1_BYTES) == SQRT_M1 && Cong(SQRT_M1 * SQRT_M1, -1)
  {
    hide LittleEndian;
    Evaluate(SQRT_M1_BYTES);
    assert Four(SQRT_M1_BYTES, 0) == 0x4a0ea0b0;
    assert Four(SQRT_M1_BYTES, 4) == 0xc4ee1b27;
    assert Four(SQRT_M1_BYTES, 8) == 0xad2fe478;
    assert Four(SQRT_M1_BYTES, 12) == 0x2f431806;
    assert Four(SQRT_M1_BYTES, 16) == 0x3dfbd7a7;
    assert Four(SQRT_M1_BYTES, 20) == 0x2b4d0099;
    assert Four(SQRT_M1_BYTES, 24) == 0x4fc1df0b;
    assert Four(SQRT_M1_BYTES, 28) == 0x2b832480;
    CongBy(SQRT_M1 * SQRT_M1, -1, 0xecaa2e2f6a2302ccedb31ac05720688238ced2078f3eb0ec9f22e8f621972e5);
  }

  /** Thirty-two bytes, four at a time. */
  lemma Evaluate(b: seq<byte>)
    requires |b| == 32
    ensures LittleEndian(b) == Four(b, 0) + 0x1_0000_0000 * (Four(b, 4) + 0x1_0000_0000 * (Four(b, 8) + 0x1_0000_0000 *
              (Four(b, 12) + 0x1_0000_0000 * (Four(b, 16) + 0x1_0000_0000 * (Four(b, 20) + 0x1_0000_0000 *
              (Four(b, 24) + 0x1_0000_0000 * Four(b, 28)))))))
  {
    hide LittleEndian;
    hide Four;
    LittleEndianNone(b);
    FourAt(b, 0);
    FourAt(b, 4);
    FourAt(b, 8);
    FourAt(b, 12);
    FourAt(b, 16);
    FourAt(b, 20);
    FourAt(b, 24);
    FourAt(b, 28);
    assert b[0..] == b;
  }

  lemma LittleEndianNone(b: seq<byte>)
    ensures LittleEndian(b[|b|..]) == 0
  {}

  function Four(b: seq<byte>, at: nat): nat
    requires at + 4 <= |b|
  {
    b[at] as int + 0x100 * b[at + 1] as int + 0x1_0000 * b[at + 2] as int + 0x100_0000 * b[at + 3] as int
  }

  lemma FourAt(b: seq<byte>, at: nat)
    requires at + 4 <= |b|
    ensures LittleEndian(b[at..]) == Four(b, at) + 0x1_0000_0000 * LittleEndian(b[at + 4..])
  {
    OneAt(b, at);
    OneAt(b, at + 1);
    OneAt(b, at + 2);
    OneAt(b, at + 3);
    hide LittleEndian;
  }

  lemma OneAt(b: seq<byte>, at: nat)
    requires at < |b|
    ensures LittleEndian(b[at..]) == b[at] as int + 256 * LittleEndian(b[at + 1..])
  {
    assert b[at..][1..] == b[at + 1..];
  }

  /** Extended coordinates: x = X/Z, y = Y/Z, xy = T/Z. */
  datatype Point = Point(x: Fe, y: Fe, z: Fe, t: Fe)

  /** The product in the field. */
  function Prod(a: int, b: int): int { (a * b) % P }

  /** The curve equation between the squares of the two coordinates. */
  predicate Solves(s: int, t: int) { Cong(Prod(s, Prod(D, t) + 1), t - 1) }

  predicate OnCurve(x: int, y: int) { Solves(Prod(x, x), Prod(y, y)) }

  lemma ProdIs(a: int, b: int)
    ensures Cong(Prod(a, b), a * b)
  {
    CongSplit(a * b);
  }

  /** The curve equation as a numerator over a denominator. */
  lemma OnCurveIs(x: int, y: int, s: int, n: int, m: int)
    requires Cong(s, x * x) && Cong(n, y * y - 1) && Cong(m, D * (y * y) + 1)
    ensures OnCurve(x, y) <==> Cong(s * m, n)
  {
    hide *;
    var u, t := Prod(x, x), Prod(y, y);
    var dt := Prod(D, t);
    ProdIs(x, x);
    ProdIs(y, y);
    ProdIs(D, t);
    ProdIs(u, dt + 1);
    CongMul(D, D, t, y * y);
    CongChain(dt, D * t, D * (y * y));
    CongAdd(dt, D * (y * y), 1, 1);
    CongChain(dt + 1, D * (y * y) + 1, m);
    CongChain(u, x * x, s);
    CongMul(u, s, dt + 1, m);
    CongChain(Prod(u, dt + 1), u * (dt + 1), s * m);
    CongAdd(t, y * y, -1, -1);
    CongChain(t - 1, y * y - 1, n);
    CongThrough(Prod(u, dt + 1), s * m, t - 1);
    CongThrough(t - 1, n, s * m);
    OnCurveUnfolds(x, y);
  }

  lemma OnCurveUnfolds(x: int, y: int)
    ensures OnCurve(x, y) <==> Cong(Prod(Prod(x, x), Prod(D, Prod(y, y)) + 1), Prod(y, y) - 1)
  {
    hide Cong, Prod;
  }

  lemma CongChain(a: int, b: int, c: int)
    requires Cong(a, b) && (Cong(b, c) || Cong(c, b))
    ensures Cong(a, c)
  {}

  lemma CongThrough(a: int, b: int, c: int)
    requires Cong(a, b)
    ensures Cong(a, c) <==> Cong(b, c)
    ensures Cong(c, a) <==> Cong(a, c)
    ensures Cong(c, b) <==> Cong(b, c)
  {}

  /** The sign bit of an encoding. */
  predicate SignBit(bytes: seq<byte>) { |bytes| == 32 && bytes[31] >= 128 }

  /** The bytes spell this y, and the parity of this x. */
  predicate Spells(bytes: seq<byte>, x: int, y: int)
  {
    y == LittleEndian(bytes) % TWO_255 && (x % P % 2 == 1 <==> SignBit(bytes))
  }

  /** What `decompress` returns for these bytes: the curve point with that y and that parity of x. */
  predicate Decodes(bytes: seq<byte>, p: Point)
  {
    && Small(p.x) && Small(p.y) && Small(p.z) && Small(p.t)
    && Spells(bytes, Value(p.x), Value(p.y)) && Value(p.z) == 1
    && Cong(Value(p.t), Value(p.x) * Value(p.y))
    && OnCurve(Value(p.x), Value(p.y))
  }

  lemma OneIsOne()
    ensures Small(ONE) && Value(ONE) == 1
  {
    SumFive(ONE.limbs);
    Weights();
  }

  /** Whether `x` satisfies the curve equation for this y. */
  method Checks(x: Fe, numerator: Fe, denominator: Fe, ghost y: int) returns (r: bool)
    requires Small(x) && Small(numerator) && Small(denominator)
    requires Cong(Value(numerator), y * y - 1) && Cong(Value(denominator), D * (y * y) + 1)
    ensures r <==> OnCurve(Value(x), y)
  {
    hide *;
    var square := Square(x);
    var check := Mul(square, denominator);
    r := Equal(check, numerator);
    OnCurveIs(Value(x), y, Value(square), Value(numerator), Value(denominator));
    CongThrough(Value(check), Value(square) * Value(denominator), Value(numerator));
  }

  /** The curve equation does not see the sign of x. */
  lemma NegOnCurve(x: int, w: int, y: int)
    requires OnCurve(x, y) && Cong(w, -x)
    ensures OnCurve(w, y)
  {
    CongMul(w, -x, w, -x);
    assert (-x) * (-x) == x * x;
    assert Prod(w, w) == Prod(x, x);
  }

  /** p is odd: negating a nonzero element flips its parity. */
  lemma NegFlips(x: int, w: int)
    requires Cong(w, -x) && x % P != 0
    ensures w % P % 2 != x % P % 2
  {
    CongSplit(x);
    ModUnique(-x, -(x / P) - 1, P - x % P);
  }

  /** The candidate root of section 5.1.3 of RFC 8032: n/m times (n/m)^((p-5)/8), inverses taken as powers. */
  function Candidate(y: int): int
  {
    var n, inv := y * y - 1, Pow(D * (y * y) + 1, INVERSE);
    Pow(n * inv, ROOT) * n * inv
  }

  /** The candidate, or the candidate times the square root of -1 where only that can be right. */
  function Root(y: int): int { if OnCurve(Candidate(y), y) then Candidate(y) else Candidate(y) * SQRT_M1 }

  /** The bytes `decompress` turns away: neither candidate is on the curve, or a sign is set over x = 0. */
  predicate NoPoint(bytes: seq<byte>)
  {
    var y := LittleEndian(bytes) % TWO_255;
    !OnCurve(Root(y), y) || (SignBit(bytes) && Root(y) % P == 0)
  }

  lemma NoPointIs(bytes: seq<byte>, y: int)
    requires y == LittleEndian(bytes) % TWO_255
    ensures NoPoint(bytes) <==> !OnCurve(Root(y), y) || (SignBit(bytes) && Root(y) % P == 0)
  {}

  lemma RootIs(y: int)
    ensures Root(y) == if OnCurve(Candidate(y), y) then Candidate(y) else Candidate(y) * SQRT_M1
  {}

  lemma OnCurveCong(x: int, w: int, y: int)
    requires Cong(x, w)
    ensures OnCurve(x, y) == OnCurve(w, y) && (x % P == 0 <==> w % P == 0)
  {
    CongMul(x, w, x, w);
    assert Prod(w, w) == Prod(x, x);
  }

  /** What the field computes is the candidate, modulo p. */
  lemma CandidateIs(y: int, n: int, m: int, inv: int, ratio: int, root: int, rn: int, x: int)
    requires Cong(n, y * y - 1) && Cong(m, D * (y * y) + 1) && Cong(inv, Pow(m, INVERSE)) && Cong(ratio, n * inv)
    requires Cong(root, Pow(ratio, ROOT)) && Cong(rn, root * n) && Cong(x, rn * inv)
    ensures Cong(x, Candidate(y))
  {
    var n', m' := y * y - 1, D * (y * y) + 1;
    var inv' := Pow(m', INVERSE);
    CongPow(m, m', INVERSE);
    CongMul(n, n', inv, inv');
    CongPow(ratio, n' * inv', ROOT);
    hide Pow;
    CongMul(root, Pow(n' * inv', ROOT), n, n');
    CongMul(rn, Pow(n' * inv', ROOT) * n', inv, inv');
  }

  lemma PowerCong(f: Fe, x: int, n: nat)
    requires IsPower(f, x, n)
    ensures Small(f) && Cong(Value(f), Pow(x, n))
  {}

  method Decompress(bytes: seq<byte>) returns (r: Option<Point>)
    requires |bytes| == 32
    ensures r.Some? ==> Decodes(bytes, r.value)
    ensures r.None? <==> NoPoint(bytes)
  {
    hide *;
    OneIsOne();
    DIsTheQuotient();
    SqrtM1Squares();
    var y := FromBytes(bytes);
    var wantNegative := bytes[31] / 128 == 1;
    var y2 := Square(y);
    var numerator := Sub(y2, ONE);
    var d := FromBytes(D_BYTES);
    var dy2 := Mul(d, y2);
    var denominator := Add(dy2, ONE);
    EquationParts(Value(y), Value(y2), Value(numerator), Value(d), Value(dy2), Value(denominator));
    var inverse := Invert(denominator);
    PowerCong(inverse, Value(denominator), INVERSE);
    var ratio := Mul(numerator, inverse);
    var root := PowP58(ratio);
    PowerCong(root, Value(ratio), ROOT);
    var rn := Mul(root, numerator);
    var x := Mul(rn, inverse);
    CandidateIs(Value(y), Value(numerator), Value(denominator), Value(inverse), Value(ratio), Value(root), Value(rn), Value(x));
    OnCurveCong(Value(x), Candidate(Value(y)), Value(y));
    RootIs(Value(y));
    NoPointIs(bytes, Value(y));
    SignBitIs(bytes);
    var good := Checks(x, numerator, denominator, Value(y));
    if !good {
      var i := FromBytes(SQRT_M1_BYTES);
      var fixed := Mul(x, i);
      FixedIs(Value(fixed), Value(x), Value(i), Candidate(Value(y)));
      OnCurveCong(Value(fixed), Root(Value(y)), Value(y));
      good := Checks(fixed, numerator, denominator, Value(y));
      if !good {
        return None;
      }
      x := fixed;
    }
    var zero := IsZero(x);
    if zero && wantNegative {
      return None;
    }
    var negative := IsNegative(x);
    ghost var before := Value(x);
    if negative != wantNegative {
      x := Neg(x);
      NegOnCurve(before, Value(x), Value(y));
      NegFlips(before, Value(x));
    }
    var t := Mul(x, y);
    r := Some(Point(x, y, ONE, t));
    DecodesIs(bytes, r.value);
  }

  lemma FixedIs(fixed: int, x: int, i: int, c: int)
    requires Cong(fixed, x * i) && Cong(x, c) && i == SQRT_M1 % TWO_255
    ensures Cong(fixed, c * SQRT_M1)
  {
    CongMul(x, c, i, SQRT_M1);
  }

  lemma SignBitIs(bytes: seq<byte>)
    requires |bytes| == 32
    ensures SignBit(bytes) <==> bytes[31] / 128 == 1
  {}

  lemma DecodesIs(bytes: seq<byte>, p: Point)
    requires Small(p.x) && Small(p.y) && Small(p.z) && Small(p.t)
    requires Value(p.y) == LittleEndian(bytes) % TWO_255 && Value(p.z) == 1
    requires Cong(Value(p.t), Value(p.x) * Value(p.y)) && OnCurve(Value(p.x), Value(p.y))
    requires Value(p.x) % P % 2 == 1 <==> SignBit(bytes)
    ensures Decodes(bytes, p)
  {
    hide LittleEndian, Value, Small, Cong, OnCurve;
  }

  /** The two sides of the equation as the field computes them. */
  lemma EquationParts(y: int, y2: int, n: int, d: int, dy2: int, m: int)
    requires Cong(y2, y * y) && Cong(n, y2 - 1) && d == D % TWO_255
    requires Cong(dy2, d * y2) && Cong(m, dy2 + 1)
    ensures Cong(n, y * y - 1) && Cong(m, D * (y * y) + 1)
  {
    CongAdd(y2, y * y, -1, -1);
    CongMul(d, D, y2, y * y);
    CongAdd(d * y2, D * (y * y), 1, 1);
    CongAdd(dy2, d * y2, 1, 1);
  }

  // ----- encoding -----

  /** What `compress` returns: the canonical y, with the parity of x in the top bit. */
  predicate Encodes(x: int, y: int, out: seq<byte>)
  {
    |out| == 32 && LittleEndian(out) == y % P + if x % P % 2 == 1 then TWO_255 else 0
  }

  /** A canonical encoding leaves the top bit free. */
  lemma TopBitFree(out: seq<byte>)
    requires |out| == 32 && LittleEndian(out) < TWO_255
    ensures out[31] < 128
  {
    TopByte(out);
    LittleEndianBelow(out[..31]);
    Pow256Is(31);
    Pow2Of248();
  }

  lemma TopByte(out: seq<byte>)
    requires |out| == 32
    ensures LittleEndian(out) == LittleEndian(out[..31]) + out[31] as int * Pow256(31)
  {
    DropIs(out, 31);
    TakeIs(out, 31);
    assert out[31..] == [out[31]] && out[31..][1..] == [];
    assert LittleEndian(out[31..]) == out[31] as int;
    Pow256Positive(31);
    Recompose(LittleEndian(out), Pow256(31));
  }

  lemma Recompose(n: nat, w: nat)
    requires w > 0
    ensures n == Rem(n, w) + Quo(n, w) * w
  {}

  lemma Pow2Of248()
    ensures 128 * Pow2(248) == TWO_255
  {
    Pow2Small();
    Pow2Add(64, 64);
    Pow2Add(128, 64);
    Pow2Add(192, 32);
    Pow2Add(224, 16);
    Pow2Add(240, 8);
  }

  /** Setting the top bit over a canonical y adds 2^255. */
  lemma TopBitSet(out: seq<byte>)
    requires |out| == 32 && LittleEndian(out) < TWO_255
    ensures WithBit(out[31], 7, true) < 256 && LittleEndian(out[31 := WithBit(out[31], 7, true)]) == LittleEndian(out) + TWO_255
  {
    TopBitFree(out);
    Pow2Small();
    WithBitAdds(out[31], 7);
    LittleEndianPut(out, 31, WithBit(out[31], 7, true));
    Pow256Is(31);
    Pow2Of248();
  }

  method Compress(p: Point) returns (out: seq<byte>)
    requires Small(p.x) && Small(p.y) && Small(p.z)
    ensures exists inv: int :: Inverts(inv, Value(p.z)) && Encodes(Value(p.x) * inv, Value(p.y) * inv, out)
  {
    var inv := Invert(p.z);
    var x := Mul(p.x, inv);
    var y := Mul(p.y, inv);
    SmallLimbs(y);
    SmallLimbs(x);
    out := ToBytes(y);
    CanonicalFits(Value(y));
    var xBytes := ToBytes(x);
    LowByte(xBytes);
    ghost var plain := out;
    if xBytes[0] % 2 == 1 {
      TopBitSet(out);
      out := out[31 := WithBit(out[31], 7, true)];
    }
    EncodesIs(Value(x), Value(y), Value(p.x) * Value(inv), Value(p.y) * Value(inv), plain, xBytes, out);
  }

  /** `inv` is the value `compress` divides by: z to the power p - 2. */
  predicate Inverts(inv: int, z: int) { Cong(inv, Pow(z, INVERSE)) }

  lemma SmallLimbs(f: Fe)
    requires Small(f)
    ensures |f.limbs| == 5 && Below(f.limbs, 0x8000_0000_0000_0000)
  {}

  lemma CanonicalFits(v: int)
    ensures 0 <= v % P < TWO_255
  {}

  lemma LowByte(b: seq<byte>)
    requires |b| == 32
    ensures LittleEndian(b) % 2 == b[0] % 2
  {}

  lemma EncodesIs(x: int, y: int, x': int, y': int, plain: seq<byte>, xBytes: seq<byte>, out: seq<byte>)
    requires Cong(x, x') && Cong(y, y') && |plain| == |xBytes| == |out| == 32
    requires LittleEndian(plain) == y % P && LittleEndian(xBytes) == x % P && LittleEndian(xBytes) % 2 == xBytes[0] % 2
    requires LittleEndian(out) == LittleEndian(plain) + if xBytes[0] % 2 == 1 then TWO_255 else 0
    ensures Encodes(x', y', out)
  {}

  // ----- there and back -----

  lemma SplitsAtTop(bytes: seq<byte>)
    requires |bytes| == 32
    ensures LittleEndian(bytes) == LittleEndian(bytes) % TWO_255 + if SignBit(bytes) then TWO_255 else 0
  {
    hide LittleEndian;
    TopByte(bytes);
    LittleEndianBelow(bytes[..31]);
    Pow256Is(31);
    Pow2Of248();
    TopHalf(LittleEndian(bytes[..31]), bytes[31], Pow256(31), TWO_255);
  }

  lemma TopHalf(low: nat, top: nat, unit: nat, half: nat)
    requires low < unit && top < 256 && half == 128 * unit
    ensures (low + top * unit) % half + (if top >= 128 then half else 0) == low + top * unit
  {
    var k := if top >= 128 then top - 128 else top;
    assert unit * (k + 1) == k * unit + unit;
    Scale(unit, k + 1, 128);
    DivUnique(low + top * unit, half, if top >= 128 then 1 else 0, low + k * unit);
  }

  /** Encoding a decoded point gives the original bytes back exactly when those bytes spelled a y below p. */
  lemma RoundTrip(bytes: seq<byte>, x: int, y: int, inv: int, out: seq<byte>)
    requires |bytes| == 32 && Spells(bytes, x, y)
    requires Inverts(inv, 1) && Encodes(x * inv, y * inv, out)
    ensures out == bytes <==> LittleEndian(bytes) % TWO_255 < P
  {
    hide LittleEndian, Pow;
    OnePower(INVERSE);
    CongMul(x, x, inv, 1);
    CongMul(y, y, inv, 1);
    SplitsAtTop(bytes);
    assert LittleEndian(out) == y % P + if SignBit(bytes) then TWO_255 else 0;
    if y < P {
      LittleEndianInjective(out, bytes);
    }
  }

  /** `less_than`: little-endian numbers compared from the top byte down. */
  method LessThan(a: seq<byte>, b: seq<byte>) returns (r: bool)
    requires |a| == |b| == 32
    ensures r <==> LittleEndian(a) < LittleEndian(b)
  {
    var i := 32;
    while i > 0
      invariant 0 <= i <= 32 && a[i..] == b[i..]
    {
      i := i - 1;
      if a[i] != b[i] {
        if a[i] < b[i] {
          FirstDifference(a, b, i);
        } else {
          FirstDifference(b, a, i);
        }
        return a[i] < b[i];
      }
      assert a[i..] == [a[i]] + a[i + 1..] && b[i..] == [b[i]] + b[i + 1..];
    }
    assert a[0..] == a && b[0..] == b;
    return false;
  }

  lemma {:induction false} FirstDifference(a: seq<byte>, b: seq<byte>, i: nat)
    requires |a| == |b| && i < |a| && a[i + 1..] == b[i + 1..] && a[i] < b[i]
    ensures LittleEndian(a) < LittleEndian(b)
  {
    if i == 0 {
    } else {
      assert a[1..][i..] == a[i + 1..] && b[1..][i..] == b[i + 1..];
      FirstDifference(a[1..], b[1..], i - 1);
    }
  }
}
