/**
 * What the curve operations mean when 2^255 - 19 is prime: division divides, and a point is decoded whenever there
 * is one to decode.
 */
module EdwardsComplete {
  import opened Common
  import opened Endian
  import opened Field
  import opened FieldBytes
  import opened FieldPowers
  import opened PrimeField
  import opened SquareRoots
  import opened EdwardsPoint

  // ----- the field -----

  lemma CongDivides(x: int, y: int)
    ensures Cong(x, y) <==> Eq(P, x, y)
  {
    CongSplit(x);
    CongSplit(y);
    if Cong(x, y) {
      DividesBy(P, x - y, x / P - y / P);
    }
    if Divides(P, x - y) {
      var k :| x - y == P * k;
      CongBy(x, y, k);
    }
  }

  /** `invert` inverts: the power p - 2 of a nonzero element times the element is 1. */
  lemma InverseInverts(z: int)
    requires Prime(P) && !Cong(z, 0)
    ensures Cong(z * Pow(z, INVERSE), 1)
  {
    hide Pow, Prime, Eq;
    CongDivides(z, 0);
    InverseByPower(P, z);
    CongDivides(z * Pow(z, INVERSE), 1);
  }

  // ----- roots -----

  /** The denominator of a curve point's equation is never zero. */
  lemma Denominator(x: int, y: int)
    requires OnCurve(x, y)
    ensures !Cong(D * (y * y) + 1, 0)
  {
    hide OnCurve;
    var n, m := y * y - 1, D * (y * y) + 1;
    OnCurveIs(x, y, x * x, n, m);
    if Cong(m, 0) {
      CongMul(x * x, x * x, m, 0);
      CongAdd(y * y - 1, 0, 1, 1);
      CongMul(D, D, y * y, 1);
      CongAdd(D * (y * y), D * 1, 1, 1);
      assert false;
    }
  }

  lemma CongSelf(x: int)
    ensures Cong(x, x)
  {}

  lemma RootOfMinusOne()
    ensures P % 8 == 5 && Eq(P, SQRT_M1 * SQRT_M1, -1)
  {
    hide LittleEndian, Eq;
    SqrtM1Squares();
    CongDivides(SQRT_M1 * SQRT_M1, -1);
  }

  lemma CandidateIsTried(y: int)
    ensures Candidate(y) == Tried(P, y * y - 1, D * (y * y) + 1)
  {
    hide Pow;
    var n, inv := y * y - 1, Pow(D * (y * y) + 1, INVERSE);
    Assoc3(Pow(n * inv, ROOT), n, inv);
  }

  /** If any x solves the curve equation for y, the one `decompress` tries does. */
  lemma RootFound(x: int, y: int)
    requires Prime(P) && OnCurve(x, y)
    ensures OnCurve(Root(y), y)
  {
    hide *;
    var n, m := y * y - 1, D * (y * y) + 1;
    var c := Candidate(y);
    CongSelf(n);
    CongSelf(m);
    CongSelf(x * x);
    OnCurveIs(x, y, x * x, n, m);
    CongDivides(x * x * m, n);
    Denominator(x, y);
    CongDivides(m, 0);
    RootOfMinusOne();
    CandidateIsTried(y);
    RootOfRatio(P, SQRT_M1, x, n, m);
    var e := c * SQRT_M1;
    CongSelf(c * c);
    OnCurveIs(c, y, c * c, n, m);
    CongDivides(c * c * m, n);
    CongSelf(e * e);
    OnCurveIs(e, y, e * e, n, m);
    CongDivides(e * e * m, n);
    RootIs(y);
  }

  // ----- decoding -----

  /** `x` and the y these bytes spell are a point whose x has the parity the sign bit names. */
  predicate IsPoint(bytes: seq<byte>, x: int)
  {
    var y := LittleEndian(bytes) % TWO_255; OnCurve(x, y) && Spells(bytes, x, y)
  }

  /** Two solutions for one y are equal or opposite. */
  lemma Opposite(x: int, w: int, y: int)
    requires Prime(P) && OnCurve(x, y) && OnCurve(w, y)
    ensures Cong(x, w) || Cong(x, -w)
  {
    hide *;
    var n, m := y * y - 1, D * (y * y) + 1;
    CongSelf(n);
    CongSelf(m);
    CongSelf(x * x);
    OnCurveIs(x, y, x * x, n, m);
    CongDivides(x * x * m, n);
    CongSelf(w * w);
    OnCurveIs(w, y, w * w, n, m);
    CongDivides(w * w * m, n);
    Denominator(x, y);
    CongDivides(m, 0);
    OppositeRoots(P, x, w, m, n);
    CongDivides(x, w);
    CongDivides(x, -w);
  }

  /** The bytes spell at most one point. */
  lemma PointUnique(bytes: seq<byte>, x: int, w: int)
    requires Prime(P) && IsPoint(bytes, x) && IsPoint(bytes, w)
    ensures Cong(x, w)
  {
    hide Prime, OnCurve, LittleEndian;
    Opposite(x, w, LittleEndian(bytes) % TWO_255);
    if !Cong(x, w) {
      if w % P != 0 {
        NegFlips(w, x);
      } else {
        CongMul(-1, -1, w, 0);
      }
    }
  }

  /** `decompress` turns bytes away exactly when they spell no point of the curve. */
  lemma NoPointIff(bytes: seq<byte>)
    requires Prime(P)
    ensures NoPoint(bytes) <==> forall x :: !IsPoint(bytes, x)
  {
    hide Prime, Root, LittleEndian, OnCurve;
    var y := LittleEndian(bytes) % TWO_255;
    if x :| IsPoint(bytes, x) {
      RootFound(x, y);
      if Root(y) % P == 0 {
        Opposite(x, Root(y), y);
        CongMul(-1, -1, Root(y), 0);
      }
    }
    if !NoPoint(bytes) {
      var x := APoint(bytes);
    }
  }

  lemma APoint(bytes: seq<byte>) returns (x: int)
    requires !NoPoint(bytes)
    ensures IsPoint(bytes, x)
  {
    hide Root, LittleEndian, OnCurve;
    var y := LittleEndian(bytes) % TWO_255;
    x := Root(y);
    if !(x % P % 2 == 1 <==> SignBit(bytes)) {
      NegFlips(x, -x);
      NegOnCurve(x, -x, y);
      x := -x;
    }
  }

  // ----- encoding -----

  lemma OnCurveY(x: int, y: int, z: int)
    requires OnCurve(x, y) && Cong(y, z)
    ensures OnCurve(x, z)
  {
    CongMul(y, z, y, z);
    assert Prod(z, z) == Prod(y, y);
  }

  /** The encoding of a point of the curve is decoded, and to that point alone. */
  lemma EncodingDecodes(x: int, y: int, out: seq<byte>)
    requires Prime(P) && OnCurve(x, y) && Encodes(x, y, out)
    ensures !NoPoint(out) && LittleEndian(out) % TWO_255 == y % P
    ensures forall w :: IsPoint(out, w) ==> Cong(w, x)
  {
    hide Prime, LittleEndian, NoPoint, OnCurve;
    SplitsAtTop(out);
    CanonicalFits(y);
    CongSplit(y);
    OnCurveY(x, y, y % P);
    assert IsPoint(out, x);
    NoPointIff(out);
    forall w | IsPoint(out, w)
      ensures Cong(w, x)
    {
      PointUnique(out, w, x);
    }
  }

  /** What `decompress` returns is the point the bytes spell. */
  lemma DecodedIsPoint(bytes: seq<byte>, p: Point)
    requires Decodes(bytes, p)
    ensures IsPoint(bytes, Value(p.x))
  {
    hide LittleEndian, OnCurve, Value, Small, Cong;
  }

  // ----- an encoding of a point by a y that is not below p -----

  /** p + 1 in 32 bytes, with the sign bit clear. */
  const ABOVE_P: seq<byte> :=
    [0xee, 0xff, 0xff, 0xff, 0xff, 0xff, 0xff, 0xff, 0xff, 0xff, 0xff, 0xff, 0xff, 0xff, 0xff, 0xff,
     0xff, 0xff, 0xff, 0xff, 0xff, 0xff, 0xff, 0xff, 0xff, 0xff, 0xff, 0xff, 0xff, 0xff, 0xff, 0x7f]

  /** `decompress` accepts bytes that spell a y above p: here p + 1, the same y as 1. */
  lemma AboveIsDecoded()
    ensures |ABOVE_P| == 32 && LittleEndian(ABOVE_P) == P + 1 && !NoPoint(ABOVE_P)
  {
    hide LittleEndian, Root, OnCurve, Pow;
    AboveSpells();
    var y := P + 1;
    CongBy(y, 1, 1);
    CongMul(y, 1, y, 1);
    CongAdd(y * y, 1, -1, -1);
    RootOfOne(y);
    OnCurveIs(Root(y), y, Root(y) * Root(y), y * y - 1, D * (y * y) + 1);
    CongMul(Root(y), 0, Root(y), 0);
    CongMul(Root(y) * Root(y), 0, D * (y * y) + 1, D * (y * y) + 1);
  }

  lemma AboveSpells()
    ensures |ABOVE_P| == 32 && LittleEndian(ABOVE_P) == P + 1 && !SignBit(ABOVE_P)
  {
    AboveFours();
    hide LittleEndian, Four;
    Evaluate(ABOVE_P);
  }

  lemma AboveFours()
    ensures |ABOVE_P| == 32 && !SignBit(ABOVE_P) && Four(ABOVE_P, 0) == 0xffffffee && Four(ABOVE_P, 28) == 0x7fffffff
    ensures Four(ABOVE_P, 4) == 0xffffffff && Four(ABOVE_P, 8) == 0xffffffff && Four(ABOVE_P, 12) == 0xffffffff
    ensures Four(ABOVE_P, 16) == 0xffffffff && Four(ABOVE_P, 20) == 0xffffffff && Four(ABOVE_P, 24) == 0xffffffff
  {}

  /** Where the numerator vanishes, so does the root. */
  lemma RootOfOne(y: int)
    requires Cong(y * y - 1, 0)
    ensures Cong(Root(y), 0)
  {
    hide Pow, OnCurve;
    var n, inv := y * y - 1, Pow(D * (y * y) + 1, INVERSE);
    var a := Pow(n * inv, ROOT);
    CongMul(a, a, n, 0);
    CongMul(a * n, 0, inv, inv);
    CongMul(Candidate(y), 0, SQRT_M1, SQRT_M1);
  }
}
