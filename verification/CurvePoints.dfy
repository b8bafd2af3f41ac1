/** Points in memory (ecdsa.c): affine addition and doubling, and the change of coordinates. */
module CurvePoints {
  import opened Words
  import opened Digits
  import opened Congruence
  import opened BignumBasics
  import opened BignumReduce
  import opened BignumMultiply
  import opened BignumPower
  import opened BignumInverse
  import opened EllipticCurve
  import opened CurveEquation

  class CurvePoint {
    const x: array<word>
    const y: array<word>

    constructor ()
      ensures Shape() && fresh(x) && fresh(y)
    {
      x := new word[9];
      y := new word[9];
    }

    ghost predicate Shape()
    {
      x.Length == 9 && y.Length == 9 && x != y
    }

    /** The point; two zero coordinates stand for infinity. */
    ghost function At(): Point
      requires Shape()
      reads x, y
    {
      if Val(x) == 0 && Val(y) == 0 then Infinity else Affine(Val(x), Val(y))
    }

    ghost predicate Holds(p: int)
      reads x, y
    {
      Shape() && Reduced(x, p) && Reduced(y, p)
    }
  }

  class Curve {
    const prime: array<word>
    const order: array<word>
    const orderHalf: array<word>
    const a: int
    ghost const b: int
    const G: CurvePoint
    const cp: seq<seq<CurvePoint>>

    constructor (prime: array<word>, order: array<word>, orderHalf: array<word>, a: int, ghost b: int,
                 G: CurvePoint, cp: seq<seq<CurvePoint>>)
      ensures this.prime == prime && this.order == order && this.orderHalf == orderHalf
      ensures this.a == a && this.b == b && this.G == G && this.cp == cp
    {
      this.prime := prime;
      this.order := order;
      this.orderHalf := orderHalf;
      this.a := a;
      this.b := b;
      this.G := G;
      this.cp := cp;
    }

    ghost predicate Valid()
      reads prime
    {
      && IsModulus(prime) && Prime(Val(prime))
      && -3 <= a <= 0 && -a <= prime[0]
      && b % Val(prime) != 0
    }
  }

  /** A point of the curve, in its memory. */
  ghost predicate Proper(c: CurvePoint, curve: Curve)
    requires curve.Valid()
    reads c.x, c.y, curve.prime
  {
    c.Holds(Val(curve.prime)) && OnCurve(c.At(), curve.a, curve.b, Val(curve.prime))
  }

  ghost predicate Apart(c: CurvePoint, d: CurvePoint)
  {
    c.x != d.x && c.x != d.y && c.y != d.x && c.y != d.y
  }

  method BnZero(a: array<word>)
    requires a.Length == 9
    modifies a
    ensures Norm(a) && Val(a) == 0
  {
    var i := 0;
    while i < 9
      invariant 0 <= i <= 9 && forall m :: 0 <= m < i ==> a[m] == 0
    {
      a[i] := 0;
      i := i + 1;
    }
    SumZero(a[..], 9, BASE);
  }

  method PointSetInfinity(c: CurvePoint)
    requires c.Shape()
    modifies c.x, c.y
    ensures Norm(c.x) && Norm(c.y) && c.At() == Infinity
  {
    BnZero(c.x);
    BnZero(c.y);
  }

  method PointCopy(c: CurvePoint, d: CurvePoint)
    requires c.Shape() && d.Shape() && (c == d || Apart(c, d))
    modifies d.x, d.y
    ensures d.x[..] == old(c.x[..]) && d.y[..] == old(c.y[..])
    ensures Val(d.x) == old(Val(c.x)) && (old(Norm(c.x)) ==> Norm(d.x))
    ensures Val(d.y) == old(Val(c.y)) && (old(Norm(c.y)) ==> Norm(d.y))
  {
    BnCopy(c.x, d.x);
    BnCopy(c.y, d.y);
  }

  method PointIsInfinity(c: CurvePoint) returns (r: bool)
    requires c.Shape() && Norm(c.x) && Norm(c.y)
    ensures r <==> c.At() == Infinity
  {
    r := BnIsZero(c.x);
    if r {
      r := BnIsZero(c.y);
    }
  }

  method PointIsEqual(c: CurvePoint, d: CurvePoint) returns (r: bool)
    requires c.Shape() && d.Shape() && Norm(c.x) && Norm(c.y) && Norm(d.x) && Norm(d.y)
    ensures r <==> c.At() == d.At()
  {
    r := BnIsEqual(c.x, d.x);
    if r {
      r := BnIsEqual(c.y, d.y);
    }
  }

  lemma OppositeTest(P: Point, Q: Point, a: int, b: int, p: int)
    requires Prime(p) && Modulus(p) && InField(P, p) && InField(Q, p) && OnCurve(P, a, b, p) && OnCurve(Q, a, b, p)
    requires P.Affine? && Q.Affine? && P != Q
    ensures Q == Negative(P, p) <==> P.x == Q.x && P.y != 0 && P.y != Q.y
    ensures Q == Negative(P, p) <==> P.x == Q.x
  {
    if P.x == Q.x {
      SameOrOpposite(P, Q, a, b, p);
    }
  }

  /** Same abscissa and different ordinates; on the curve this means opposite points that are not equal. */
  method PointIsNegativeOf(c: CurvePoint, d: CurvePoint, curve: Curve) returns (r: bool)
    requires curve.Valid() && Proper(c, curve) && Proper(d, curve)
    requires c.At().Affine? && d.At().Affine?
    ensures r <==> d.At() == Negative(c.At(), Val(curve.prime)) && d.At() != c.At()
    ensures r <==> c.At().x == d.At().x && d.At() != c.At()
  {
    hide Sum, Weight, Cong, Prime, Cubic, Modulus;
    ghost var P, Q, p := c.At(), d.At(), Val(curve.prime);
    NormBound(c.x);
    NormBound(c.y);
    NormBound(d.x);
    NormBound(d.y);
    if P != Q {
      OppositeTest(P, Q, curve.a, curve.b, p);
    }
    var same := BnIsEqual(c.x, d.x);
    if !same {
      return false;
    }
    var zero := BnIsZero(c.y);
    if zero {
      return false;
    }
    same := BnIsEqual(c.y, d.y);
    return !same;
  }

  /** The idiom res = x; bn_multiply(k, &res), or bn_multiply(&res, &res) for a square. */
  method BnProduct(k: array<word>, x: array<word>, res: array<word>, prime: array<word>)
    requires Norm(k) && Norm(x) && IsModulus(prime) && res.Length == 9 && res !in {k, x, prime}
    requires Val(k) < 180 * Val(prime) && Val(x) < 180 * Val(prime)
    modifies res
    ensures PartlyReduced(res, Val(prime)) && Times(Val(res), Val(k), Val(x), Val(prime))
  {
    assert x.Length == 9;
    hide Val, Norm, Cong, Times, Modulus;
    BnCopy(x, res);
    BnMultiply(k, res, prime);
  }

  // ----- affine addition

  /** Any way of dividing gives the slope, up to a multiple of p. */
  lemma SlopeComputed(n: int, d: int, l: int, n': int, d': int, i: int, k: int, p: int)
    requires p > 1 && Cong(l * d, n, p) && Cong(n', n, p) && Cong(d', d, p) && Cong(d' * i, 1, p) && Cong(k, i * n', p)
    ensures Cong(k, l, p)
  {
    Same(i, p);
    Same(l, p);
    hide Cong;
    Mul(i, i, n', n, p);
    Trans(k, i * n', i * n, p);
    Sym(l * d, n, p);
    Mul(i, i, n, l * d, p);
    Trans(k, i * n, i * (l * d), p);
    Sym(d', d, p);
    Mul(d, d', i, i, p);
    Trans(d * i, d' * i, 1, p);
    Mul(l, l, d * i, 1, p);
    assert i * (l * d) == l * (d * i);
    Trans(k, l * (d * i), l * 1, p);
  }

  lemma ThirdComputed(P: Point, Q: Point, l: int, k: int, x: int, y: int, p: int)
    requires p > 1 && P.Affine? && Q.Affine? && Cong(k, l, p) && 0 <= x < p && 0 <= y < p
    requires Cong(x, k * k - P.x - Q.x, p) && Cong(y, k * (P.x - x) - P.y, p)
    ensures Affine(x, y) == Third(P, Q, l, p)
  {
    var x' := l * l - P.x - Q.x;
    Same(P.x + Q.x, p);
    Same(P.x - x, p);
    Same(P.y, p);
    Mul(k, l, k, l, p);
    Sub(k * k, l * l, P.x + Q.x, P.x + Q.x, p);
    Trans(x, k * k - P.x - Q.x, x', p);
    Small(x, x', p);
    Mul(k, l, P.x - x, P.x - x, p);
    Sub(k * (P.x - x), l * (P.x - x), P.y, P.y, p);
    Trans(y, k * (P.x - x) - P.y, l * (P.x - x) - P.y, p);
    Small(y, l * (P.x - x) - P.y, p);
  }

  lemma Small(x: int, v: int, p: int)
    requires p > 0 && 0 <= x < p && Cong(x, v, p)
    ensures x == v % p
  {
    SameResidue(x, v, p);
    SmallResidue(x, p);
  }

  lemma DifferenceCoprime(x: int, y: int, p: int)
    requires Prime(p) && 0 <= x < p && 0 <= y < p && x != y
    ensures Coprime(x + 2 * p - y, p)
  {
    NonzeroCoprime(x - y, p);
    Intro(x - y, x + 2 * p - y, p, -2);
    CoprimeCong(x - y, x + 2 * p - y, p);
  }

  /** (x, y) is the third intersection, mirrored, of the line of slope k through (x1, y1); s is the sum of the
      abscissas of the other two. */
  ghost predicate LineEnd(k: int, s: int, x1: int, y1: int, x: int, y: int, p: int)
    requires p > 0
  {
    Cong(x, k * k - s, p) && Cong(y, k * (x1 - x) - y1, p)
  }

  /** x = k^2 - s, by one subtraction and reductions. */
  lemma Reduced3(sq: int, k: int, s: int, s': int, t: int, x: int, p: int)
    requires p > 1 && Times(sq, k, k, p) && Cong(s', s, p) && t == sq + 2 * p - s' && Cong(x, t, p)
    ensures Cong(x, k * k - s, p)
  {
    Sub(sq, k * k, s', s, p);
    Intro(t, sq - s', p, 2);
    Trans(x, t, sq - s', p);
    Trans(x, sq - s', k * k - s, p);
  }

  /** y = k (x1 - x) - y1, by two subtractions, a multiplication and reductions. */
  lemma Ordinate(k: int, x1: int, x: int, y1: int, d: int, m: int, t: int, y: int, p: int)
    requires p > 1 && d == x1 + 2 * p - x && Times(m, k, d, p) && t == m + 2 * p - y1 && Cong(y, t, p)
    ensures Cong(y, k * (x1 - x) - y1, p)
  {
    Intro(d, x1 - x, p, 2);
    Intro(t, m - y1, p, 2);
    Same(k, p);
    Same(y1, p);
    hide Cong;
    Mul(k, k, d, x1 - x, p);
    Trans(m, k * d, k * (x1 - x), p);
    Sub(m, k * (x1 - x), y1, y1, p);
    Trans(y, t, m - y1, p);
    Trans(y, m - y1, k * (x1 - x) - y1, p);
  }

  /** What the multiplications and subtractions of point_add amount to. */
  lemma ChordComputed(P: Point, Q: Point, a: int, d: int, i: int, e: int, k: int, x: int, y: int, p: int)
    requires Field(p) && P.Affine? && Q.Affine? && InField(P, p) && InField(Q, p) && P.x != Q.x
    requires d == Q.x + 2 * p - P.x && e == Q.y + 2 * p - P.y && Inverts(i, d, p) && Times(k, i, e, p)
    requires 0 <= x < p && 0 <= y < p && LineEnd(k, P.x + Q.x, P.x, P.y, x, y, p)
    ensures Affine(x, y) == Plus(P, Q, a, p)
  {
    var l := ChordSlope(P, Q, p);
    NonzeroCoprime(Q.x - P.x, p);
    SlopeTimes(Q.y - P.y, Q.x - P.x, p);
    Intro(d, Q.x - P.x, p, 2);
    Intro(e, Q.y - P.y, p, 2);
    SlopeComputed(Q.y - P.y, Q.x - P.x, l, e, d, i, k, p);
    ThirdComputed(P, Q, l, k, x, y, p);
  }

  method PointAdd(curve: Curve, cp1: CurvePoint, cp2: CurvePoint)
    requires curve.Valid() && Proper(cp1, curve) && Proper(cp2, curve)
    requires (cp1 == cp2 || Apart(cp1, cp2)) && curve.prime != cp2.x && curve.prime != cp2.y
    modifies cp2.x, cp2.y
    ensures Proper(cp2, curve)
    ensures cp2.At() == Plus(old(cp1.At()), old(cp2.At()), curve.a, Val(curve.prime))
  {
    ghost var P, Q, p := cp1.At(), cp2.At(), Val(curve.prime);
    PlusOnCurve(P, Q, curve.a, curve.b, p);
    OriginOffCurve(curve.a, curve.b, p);
    hide Val, Norm, Modulus, Cong, Cubic, Prime;
    var infinite := PointIsInfinity(cp1);
    if infinite {
      return;
    }
    infinite := PointIsInfinity(cp2);
    if infinite {
      PointCopy(cp1, cp2);
      return;
    }
    var equal := PointIsEqual(cp1, cp2);
    if equal {
      PointDouble(curve, cp2);
      return;
    }
    var opposite := PointIsNegativeOf(cp1, cp2, curve);
    if opposite {
      PointSetInfinity(cp2);
      return;
    }
    AddChord(curve.prime, cp1.x, cp1.y, cp2.x, cp2.y, curve.a);
  }

  lemma LineComputed(k: int, s: int, x1: int, y1: int, sq: int, s': int, t: int, f: int, x: int,
                     d: int, m: int, u: int, g: int, y: int, p: int)
    requires p > 1 && Times(sq, k, k, p) && Cong(s', s, p) && t == sq + 2 * p - s' && Cong(f, t, p) && x == f % p
    requires d == x1 + 2 * p - x && Times(m, k, d, p) && u == m + 2 * p - y1 && Cong(g, u, p) && y == g % p
    ensures LineEnd(k, s, x1, y1, x, y, p)
  {
    Residue(f, p);
    Trans(x, f, t, p);
    Reduced3(sq, k, s, s', t, x, p);
    Residue(g, p);
    Trans(y, g, u, p);
    Ordinate(k, x1, x, y1, d, m, u, y, p);
  }

  /** The last part of point_add and of point_double: xr = lambda^2 - s and yr = lambda (x1 - xr) - y1,
      where xr holds lambda^2 and yr holds s on entry. */
  method FinishLine(prime: array<word>, x1: array<word>, y1: array<word>,
                    lambda: array<word>, xr: array<word>, yr: array<word>, ghost s: int)
    requires IsModulus(prime) && Reduced(x1, Val(prime)) && Reduced(y1, Val(prime))
    requires PartlyReduced(lambda, Val(prime)) && PartlyReduced(xr, Val(prime)) && PartlyReduced(yr, Val(prime))
    requires xr != yr && xr !in {prime, x1, y1, lambda} && yr !in {prime, x1, y1, lambda}
    requires Times(Val(xr), Val(lambda), Val(lambda), Val(prime)) && Cong(Val(yr), s, Val(prime))
    modifies xr, yr
    ensures Reduced(xr, Val(prime)) && Reduced(yr, Val(prime))
    ensures LineEnd(Val(lambda), s, Val(x1), Val(y1), Val(xr), Val(yr), Val(prime))
  {
    ghost var p, k, sq, s' := Val(prime), Val(lambda), Val(xr), Val(yr);
    ghost var px, py := Val(x1), Val(y1);
    assert x1.Length == y1.Length == xr.Length == yr.Length == 9;
    hide Val, Norm, Cong, Times, LineEnd;
    BnSubtractMod(xr, yr, xr, prime);
    ghost var t := Val(xr);
    BnFastMod(xr, prime);
    ghost var f := Val(xr);
    BnMod(xr, prime);
    ghost var x := Val(xr);
    BnSubtractMod(x1, xr, yr, prime);
    ghost var d := Val(yr);
    BnMultiply(lambda, yr, prime);
    ghost var m := Val(yr);
    BnSubtractMod(yr, y1, yr, prime);
    ghost var u := Val(yr);
    BnFastMod(yr, prime);
    ghost var g := Val(yr);
    BnMod(yr, prime);
    LineComputed(k, s, px, py, sq, s', t, f, x, d, m, u, g, Val(yr), p);
  }

  /** lambda = (y2 - y1) / (x2 - x1). */
  method DivideChord(prime: array<word>, x1: array<word>, y1: array<word>, x2: array<word>, y2: array<word>,
                     lambda: array<word>)
      returns (ghost d: int, ghost i: int, ghost e: int)
    requires IsModulus(prime) && Prime(Val(prime)) && lambda.Length == 9 && lambda !in {prime, x1, y1, x2, y2}
    requires Reduced(x1, Val(prime)) && Reduced(y1, Val(prime)) && Reduced(x2, Val(prime)) && Reduced(y2, Val(prime))
    requires Val(x1) != Val(x2)
    modifies lambda
    ensures PartlyReduced(lambda, Val(prime)) && Times(Val(lambda), i, e, Val(prime))
    ensures d == Val(x2) + 2 * Val(prime) - Val(x1) && e == Val(y2) + 2 * Val(prime) - Val(y1)
    ensures Inverts(i, d, Val(prime))
  {
    DifferenceCoprime(Val(x2), Val(x1), Val(prime));
    var inv := new word[9];
    hide Val, Norm, Cong, Prime, Coprime, Times, Inverts;
    BnSubtractMod(x2, x1, inv, prime);
    d := Val(inv);
    BnInverse(inv, prime);
    i := Val(inv);
    BnSubtractMod(y2, y1, lambda, prime);
    e := Val(lambda);
    BnMultiply(inv, lambda, prime);
  }

  /** The generic case of point_add: (x1, y1) + (x2, y2) with different abscissas. */
  method AddChord(prime: array<word>, x1: array<word>, y1: array<word>, x2: array<word>, y2: array<word>, ghost a: int)
    requires IsModulus(prime) && Prime(Val(prime)) && x2 != y2 && x2 !in {prime, x1, y1} && y2 !in {prime, x1, y1}
    requires Reduced(x1, Val(prime)) && Reduced(y1, Val(prime)) && Reduced(x2, Val(prime)) && Reduced(y2, Val(prime))
    requires Val(x1) != Val(x2)
    modifies x2, y2
    ensures Reduced(x2, Val(prime)) && Reduced(y2, Val(prime))
    ensures Affine(Val(x2), Val(y2))
         == Plus(Affine(Val(x1), Val(y1)), old(Affine(Val(x2), Val(y2))), a, Val(prime))
  {
    ghost var P, Q, p := Affine(Val(x1), Val(y1)), Affine(Val(x2), Val(y2)), Val(prime);
    var lambda := new word[9];
    hide Val, Norm, Modulus, Cong, Cubic, Prime, Coprime, Times, Inverts, LineEnd, Plus;
    ghost var d, i, e := DivideChord(prime, x1, y1, x2, y2, lambda);
    var xr, yr := ChordPoint(prime, x1, y1, x2, lambda);
    ChordComputed(P, Q, a, d, i, e, Val(lambda), Val(xr), Val(yr), p);
    BnCopy(xr, x2);
    BnCopy(yr, y2);
  }

  /** The third point of the chord of slope lambda, mirrored. */
  method ChordPoint(prime: array<word>, x1: array<word>, y1: array<word>, x2: array<word>, lambda: array<word>)
      returns (xr: array<word>, yr: array<word>)
    requires IsModulus(prime) && PartlyReduced(lambda, Val(prime))
    requires Reduced(x1, Val(prime)) && Reduced(y1, Val(prime)) && Reduced(x2, Val(prime))
    ensures fresh(xr) && fresh(yr) && Reduced(xr, Val(prime)) && Reduced(yr, Val(prime)) && xr != yr
    ensures LineEnd(Val(lambda), Val(x1) + Val(x2), Val(x1), Val(y1), Val(xr), Val(yr), Val(prime))
  {
    hide Val, Norm, Modulus, Cong, Times, LineEnd;
    xr, yr := new word[9], new word[9];
    BnProduct(lambda, lambda, xr, prime);
    BnCopy(x1, yr);
    BnAddMod(yr, x2, prime);
    FinishLine(prime, x1, y1, lambda, xr, yr, Val(x1) + Val(x2));
  }

  lemma TangentComputed(P: Point, a: int, d: int, i: int, sq: int, t: int, n: int, k: int, x: int, y: int, p: int)
    requires Field(p) && P.Affine? && InField(P, p) && 0 < P.y
    requires Times(d, 2, P.y, p) && Inverts(i, d, p)
    requires Times(sq, P.x, P.x, p) && Times(t, 3, sq, p) && n == t + p + a && Times(k, n, i, p)
    requires 0 <= x < p && 0 <= y < p && LineEnd(k, 2 * P.x, P.x, P.y, x, y, p)
    ensures Affine(x, y) == Double(P, a, p)
  {
    var l := TangentSlope(P, a, p);
    TwiceCoprime(P.y, p);
    SlopeTimes(3 * (P.x * P.x) + a, 2 * P.y, p);
    TangentNumeratorComputed(P.x, a, sq, t, n, p);
    assert n * i == i * n;
    SlopeComputed(3 * (P.x * P.x) + a, 2 * P.y, l, n, d, i, k, p);
    assert k * k - 2 * P.x == k * k - P.x - P.x;
    ThirdComputed(P, P, l, k, x, y, p);
  }

  lemma TangentNumeratorComputed(x: int, a: int, sq: int, t: int, n: int, p: int)
    requires p > 1 && Times(sq, x, x, p) && Times(t, 3, sq, p) && n == t + p + a
    ensures Cong(n, 3 * (x * x) + a, p)
  {
    Intro(n, t + a, p, 1);
    Same(3, p);
    Same(a, p);
    Mul(3, 3, sq, x * x, p);
    Trans(t, 3 * sq, 3 * (x * x), p);
    Add(t, 3 * (x * x), a, a, p);
    Trans(n, t + a, 3 * (x * x) + a, p);
  }

  lemma CongTwiceCoprime(d: int, y: int, p: int)
    requires Field(p) && 0 < y < p && Times(d, 2, y, p)
    ensures Coprime(d, p)
  {
    TwiceCoprime(y, p);
    Sym(d, 2 * y, p);
    CoprimeCong(2 * y, d, p);
  }

  /** lambda = (3 x^2 + a) / (2 y). */
  method DivideTangent(prime: array<word>, x: array<word>, y: array<word>, a: int, lambda: array<word>)
      returns (ghost d: int, ghost i: int, ghost sq: int, ghost t: int, ghost n: int)
    requires IsModulus(prime) && Prime(Val(prime)) && lambda.Length == 9 && lambda !in {prime, x, y}
    requires Reduced(x, Val(prime)) && Reduced(y, Val(prime)) && 0 < Val(y)
    requires -3 <= a <= 0 && -a <= prime[0]
    modifies lambda
    ensures PartlyReduced(lambda, Val(prime)) && Times(Val(lambda), n, i, Val(prime))
    ensures Times(d, 2, Val(y), Val(prime)) && Inverts(i, d, Val(prime))
    ensures Times(sq, Val(x), Val(x), Val(prime)) && Times(t, 3, sq, Val(prime)) && n == t + Val(prime) + a
  {
    ghost var p, vy := Val(prime), Val(y);
    assert y.Length == 9 && p > 3;
    hide Val, Norm, Cong, Prime, Coprime, Times, Inverts;
    BnCopy(y, lambda);
    BnMultK(lambda, 2, prime);
    d := Val(lambda);
    CongTwiceCoprime(d, vy, p);
    BnInverse(lambda, prime);
    i := Val(lambda);
    var xr := new word[9];
    BnProduct(x, x, xr, prime);
    sq := Val(xr);
    BnMultK(xr, 3, prime);
    t := Val(xr);
    BnSubi(xr, -a, prime);
    n := Val(xr);
    BnMultiply(xr, lambda, prime);
  }

  /** The case of point_double that is not infinity. */
  method DoubleTangent(prime: array<word>, x: array<word>, y: array<word>, a: int)
    requires IsModulus(prime) && Prime(Val(prime)) && x != y && prime !in {x, y}
    requires Reduced(x, Val(prime)) && Reduced(y, Val(prime)) && 0 < Val(y)
    requires -3 <= a <= 0 && -a <= prime[0]
    modifies x, y
    ensures Reduced(x, Val(prime)) && Reduced(y, Val(prime))
    ensures Affine(Val(x), Val(y)) == Double(old(Affine(Val(x), Val(y))), a, Val(prime))
  {
    ghost var P, p := Affine(Val(x), Val(y)), Val(prime);
    var lambda := new word[9];
    hide Val, Norm, Cong, Cubic, Prime, Coprime, Times, Inverts, LineEnd, Double;
    ghost var d, i, sq, t, n := DivideTangent(prime, x, y, a, lambda);
    ghost var k := Val(lambda);
    var xr, yr := new word[9], new word[9];
    BnProduct(lambda, lambda, xr, prime);
    BnCopy(x, yr);
    BnLshift(yr);
    Same(2 * P.x, p);
    FinishLine(prime, x, y, lambda, xr, yr, 2 * P.x);
    TangentComputed(P, a, d, i, sq, t, n, k, Val(xr), Val(yr), p);
    BnCopy(xr, x);
    BnCopy(yr, y);
  }

  method PointDouble(curve: Curve, cp: CurvePoint)
    requires curve.Valid() && Proper(cp, curve)
    requires curve.prime != cp.x && curve.prime != cp.y
    modifies cp.x, cp.y
    ensures Proper(cp, curve)
    ensures cp.At() == Double(old(cp.At()), curve.a, Val(curve.prime))
  {
    ghost var P, p := cp.At(), Val(curve.prime);
    PlusOnCurve(P, P, curve.a, curve.b, p);
    OriginOffCurve(curve.a, curve.b, p);
    assert Plus(P, P, curve.a, p) == Double(P, curve.a, p);
    hide Val, Norm, Modulus, Cong, Cubic, Prime, Plus;
    var infinite := PointIsInfinity(cp);
    if infinite {
      return;
    }
    var zero := BnIsZero(cp.y);
    if zero {
      PointSetInfinity(cp);
      return;
    }
    DoubleTangent(curve.prime, cp.x, cp.y, curve.a);
  }
}
