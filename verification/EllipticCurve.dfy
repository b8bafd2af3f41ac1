/** The affine group law of y^2 = x^3 + a x + b over a prime field, and the Jacobian formulas of ecdsa.c on
    congruence classes. */
module EllipticCurve {
  import opened Words
  import opened Congruence

  /** A point in affine coordinates.  The C code stores infinity as (0, 0). */
  datatype Point = Infinity | Affine(x: int, y: int)

  lemma InverseWitness(a: int, p: int)
    requires p > 1 && Coprime(a, p)
    ensures exists y: int :: 0 <= y < p && Cong(a * y, 1, p)
  {
    var y := InverseExists(a, p);
  }

  ghost function Inverse(a: int, p: int): (y: int)
    requires p > 1 && Coprime(a, p)
    ensures 0 <= y < p && Cong(a * y, 1, p)
  {
    InverseWitness(a, p);
    var y: int :| 0 <= y < p && Cong(a * y, 1, p);
    y
  }

  ghost predicate Field(p: int)
  {
    Prime(p) && p > 3 && p % 2 == 1
  }

  ghost predicate InField(P: Point, p: int)
  {
    P.Affine? ==> 0 <= P.x < p && 0 <= P.y < p
  }

  lemma NonzeroCoprime(d: int, p: int)
    requires Prime(p) && -p < d < p && d != 0
    ensures Coprime(d, p)
  {
    if d % p == 0 {
      DivMod(d, p);
      if d / p >= 1 {
        Product(p, 1, d / p);
      } else if d / p <= -1 {
        Product(p, d / p, -1);
      }
      assert false;
    }
    PrimeCoprime(d, p);
  }

  lemma TwiceCoprime(y: int, p: int)
    requires Field(p) && 0 < y < p
    ensures Coprime(2 * y, p)
  {
    NonzeroCoprime(y, p);
    OddCoprimeTwo(p);
    CoprimeProduct(2, y, p);
  }

  /** Slope of the tangent at P. */
  ghost function TangentSlope(P: Point, a: int, p: int): int
    requires Field(p) && P.Affine? && 0 < P.y < p
  {
    TwiceCoprime(P.y, p);
    (3 * (P.x * P.x) + a) * Inverse(2 * P.y, p)
  }

  /** Slope of the line through P and Q. */
  ghost function ChordSlope(P: Point, Q: Point, p: int): int
    requires Field(p) && P.Affine? && Q.Affine? && InField(P, p) && InField(Q, p) && P.x != Q.x
  {
    NonzeroCoprime(Q.x - P.x, p);
    (Q.y - P.y) * Inverse(Q.x - P.x, p)
  }

  /** Third intersection of a line of slope l through P and Q, mirrored. */
  ghost function Third(P: Point, Q: Point, l: int, p: int): Point
    requires p > 0 && P.Affine? && Q.Affine?
  {
    var x := (l * l - P.x - Q.x) % p;
    Affine(x, (l * (P.x - x) - P.y) % p)
  }

  ghost function Double(P: Point, a: int, p: int): Point
    requires Field(p) && InField(P, p)
  {
    if P.Infinity? || P.y == 0 then Infinity
    else Third(P, P, TangentSlope(P, a, p), p)
  }

  ghost function Plus(P: Point, Q: Point, a: int, p: int): Point
    requires Field(p) && InField(P, p) && InField(Q, p)
  {
    if P.Infinity? then Q
    else if Q.Infinity? then P
    else if P == Q then Double(P, a, p)
    else if P.x == Q.x then Infinity
    else Third(P, Q, ChordSlope(P, Q, p), p)
  }

  ghost function Negative(P: Point, p: int): Point
  {
    if P.Infinity? then Infinity else Affine(P.x, if P.y == 0 then 0 else p - P.y)
  }

  // ----- the law as congruences

  /** l is the slope of a line through P and Q, and R the mirrored third intersection. */
  ghost predicate OnLine(P: Point, Q: Point, R: Point, l: int, p: int)
    requires p > 0
  {
    && P.Affine? && Q.Affine? && R.Affine?
    && Cong(R.x, l * l - P.x - Q.x, p)
    && Cong(R.y, l * (P.x - R.x) - P.y, p)
    && Cong(l * (Q.x - P.x), Q.y - P.y, p)
  }

  lemma ThirdOnLine(P: Point, Q: Point, l: int, p: int)
    requires p > 1 && P.Affine? && Q.Affine? && Cong(l * (Q.x - P.x), Q.y - P.y, p)
    ensures OnLine(P, Q, Third(P, Q, l, p), l, p) && InField(Third(P, Q, l, p), p)
  {
    var x := (l * l - P.x - Q.x) % p;
    Residue(l * l - P.x - Q.x, p);
    Residue(l * (P.x - x) - P.y, p);
    DivMod(l * l - P.x - Q.x, p);
    DivMod(l * (P.x - x) - P.y, p);
  }

  lemma SlopeTimes(n: int, d: int, p: int)
    requires p > 1 && Coprime(d, p)
    ensures Cong((n * Inverse(d, p)) * d, n, p)
  {
    var i := Inverse(d, p);
    Same(n, p);
    Mul(n, n, d * i, 1, p);
    assert (n * i) * d == n * (d * i);
  }

  lemma Same(a: int, p: int)
    requires p > 0
    ensures Cong(a, a, p)
  {
  }

  /** A sum that is not infinity lies on a line through the summands; on a tangent if they are equal. */
  lemma SumOnLine(P: Point, Q: Point, a: int, p: int) returns (l: int)
    requires Field(p) && InField(P, p) && InField(Q, p) && P.Affine? && Q.Affine?
    requires Plus(P, Q, a, p).Affine?
    ensures OnLine(P, Q, Plus(P, Q, a, p), l, p) && InField(Plus(P, Q, a, p), p)
    ensures P.x == Q.x ==> P == Q && 0 < P.y && Cong(l * (2 * P.y), 3 * (P.x * P.x) + a, p)
  {
    hide Plus, Third, OnLine, Prime;
    SumIsThird(P, Q, a, p);
    if P == Q {
      l := TangentSlope(P, a, p);
      TangentTimes(P, a, p);
    } else {
      l := ChordSlope(P, Q, p);
      ChordTimes(P, Q, p);
    }
    ThirdOnLine(P, Q, l, p);
  }

  lemma SumIsThird(P: Point, Q: Point, a: int, p: int)
    requires Field(p) && InField(P, p) && InField(Q, p) && P.Affine? && Q.Affine?
    requires Plus(P, Q, a, p).Affine?
    ensures P.x == Q.x ==> P == Q
    ensures P == Q ==> 0 < P.y && Plus(P, Q, a, p) == Third(P, Q, TangentSlope(P, a, p), p)
    ensures P != Q ==> Plus(P, Q, a, p) == Third(P, Q, ChordSlope(P, Q, p), p)
  {
  }

  lemma TangentTimes(P: Point, a: int, p: int)
    requires Field(p) && InField(P, p) && P.Affine? && 0 < P.y
    ensures Cong(TangentSlope(P, a, p) * (2 * P.y), 3 * (P.x * P.x) + a, p)
    ensures Cong(TangentSlope(P, a, p) * (P.x - P.x), P.y - P.y, p)
  {
    hide Prime;
    TwiceCoprime(P.y, p);
    SlopeTimes(3 * (P.x * P.x) + a, 2 * P.y, p);
    assert TangentSlope(P, a, p) * (P.x - P.x) == 0;
  }

  lemma ChordTimes(P: Point, Q: Point, p: int)
    requires Field(p) && P.Affine? && Q.Affine? && InField(P, p) && InField(Q, p) && P.x != Q.x
    ensures Cong(ChordSlope(P, Q, p) * (Q.x - P.x), Q.y - P.y, p)
  {
    hide Prime;
    NonzeroCoprime(Q.x - P.x, p);
    SlopeTimes(Q.y - P.y, Q.x - P.x, p);
  }

  // ----- Jacobian coordinates

  /** (X, Y, Z) stands for the affine point (X / Z^2, Y / Z^3). */
  ghost predicate Represents(X: int, Y: int, Z: int, P: Point, p: int)
    requires p > 0
  {
    P.Affine? && Coprime(Z, p) && Cong(X, P.x * (Z * Z), p) && Cong(Y, P.y * (Z * Z * Z), p)
  }

  /** The common end of both branches of point_jacobian_add.  z is the denominator of the slope l. */
  lemma AdditionFormula(P: Point, Q: Point, R: Point, l: int, z: int, r: int, q: int, c: int, X3: int, Y3: int, p: int)
    requires p > 1 && p % 2 == 1 && OnLine(P, Q, R, l, p)
    requires Cong(r, l * z, p) && Cong(q, (z * z) * (P.x + Q.x), p) && Cong(c, (z * z * z) * (P.y + Q.y), p)
    requires Cong(X3, r * r - q, p) && Cong(2 * Y3, r * (q - 2 * X3) - c, p)
    ensures Cong(X3, R.x * (z * z), p) && Cong(Y3, R.y * (z * z * z), p)
  {
    AdditionX(P, Q, R, l, z, r, q, X3, p);
    AdditionY(P, Q, R, l, z, r, q, c, X3, Y3, p);
  }

  lemma AdditionX(P: Point, Q: Point, R: Point, l: int, z: int, r: int, q: int, X3: int, p: int)
    requires p > 1 && P.Affine? && Q.Affine? && R.Affine? && Cong(R.x, l * l - P.x - Q.x, p)
    requires Cong(r, l * z, p) && Cong(q, (z * z) * (P.x + Q.x), p) && Cong(X3, r * r - q, p)
    ensures Cong(X3, R.x * (z * z), p)
  {
    hide Cong;
    Mul(r, l * z, r, l * z, p);
    Sub(r * r, (l * z) * (l * z), q, (z * z) * (P.x + Q.x), p);
    Trans(X3, r * r - q, (l * z) * (l * z) - (z * z) * (P.x + Q.x), p);
    SquareFactor(l, z, P.x + Q.x);
    Same(z * z, p);
    Mul(R.x, l * l - P.x - Q.x, z * z, z * z, p);
    Sym(R.x * (z * z), (l * l - P.x - Q.x) * (z * z), p);
    Trans(X3, (l * l - P.x - Q.x) * (z * z), R.x * (z * z), p);
  }

  lemma SquareFactor(l: int, z: int, s: int)
    ensures (l * z) * (l * z) - (z * z) * s == (l * l - s) * (z * z)
  {
    assert (l * z) * (l * z) == (l * l) * (z * z);
  }

  /** Both equations for R.y, added. */
  lemma TwiceY(P: Point, Q: Point, R: Point, l: int, p: int)
    requires p > 1 && OnLine(P, Q, R, l, p)
    ensures Cong(2 * R.y, l * (P.x + Q.x - 2 * R.x) - (P.y + Q.y), p)
  {
    var i := Quotient(R.y, l * (P.x - R.x) - P.y, p);
    var j := Quotient(l * (Q.x - P.x), Q.y - P.y, p);
    assert l * (P.x + Q.x - 2 * R.x) == 2 * (l * (P.x - R.x)) + l * (Q.x - P.x);
    assert (2 * i - j) * p == 2 * (i * p) - j * p;
    Intro(2 * R.y, l * (P.x + Q.x - 2 * R.x) - (P.y + Q.y), p, 2 * i - j);
  }

  lemma CubeFactor(l: int, z: int, s: int, x: int, t: int)
    ensures (l * z) * ((z * z) * s - 2 * (x * (z * z))) - (z * z * z) * t == (z * z * z) * (l * (s - 2 * x) - t)
  {
    assert (l * z) * ((z * z) * s - 2 * (x * (z * z))) == (z * z * z) * (l * (s - 2 * x));
  }

  /** r (q - 2 X) - c, term by term. */
  lemma CrossMinus(r: int, r': int, q: int, q': int, X: int, X': int, c: int, c': int, p: int)
    requires p > 0 && Cong(r, r', p) && Cong(q, q', p) && Cong(X, X', p) && Cong(c, c', p)
    ensures Cong(r * (q - 2 * X) - c, r' * (q' - 2 * X') - c', p)
  {
    hide Cong;
    Add(X, X', X, X', p);
    Sub(q, q', X + X, X' + X', p);
    Mul(r, r', q - 2 * X, q' - 2 * X', p);
    Sub(r * (q - 2 * X), r' * (q' - 2 * X'), c, c', p);
  }

  lemma AdditionY(P: Point, Q: Point, R: Point, l: int, z: int, r: int, q: int, c: int, X3: int, Y3: int, p: int)
    requires p > 1 && p % 2 == 1 && OnLine(P, Q, R, l, p)
    requires Cong(r, l * z, p) && Cong(q, (z * z) * (P.x + Q.x), p) && Cong(c, (z * z * z) * (P.y + Q.y), p)
    requires Cong(X3, R.x * (z * z), p) && Cong(2 * Y3, r * (q - 2 * X3) - c, p)
    ensures Cong(Y3, R.y * (z * z * z), p)
  {
    var s, t := P.x + Q.x, P.y + Q.y;
    var w := l * (s - 2 * R.x) - t;
    CrossMinus(r, l * z, q, (z * z) * s, X3, R.x * (z * z), c, (z * z * z) * t, p);
    CubeFactor(l, z, s, R.x, t);
    Trans(2 * Y3, r * (q - 2 * X3) - c, (z * z * z) * w, p);
    TwiceY(P, Q, R, l, p);
    Same(z * z * z, p);
    Mul(z * z * z, z * z * z, 2 * R.y, w, p);
    Sym((z * z * z) * (2 * R.y), (z * z * z) * w, p);
    Trans(2 * Y3, (z * z * z) * w, (z * z * z) * (2 * R.y), p);
    assert (z * z * z) * (2 * R.y) == 2 * (R.y * (z * z * z));
    CancelTwo(Y3, R.y * (z * z * z), p);
  }

  /** Generic branch: h = x1' - x2 and r = y1' - y2 give a denominator of the slope.
      (X, Y, Z) stands for Q, and (u, v) is P brought to the denominators Z^2 and Z^3. */
  lemma GenericSlope(P: Point, Q: Point, l: int, X: int, Y: int, Z: int, u: int, v: int, h: int, r: int, p: int)
    requires p > 1 && P.Affine? && Q.Affine? && Cong(l * (Q.x - P.x), Q.y - P.y, p)
    requires Cong(X, Q.x * (Z * Z), p) && Cong(Y, Q.y * (Z * Z * Z), p)
    requires Cong(u, P.x * (Z * Z), p) && Cong(v, P.y * (Z * Z * Z), p)
    requires Cong(h, u - X, p) && Cong(r, v - Y, p)
    ensures Cong(r, l * (h * Z), p)
    ensures Cong(h, (P.x - Q.x) * (Z * Z), p)
  {
    hide Cong;
    var d, e := P.x - Q.x, P.y - Q.y;
    var z2, z3 := Z * Z, Z * Z * Z;
    Sub(u, P.x * z2, X, Q.x * z2, p);
    assert P.x * z2 - Q.x * z2 == d * z2;
    Trans(h, u - X, d * z2, p);
    Sub(v, P.y * z3, Y, Q.y * z3, p);
    assert P.y * z3 - Q.y * z3 == e * z3;
    Trans(r, v - Y, e * z3, p);
    // l * h * Z = l * d * Z^3 = e * Z^3
    Same(l * Z, p);
    Mul(l * Z, l * Z, h, d * z2, p);
    assert (l * Z) * h == l * (h * Z);
    assert (l * Z) * (d * z2) == (l * -d) * -z3;
    Same(-z3, p);
    Mul(l * (Q.x - P.x), Q.y - P.y, -z3, -z3, p);
    assert (Q.y - P.y) * -z3 == e * z3;
    Trans(l * (h * Z), (l * Z) * (d * z2), e * z3, p);
    Sym(l * (h * Z), e * z3, p);
    Trans(r, e * z3, l * (h * Z), p);
  }

  /** Doubling branch: h = y1' + y2 and r = 3 x2^2 + a Z^4 give a denominator of the slope. */
  lemma DoublingSlope(Q: Point, l: int, a: int, X: int, Y: int, Z: int, v: int, h: int, r: int, p: int)
    requires p > 1 && Q.Affine? && Cong(l * (2 * Q.y), 3 * (Q.x * Q.x) + a, p)
    requires Cong(X, Q.x * (Z * Z), p) && Cong(Y, Q.y * (Z * Z * Z), p) && Cong(v, Q.y * (Z * Z * Z), p)
    requires Cong(h, v + Y, p) && Cong(r, 3 * (X * X) + a * ((Z * Z) * (Z * Z)), p)
    ensures Cong(r, l * (h * Z), p)
    ensures Cong(h, (2 * Q.y) * (Z * Z * Z), p)
  {
    hide Cong;
    var z2, z3, z4 := Z * Z, Z * Z * Z, (Z * Z) * (Z * Z);
    var n := 3 * (Q.x * Q.x) + a;
    Add(v, Q.y * z3, Y, Q.y * z3, p);
    assert Q.y * z3 + Q.y * z3 == (2 * Q.y) * z3;
    Trans(h, v + Y, (2 * Q.y) * z3, p);
    TangentNumerator(Q.x, a, X, Z, p);
    Trans(r, 3 * (X * X) + a * z4, n * z4, p);
    // l * h * Z = l * 2 y Z^4 = n * Z^4
    Same(l * Z, p);
    Mul(l * Z, l * Z, h, (2 * Q.y) * z3, p);
    assert (l * Z) * h == l * (h * Z);
    FourthPower(l, 2 * Q.y, Z);
    Same(z4, p);
    Mul(l * (2 * Q.y), n, z4, z4, p);
    Trans(l * (h * Z), (l * (2 * Q.y)) * z4, n * z4, p);
    Sym(l * (h * Z), n * z4, p);
    Trans(r, n * z4, l * (h * Z), p);
  }

  lemma FourthPower(l: int, y: int, Z: int)
    ensures (l * Z) * (y * (Z * Z * Z)) == (l * y) * ((Z * Z) * (Z * Z))
  {
    assert Z * (Z * Z * Z) == (Z * Z) * (Z * Z);
    assert (l * Z) * (y * (Z * Z * Z)) == (l * y) * (Z * (Z * Z * Z));
  }

  lemma TangentNumerator(x: int, a: int, X: int, Z: int, p: int)
    requires p > 0 && Cong(X, x * (Z * Z), p)
    ensures Cong(3 * (X * X) + a * ((Z * Z) * (Z * Z)), (3 * (x * x) + a) * ((Z * Z) * (Z * Z)), p)
  {
    hide Cong;
    var z2 := Z * Z;
    Mul(X, x * z2, X, x * z2, p);
    Same(3, p);
    Mul(3, 3, X * X, (x * z2) * (x * z2), p);
    Same(a * (z2 * z2), p);
    Add(3 * (X * X), 3 * ((x * z2) * (x * z2)), a * (z2 * z2), a * (z2 * z2), p);
    assert (x * z2) * (x * z2) == (x * x) * (z2 * z2);
    assert 3 * ((x * x) * (z2 * z2)) + a * (z2 * z2) == (3 * (x * x) + a) * (z2 * z2);
  }

  /** Sums of coordinates on the common denominator. */
  lemma CommonDenominator(P: Point, Q: Point, X: int, Y: int, Z: int, u: int, v: int, h: int, q: int, c: int, hh: int,
                          hhh: int, p: int)
    requires p > 1 && P.Affine? && Q.Affine?
    requires Cong(X, Q.x * (Z * Z), p) && Cong(Y, Q.y * (Z * Z * Z), p)
    requires Cong(u, P.x * (Z * Z), p) && Cong(v, P.y * (Z * Z * Z), p)
    requires Cong(hh, h * h, p) && Cong(hhh, hh * h, p)
    requires Cong(q, (u + X) * hh, p) && Cong(c, (v + Y) * hhh, p)
    ensures var z := h * Z; Cong(q, (z * z) * (P.x + Q.x), p) && Cong(c, (z * z * z) * (P.y + Q.y), p)
  {
    hide Cong;
    var z2, z3 := Z * Z, Z * Z * Z;
    Add(u, P.x * z2, X, Q.x * z2, p);
    assert P.x * z2 + Q.x * z2 == (P.x + Q.x) * z2;
    Mul(u + X, (P.x + Q.x) * z2, hh, h * h, p);
    Trans(q, (u + X) * hh, ((P.x + Q.x) * z2) * (h * h), p);
    PowersOfProduct(P.x + Q.x, P.y + Q.y, h, Z);
    Add(v, P.y * z3, Y, Q.y * z3, p);
    assert P.y * z3 + Q.y * z3 == (P.y + Q.y) * z3;
    Same(h, p);
    Mul(hh, h * h, h, h, p);
    Trans(hhh, hh * h, (h * h) * h, p);
    Mul(v + Y, (P.y + Q.y) * z3, hhh, (h * h) * h, p);
    Trans(c, (v + Y) * hhh, ((P.y + Q.y) * z3) * ((h * h) * h), p);
  }

  lemma PowersOfProduct(s: int, t: int, h: int, Z: int)
    ensures var z := h * Z;
      && (s * (Z * Z)) * (h * h) == (z * z) * s
      && (t * (Z * Z * Z)) * ((h * h) * h) == (z * z * z) * t
  {
    var z := h * Z;
    assert (Z * Z) * (h * h) == z * z;
    assert (Z * Z * Z) * ((h * h) * h) == z * z * z by {
      assert (Z * Z * Z) * ((h * h) * h) == ((Z * Z) * (h * h)) * (Z * h);
    }
  }

  /** Congruent coordinates stand for the same point. */
  lemma RepresentsCong(X: int, Y: int, z: int, Z: int, P: Point, p: int)
    requires p > 1 && P.Affine? && Cong(Z, z, p) && Coprime(z, p)
    requires Cong(X, P.x * (z * z), p) && Cong(Y, P.y * (z * z * z), p)
    ensures Represents(X, Y, Z, P, p)
  {
    Sym(Z, z, p);
    CoprimeCong(z, Z, p);
    hide Cong, Coprime;
    Mul(z, Z, z, Z, p);
    Mul(z * z, Z * Z, z, Z, p);
    Same(P.x, p);
    Same(P.y, p);
    Mul(P.x, P.x, z * z, Z * Z, p);
    Mul(P.y, P.y, z * z * z, Z * Z * Z, p);
    Trans(X, P.x * (z * z), P.x * (Z * Z), p);
    Trans(Y, P.y * (z * z * z), P.y * (Z * Z * Z), p);
  }

  lemma SquareCoprime(Z: int, p: int)
    requires p > 1 && Coprime(Z, p)
    ensures Coprime(Z * Z, p) && Coprime(Z * Z * Z, p)
  {
    CoprimeProduct(Z, Z, p);
    CoprimeProduct(Z * Z, Z, p);
  }

  /** Equal x coordinates, on the common denominator and off it. */
  lemma SameAbscissa(P: Point, Q: Point, X: int, Z: int, u: int, p: int)
    requires p > 1 && P.Affine? && Q.Affine? && InField(P, p) && InField(Q, p) && Coprime(Z, p)
    requires Cong(X, Q.x * (Z * Z), p) && Cong(u, P.x * (Z * Z), p)
    ensures Cong(u, X, p) <==> P.x == Q.x
  {
    var z2 := Z * Z;
    Sym(X, Q.x * z2, p);
    if P.x == Q.x {
      Trans(u, P.x * z2, X, p);
    }
    if Cong(u, X, p) {
      Sym(u, P.x * z2, p);
      Trans(P.x * z2, u, X, p);
      Trans(P.x * z2, X, Q.x * z2, p);
      SquareCoprime(Z, p);
      assert z2 * P.x == P.x * z2 && z2 * Q.x == Q.x * z2;
      Cancel(z2, P.x, Q.x, p);
      Unique(P.x, Q.x, p);
    }
  }

  /** The values point_jacobian_add computes stand for the sum of the points. */
  lemma JacobianAddition(P: Point, Q: Point, a: int, X: int, Y: int, Z: int, u: int, v: int, doubling: bool,
                         h: int, r: int, hh: int, hhh: int, q: int, c: int, X3: int, Y3: int, Z3: int, p: int)
    requires Field(p) && P.Affine? && InField(P, p) && InField(Q, p) && Represents(X, Y, Z, Q, p)
    requires Plus(P, Q, a, p).Affine?
    requires Cong(u, P.x * (Z * Z), p) && Cong(v, P.y * (Z * Z * Z), p)
    requires doubling <==> Cong(u, X, p)
    requires doubling ==> Cong(h, v + Y, p) && Cong(r, 3 * (X * X) + a * ((Z * Z) * (Z * Z)), p)
    requires !doubling ==> Cong(h, u - X, p) && Cong(r, v - Y, p)
    requires Cong(hh, h * h, p) && Cong(hhh, hh * h, p)
    requires Cong(q, (u + X) * hh, p) && Cong(c, (v + Y) * hhh, p)
    requires Cong(Z3, h * Z, p) && Cong(X3, r * r - q, p) && Cong(2 * Y3, r * (q - 2 * X3) - c, p)
    ensures Represents(X3, Y3, Z3, Plus(P, Q, a, p), p)
  {
    var R := Plus(P, Q, a, p);
    SameAbscissa(P, Q, X, Z, u, p);
    var l := SumOnLine(P, Q, a, p);
    hide Plus, Cong, Coprime;
    SquareCoprime(Z, p);
    if doubling {
      DoublingSlope(Q, l, a, X, Y, Z, v, h, r, p);
      TwiceCoprime(Q.y, p);
      CoprimeProduct(2 * Q.y, Z * Z * Z, p);
      Sym(h, (2 * Q.y) * (Z * Z * Z), p);
      CoprimeCong((2 * Q.y) * (Z * Z * Z), h, p);
    } else {
      GenericSlope(P, Q, l, X, Y, Z, u, v, h, r, p);
      NonzeroCoprime(P.x - Q.x, p);
      CoprimeProduct(P.x - Q.x, Z * Z, p);
      Sym(h, (P.x - Q.x) * (Z * Z), p);
      CoprimeCong((P.x - Q.x) * (Z * Z), h, p);
    }
    CommonDenominator(P, Q, X, Y, Z, u, v, h, q, c, hh, hhh, p);
    AdditionFormula(P, Q, R, l, h * Z, r, q, c, X3, Y3, p);
    CoprimeProduct(h, Z, p);
    RepresentsCong(X3, Y3, h * Z, Z3, R, p);
  }

  /** The numerator m of point_jacobian_double belongs to the denominator Y Z of the slope. */
  lemma DoubleSlope(P: Point, l: int, a: int, X: int, Y: int, Z: int, m: int, p: int)
    requires p > 1 && p % 2 == 1 && P.Affine? && Cong(l * (2 * P.y), 3 * (P.x * P.x) + a, p)
    requires Cong(X, P.x * (Z * Z), p) && Cong(Y, P.y * (Z * Z * Z), p)
    requires Cong(2 * m, 3 * (X * X) + a * ((Z * Z) * (Z * Z)), p)
    ensures Cong(m, l * (Y * Z), p)
  {
    Same(Y + Y, p);
    DoublingSlope(P, l, a, X, Y, Z, Y, Y + Y, 2 * m, p);
    assert l * ((Y + Y) * Z) == 2 * (l * (Y * Z));
    CancelTwo(m, l * (Y * Z), p);
  }

  lemma DoubleDenominator(P: Point, X: int, Y: int, Z: int, ysq: int, xysq: int, p: int)
    requires p > 1 && P.Affine? && Cong(X, P.x * (Z * Z), p) && Cong(Y, P.y * (Z * Z * Z), p)
    requires Cong(ysq, Y * Y, p) && Cong(xysq, X * ysq, p)
    ensures var z := Y * Z;
      && Cong(2 * xysq, (z * z) * (P.x + P.x), p)
      && Cong(2 * (ysq * ysq), (z * z * z) * (P.y + P.y), p)
  {
    hide Cong;
    var z := Y * Z;
    Mul(X, P.x * (Z * Z), ysq, Y * Y, p);
    Trans(xysq, X * ysq, (P.x * (Z * Z)) * (Y * Y), p);
    Add(xysq, (P.x * (Z * Z)) * (Y * Y), xysq, (P.x * (Z * Z)) * (Y * Y), p);
    PowersOfProduct(P.x, P.y, Y, Z);
    assert (z * z) * P.x + (z * z) * P.x == (z * z) * (P.x + P.x);
    Mul(ysq, Y * Y, ysq, Y * Y, p);
    Same((Y * Y) * Y, p);
    Mul(Y, P.y * (Z * Z * Z), (Y * Y) * Y, (Y * Y) * Y, p);
    assert Y * ((Y * Y) * Y) == (Y * Y) * (Y * Y);
    Trans(ysq * ysq, (Y * Y) * (Y * Y), (z * z * z) * P.y, p);
    Add(ysq * ysq, (z * z * z) * P.y, ysq * ysq, (z * z * z) * P.y, p);
    assert (z * z * z) * P.y + (z * z * z) * P.y == (z * z * z) * (P.y + P.y);
  }

  lemma TwiceMinus(m: int, d: int, s: int)
    ensures (m * d - s) + (m * d - s) == m * (2 * d) - 2 * s
  {
  }

  /** The values point_jacobian_double computes stand for the doubled point. */
  lemma JacobianDoubling(P: Point, a: int, X: int, Y: int, Z: int, m: int, ysq: int, xysq: int,
                         X3: int, Y3: int, Z3: int, p: int)
    requires Field(p) && InField(P, p) && Represents(X, Y, Z, P, p) && Double(P, a, p).Affine?
    requires Cong(2 * m, 3 * (X * X) + a * ((Z * Z) * (Z * Z)), p)
    requires Cong(ysq, Y * Y, p) && Cong(xysq, X * ysq, p)
    requires Cong(Z3, Y * Z, p) && Cong(X3, m * m - 2 * xysq, p) && Cong(Y3, m * (xysq - X3) - ysq * ysq, p)
    ensures Represents(X3, Y3, Z3, Double(P, a, p), p)
  {
    var R := Double(P, a, p);
    assert R == Plus(P, P, a, p);
    var l := SumOnLine(P, P, a, p);
    hide Plus, Double, Cong, Coprime;
    DoubleSlope(P, l, a, X, Y, Z, m, p);
    DoubleDenominator(P, X, Y, Z, ysq, xysq, p);
    Add(Y3, m * (xysq - X3) - ysq * ysq, Y3, m * (xysq - X3) - ysq * ysq, p);
    TwiceMinus(m, xysq - X3, ysq * ysq);
    AdditionFormula(P, P, R, l, Y * Z, m, 2 * xysq, 2 * (ysq * ysq), X3, Y3, p);
    NonzeroCoprime(P.y, p);
    SquareCoprime(Z, p);
    CoprimeProduct(P.y, Z * Z * Z, p);
    Sym(Y, P.y * (Z * Z * Z), p);
    CoprimeCong(P.y * (Z * Z * Z), Y, p);
    CoprimeProduct(Y, Z, p);
    RepresentsCong(X3, Y3, Y * Z, Z3, R, p);
  }

  /** Negating the z coordinate, or the y coordinate, negates the point. */
  lemma NegatedZ(X: int, Y: int, Z: int, Z': int, P: Point, p: int)
    requires p > 1 && InField(P, p) && Represents(X, Y, Z, P, p) && Cong(Z', -Z, p)
    ensures Represents(X, Y, Z', Negative(P, p), p)
  {
    Intro(-P.y, Negative(P, p).y, p, if P.y == 0 then 0 else -1);
    NegativeCoprime(Z, p);
    var N := Negative(P, p);
    hide Cong, Coprime;
    assert (-Z) * (-Z) == Z * Z;
    Same((-Z) * (-Z) * (-Z), p);
    assert (-P.y) * ((-Z) * (-Z) * (-Z)) == P.y * (Z * Z * Z);
    Mul(-P.y, N.y, (-Z) * (-Z) * (-Z), (-Z) * (-Z) * (-Z), p);
    Trans(Y, P.y * (Z * Z * Z), N.y * ((-Z) * (-Z) * (-Z)), p);
    RepresentsCong(X, Y, -Z, Z', N, p);
  }

  lemma NegativeCoprime(Z: int, p: int)
    requires p > 1 && Coprime(Z, p)
    ensures Coprime(-Z, p)
  {
    InverseCoprime(-1, -1, p);
    CoprimeProduct(-1, Z, p);
  }

  lemma NegatedY(X: int, Y: int, Y': int, Z: int, P: Point, p: int)
    requires p > 1 && InField(P, p) && Represents(X, Y, Z, P, p) && Cong(Y', -Y, p)
    ensures Represents(X, Y', Z, Negative(P, p), p)
  {
    Intro(-P.y, Negative(P, p).y, p, if P.y == 0 then 0 else -1);
    hide Cong, Coprime;
    var N, z3 := Negative(P, p), Z * Z * Z;
    Sub(0, 0, Y, P.y * z3, p) by {
      Same(0, p);
    }
    assert 0 - P.y * z3 == (-P.y) * z3;
    Same(z3, p);
    Mul(-P.y, N.y, z3, z3, p);
    Trans(Y', -Y, (-P.y) * z3, p);
    Trans(Y', (-P.y) * z3, N.y * z3, p);
  }

  /** Both coordinates of a represented point are recovered by dividing. */
  lemma Recovered(X: int, Y: int, Z: int, i: int, x: int, y: int, P: Point, p: int)
    requires p > 1 && InField(P, p) && Represents(X, Y, Z, P, p) && Cong(Z * i, 1, p)
    requires 0 <= x < p && 0 <= y < p && Cong(x, X * (i * i), p) && Cong(y, Y * (i * i * i), p)
    ensures P == Affine(x, y)
  {
    var z2, z3 := Z * Z, Z * Z * Z;
    hide Cong, Coprime;
    Mul(Z * i, 1, Z * i, 1, p);
    Mul((Z * i) * (Z * i), 1, Z * i, 1, p);
    PowersOfProduct(1, 1, i, Z);
    InverseSquares(Z, i);
    Divided(X, P.x, z2, i * i, x, p);
    Divided(Y, P.y, z3, i * i * i, y, p);
  }

  lemma InverseSquares(Z: int, i: int)
    ensures (Z * i) * (Z * i) == (Z * Z) * (i * i)
    ensures (Z * i) * (Z * i) * (Z * i) == (Z * Z * Z) * (i * i * i)
  {
    assert (Z * i) * (Z * i) == (Z * Z) * (i * i);
    assert ((Z * Z) * (i * i)) * (Z * i) == (Z * Z * Z) * (i * i * i);
  }

  lemma Divided(X: int, c: int, z: int, i: int, x: int, p: int)
    requires p > 1 && 0 <= c < p && 0 <= x < p && Cong(X, c * z, p) && Cong(z * i, 1, p) && Cong(x, X * i, p)
    ensures x == c
  {
    Same(i, p);
    Mul(X, c * z, i, i, p);
    assert (c * z) * i == c * (z * i);
    Same(c, p);
    Mul(c, c, z * i, 1, p);
    Trans(X * i, c * (z * i), c, p);
    Trans(x, X * i, c, p);
    Unique(x, c, p);
  }
}
