/** point_jacobian_double (ecdsa.c). */
module JacobianDouble {
  import opened Words
  import opened Congruence
  import opened BignumBasics
  import opened BignumReduce
  import opened BignumMultiply
  import opened BignumPower
  import opened EllipticCurve
  import opened CurvePoints
  import opened JacobianPoints

  // ----- the numerator of the slope

  /** 2 m = 3 x^2 + a z^4. */
  ghost predicate HalfNumerator(m: int, x: int, z: int, a: int, p: int)
    requires p > 0
  {
    Cong(2 * m, 3 * (x * x) + a * ((z * z) * (z * z)), p)
  }

  lemma NumeratorComputed(x: int, z: int, sq: int, t: int, z2: int, z4: int, az: int, n: int, m: int, a: int, p: int)
    requires p > 0 && Times(sq, x, x, p) && Times(t, 3, sq, p)
    requires Times(z2, z, z, p) && Times(z4, z2, z2, p) && Times(az, -a, z4, p)
    requires n == t + 2 * p - az && Cong(2 * m, n, p)
    ensures HalfNumerator(m, x, z, a, p)
  {
    var q := (z * z) * (z * z);
    Same(3, p);
    TimesCong(t, 3, sq, 3, x * x, p);
    TimesCong(z4, z2, z2, z * z, z * z, p);
    Same(-a, p);
    TimesCong(az, -a, z4, -a, q, p);
    Sub(t, 3 * (x * x), az, -a * q, p);
    assert -a * q == -(a * q);
    Intro(n, t - az, p, 2);
    Trans(n, t - az, 3 * (x * x) + a * q, p);
    Trans(2 * m, n, 3 * (x * x) + a * q, p);
  }

  method Numerator(x: array<word>, z: array<word>, prime: array<word>, a: int, m: array<word>)
    requires IsModulus(prime) && PartlyReduced(x, Val(prime)) && PartlyReduced(z, Val(prime)) && -3 <= a <= 0
    requires m.Length == 9 && m !in {x, z, prime}
    modifies m
    ensures Norm(m) && Val(m) < 3 * Val(prime)
    ensures HalfNumerator(Val(m), Val(x), Val(z), a, Val(prime))
  {
    ghost var p, X, Z := Val(prime), Val(x), Val(z);
    var az4 := new word[9];
    hide Val, Norm, Cong, Times, HalfNumerator;
    BnProduct(x, x, m, prime);
    ghost var sq := Val(m);
    BnMultK(m, 3, prime);
    ghost var t := Val(m);
    BnProduct(z, z, az4, prime);
    ghost var z2 := Val(az4);
    BnMultiply(az4, az4, prime);
    ghost var z4 := Val(az4);
    BnMultK(az4, -a, prime);
    ghost var vaz := Val(az4);
    BnSubtractMod(m, az4, m, prime);
    ghost var n := Val(m);
    BnMultHalf(m, prime);
    NumeratorComputed(X, Z, sq, t, z2, z4, vaz, n, Val(m), a, p);
  }

  // ----- the products

  method Products(m: array<word>, x: array<word>, y: array<word>, z: array<word>, prime: array<word>,
                  msq: array<word>, ysq: array<word>, xysq: array<word>)
    requires IsModulus(prime) && Norm(m) && Val(m) < 3 * Val(prime)
    requires PartlyReduced(x, Val(prime)) && PartlyReduced(y, Val(prime)) && PartlyReduced(z, Val(prime))
    requires msq.Length == ysq.Length == xysq.Length == 9 && {msq, ysq, xysq} !! {m, x, y, z, prime}
    requires msq != ysq && msq != xysq && ysq != xysq && z !in {m, x, y, prime}
    modifies msq, ysq, xysq, z
    ensures PartlyReduced(msq, Val(prime)) && PartlyReduced(ysq, Val(prime))
    ensures PartlyReduced(xysq, Val(prime)) && PartlyReduced(z, Val(prime))
    ensures Times(Val(msq), Val(m), Val(m), Val(prime)) && Times(Val(ysq), Val(y), Val(y), Val(prime))
    ensures Times(Val(xysq), Val(ysq), Val(x), Val(prime)) && Times(Val(z), Val(y), old(Val(z)), Val(prime))
  {
    hide Val, Norm, Modulus, Cong, Times;
    BnProduct(m, m, msq, prime);
    BnProduct(y, y, ysq, prime);
    BnProduct(ysq, x, xysq, prime);
    BnMultiply(y, z, prime);
  }

  // ----- the coordinates of the double

  /** x3 = m^2 - 2 x y^2 and y3 = m (x y^2 - x3) - y^4. */
  ghost predicate DoubleEquations(m: int, ysq: int, xysq: int, x3: int, y3: int, p: int)
    requires p > 0
  {
    Cong(x3, m * m - 2 * xysq, p) && Cong(y3, m * (xysq - x3) - ysq * ysq, p)
  }

  lemma DoubleComputed(m: int, ysq: int, xysq: int, msq: int, twice: int, s: int, x3: int,
                       d: int, n: int, y4: int, w: int, y3: int, p: int)
    requires p > 1 && Times(msq, m, m, p) && Cong(twice, 2 * xysq, p) && s == msq + 2 * p - twice && Cong(x3, s, p)
    requires d == xysq + 2 * p - x3 && Times(n, m, d, p) && Times(y4, ysq, ysq, p)
    requires w == n + 2 * p - y4 && Cong(y3, w, p)
    ensures DoubleEquations(m, ysq, xysq, x3, y3, p)
  {
    Reduced3(msq, m, 2 * xysq, twice, s, x3, p);
    Intro(d, xysq - x3, p, 2);
    Same(m, p);
    TimesCong(n, m, d, m, xysq - x3, p);
    Sub(n, m * (xysq - x3), y4, ysq * ysq, p);
    Intro(w, n - y4, p, 2);
    Trans(y3, w, n - y4, p);
    Trans(y3, n - y4, m * (xysq - x3) - ysq * ysq, p);
  }

  method FinishDouble(m: array<word>, msq: array<word>, ysq: array<word>, xysq: array<word>, prime: array<word>,
                      x: array<word>, y: array<word>)
    requires IsModulus(prime) && Norm(m) && Val(m) < 3 * Val(prime)
    requires PartlyReduced(msq, Val(prime)) && PartlyReduced(ysq, Val(prime)) && PartlyReduced(xysq, Val(prime))
    requires x.Length == y.Length == 9 && x != y && {x, y} !! {m, msq, ysq, xysq, prime}
        && ysq !in {m, msq, xysq, prime}
    requires Times(Val(msq), Val(m), Val(m), Val(prime))
    modifies x, y, ysq
    ensures PartlyReduced(x, Val(prime)) && PartlyReduced(y, Val(prime))
    ensures DoubleEquations(Val(m), old(Val(ysq)), Val(xysq), Val(x), Val(y), Val(prime))
  {
    ghost var p, vm, vysq, vxysq, vmsq := Val(prime), Val(m), Val(ysq), Val(xysq), Val(msq);
    hide Val, Norm, Cong, Times, LessMultiple, DoubleEquations;
    BnCopy(xysq, x);
    BnLshift(x);
    BnFastMod(x, prime);
    ghost var twice := Val(x);
    BnSubtractMod(msq, x, x, prime);
    ghost var s := Val(x);
    BnFastMod(x, prime);
    ghost var x3 := Val(x);
    BnSubtractMod(xysq, x, y, prime);
    ghost var d := Val(y);
    BnMultiply(m, y, prime);
    ghost var n := Val(y);
    BnMultiply(ysq, ysq, prime);
    ghost var y4 := Val(ysq);
    BnSubtractMod(y, ysq, y, prime);
    ghost var w := Val(y);
    BnFastMod(y, prime);
    DoubleComputed(vm, vysq, vxysq, vmsq, twice, s, x3, d, n, y4, w, Val(y), p);
  }

  // ----- the whole function

  lemma DoublePoint(P: Point, a: int, X: int, Y: int, Z: int, m: int, ysq: int, xysq: int, X3: int, Y3: int, Z3: int,
      p: int)
    requires Field(p) && InField(P, p) && Represents(X, Y, Z, P, p) && Double(P, a, p).Affine?
    requires HalfNumerator(m, X, Z, a, p) && Times(ysq, Y, Y, p) && Times(xysq, ysq, X, p) && Times(Z3, Y, Z, p)
    requires DoubleEquations(m, ysq, xysq, X3, Y3, p)
    ensures Represents(X3, Y3, Z3, Double(P, a, p), p)
  {
    assert ysq * X == X * ysq;
    hide Double, Represents;
    JacobianDoubling(P, a, X, Y, Z, m, ysq, xysq, X3, Y3, Z3, p);
  }

  /** jp = 2 * jp. */
  method PointJacobianDouble(jp: JacobianPoint, curve: Curve, ghost P: Point)
    requires curve.Valid() && jp.Shows(P, Val(curve.prime)) && InField(P, Val(curve.prime))
    requires Double(P, curve.a, Val(curve.prime)).Affine? && curve.prime !in {jp.x, jp.y, jp.z}
    modifies jp.x, jp.y, jp.z
    ensures jp.Shows(Double(P, curve.a, Val(curve.prime)), Val(curve.prime))
  {
    var prime := curve.prime;
    ghost var p, X, Y, Z := Val(prime), Val(jp.x), Val(jp.y), Val(jp.z);
    var m, msq, ysq, xysq := new word[9], new word[9], new word[9], new word[9];
    hide Val, Norm, Cong, Times, HalfNumerator, DoubleEquations, Prime, Double, Represents;
    Numerator(jp.x, jp.z, prime, curve.a, m);
    ghost var vm := Val(m);
    Products(m, jp.x, jp.y, jp.z, prime, msq, ysq, xysq);
    ghost var vysq, vxysq := Val(ysq), Val(xysq);
    FinishDouble(m, msq, ysq, xysq, prime, jp.x, jp.y);
    DoublePoint(P, curve.a, X, Y, Z, vm, vysq, vxysq, Val(jp.x), Val(jp.y), Val(jp.z), p);
  }
}
