/** point_jacobian_add: mixed addition of an affine and a Jacobian point (ecdsa.c). */
module JacobianAdd {
  import opened Words
  import opened Congruence
  import opened BignumBasics
  import opened BignumReduce
  import opened BignumMultiply
  import opened BignumPower
  import opened EllipticCurve
  import opened CurvePoints
  import opened JacobianPoints

  // ----- the doubling test

  /** The quotient estimated from the top limb of a normalized number is exact with respect to 2^256. */
  lemma TopQuotient(h: array<word>)
    requires Norm(h)
    ensures h[8] / 0x1_0000 * TWO256 <= Val(h) < (h[8] / 0x1_0000 + 1) * TWO256
  {
    TopLimb(h[..]);
  }

  /** x1' - x2, raised by 2p and reduced, is p exactly when the abscissas agree modulo p. */
  lemma DoublingTest(v: int, q: int, f: int, u: int, x: int, p: int)
    requires Modulus(p) && 0 <= u < 2 * p && 0 <= x < 2 * p && v == u + 2 * p - x
    requires q * TWO256 <= v < (q + 1) * TWO256 && LessMultiple(f, v, q, p)
    ensures f == p <==> Cong(u, x, p)
  {
    if f == p {
      assert q * p - p == (q - 1) * p;
      Intro(u, x, p, q - 1);
    }
    if Cong(u, x, p) {
      var m := Quotient(u, x, p);
      if m >= 2 {
        Product(p, 2, m);
        assert false;
      } else if m <= -2 {
        Product(p, m, -2);
        assert false;
      }
      assert v == (if m == -1 then p else if m == 0 then 2 * p else 3 * p);
      assert q == m + 1;
    }
  }

  // ----- powers of the denominator

  /** z^2, z^3 and -a z^4. */
  ghost predicate Denominators(z: int, z2: int, z3: int, az: int, a: int, p: int)
    requires p > 0
  {
    Cong(z2, z * z, p) && Cong(z3, z * z * z, p) && Cong(az, -a * ((z * z) * (z * z)), p)
  }

  lemma DenominatorsComputed(z: int, z2: int, z3: int, z4: int, az: int, a: int, p: int)
    requires p > 0 && Times(z2, z, z, p) && Times(z3, z2, z, p)
    requires a != 0 ==> Times(z4, z2, z2, p) && Times(az, -a, z4, p)
    ensures Denominators(z, z2, z3, if a == 0 then 0 else az, a, p)
  {
    assert z * z2 == z2 * z;
    PowersCong(z, z2, z3, p);
    if a != 0 {
      TimesCong(z4, z2, z2, z * z, z * z, p);
      Same(-a, p);
      TimesCong(az, -a, z4, -a, (z * z) * (z * z), p);
    }
  }

  method PowersOfDenominator(z: array<word>, prime: array<word>, a: int, xz: array<word>, yz: array<word>,
      az: array<word>)
    requires IsModulus(prime) && PartlyReduced(z, Val(prime)) && -3 <= a <= 0
    requires xz.Length == yz.Length == az.Length == 9 && xz != yz && xz != az && yz != az && {xz, yz, az} !! {z, prime}
    modifies xz, yz, az
    ensures PartlyReduced(xz, Val(prime)) && PartlyReduced(yz, Val(prime))
    ensures a != 0 ==> PartlyReduced(az, Val(prime))
    ensures Denominators(Val(z), Val(xz), Val(yz), if a == 0 then 0 else Val(az), a, Val(prime))
  {
    ghost var vz, z4, p := Val(z), 0, Val(prime);
    hide Val, Norm, Modulus, Cong, Times, Denominators;
    BnProduct(z, z, xz, prime);
    ghost var z2 := Val(xz);
    BnProduct(xz, z, yz, prime);
    ghost var z3 := Val(yz);
    if a != 0 {
      BnProduct(xz, xz, az, prime);
      z4 := Val(az);
      BnMultK(az, -a, prime);
    }
    DenominatorsComputed(vz, z2, z3, z4, Val(az), a, p);
  }

  // ----- x1', h and the doubling test

  method Abscissas(x1: array<word>, x2: array<word>, prime: array<word>, xz: array<word>, h: array<word>)
      returns (doubling: bool, ghost u: int)
    requires IsModulus(prime) && PartlyReduced(x1, Val(prime)) && PartlyReduced(x2, Val(prime))
    requires PartlyReduced(xz, Val(prime)) && h.Length == 9 && xz != h && {xz, h} !! {x1, x2, prime}
    modifies xz, h
    ensures Times(u, Val(x1), old(Val(xz)), Val(prime))
    ensures Norm(xz) && Val(xz) == u + Val(x2) && 0 <= u < 2 * Val(prime)
    ensures PartlyReduced(h, Val(prime)) && Cong(Val(h), u - Val(x2), Val(prime))
    ensures doubling <==> Cong(u, Val(x2), Val(prime))
  {
    hide Val, Norm, Cong, Times;
    BnMultiply(x1, xz, prime);
    u := Val(xz);
    Difference(xz, x2, prime, h);
    BnAdd(xz, x2);
    doubling := BnIsEqual(h, prime);
  }

  /** h = x - x2, reduced.  It equals the prime exactly when the abscissas agree. */
  method Difference(x: array<word>, x2: array<word>, prime: array<word>, h: array<word>)
    requires IsModulus(prime) && PartlyReduced(x, Val(prime)) && PartlyReduced(x2, Val(prime))
    requires h.Length == 9 && h !in {x, x2, prime}
    modifies h
    ensures PartlyReduced(h, Val(prime)) && Cong(Val(h), Val(x) - Val(x2), Val(prime))
    ensures Val(h) == Val(prime) <==> Cong(Val(x), Val(x2), Val(prime))
  {
    ghost var p, u, X := Val(prime), Val(x), Val(x2);
    hide Val, Norm, Cong, LessMultiple;
    BnCopy(x, h);
    BnSubtractMod(h, x2, h, prime);
    ghost var v := Val(h);
    ghost var q := h[8] / 0x1_0000;
    TopQuotient(h);
    BnFastMod(h, prime);
    ghost var f := Val(h);
    DoublingTest(v, q, f, u, X, p);
    Intro(v, u - X, p, 2);
    Trans(f, v, u - X, p);
  }

  // ----- y1' and r

  method Ordinates(y1: array<word>, y2: array<word>, prime: array<word>, yz: array<word>, r: array<word>)
      returns (ghost v: int)
    requires IsModulus(prime) && PartlyReduced(y1, Val(prime)) && PartlyReduced(y2, Val(prime))
    requires PartlyReduced(yz, Val(prime)) && r.Length == 9 && yz != r && {yz, r} !! {y1, y2, prime}
    modifies yz, r
    ensures Times(v, Val(y1), old(Val(yz)), Val(prime))
    ensures Norm(yz) && Val(yz) == v + Val(y2) && 0 <= v < 2 * Val(prime)
    ensures Norm(r) && Val(r) == v + 2 * Val(prime) - Val(y2)
  {
    hide Val, Norm, Cong, Times;
    BnMultiply(y1, yz, prime);
    v := Val(yz);
    BnSubtractMod(yz, y2, r, prime);
    BnAdd(yz, y2);
  }

  // ----- the numerator and denominator of the slope

  /** n = 3 x^2 + a z^4. */
  lemma NumeratorComputed(x: int, sq: int, t: int, z: int, az: int, n: int, a: int, p: int)
    requires p > 0 && Times(sq, x, x, p) && Times(t, 3, sq, p)
    requires if a == 0 then n == t else n == t + 2 * p - az && Cong(az, -a * ((z * z) * (z * z)), p)
    ensures Cong(n, 3 * (x * x) + a * ((z * z) * (z * z)), p)
  {
    var z4 := (z * z) * (z * z);
    Same(3, p);
    TimesCong(t, 3, sq, 3, x * x, p);
    if a == 0 {
      assert a * z4 == 0;
    } else {
      Sub(t, 3 * (x * x), az, -a * z4, p);
      assert -a * z4 == -(a * z4);
      Intro(n, t - az, p, 2);
      Trans(n, t - az, 3 * (x * x) + a * z4, p);
    }
  }

  method SlopeOfTangent(x2: array<word>, prime: array<word>, a: int, az: array<word>, r2: array<word>, ghost z: int)
    requires IsModulus(prime) && PartlyReduced(x2, Val(prime)) && r2.Length == 9 && r2 !in {x2, prime, az}
    requires a != 0 ==> PartlyReduced(az, Val(prime)) && Cong(Val(az), -a * ((z * z) * (z * z)), Val(prime))
    modifies r2
    ensures Norm(r2) && Val(r2) < 4 * Val(prime)
    ensures Cong(Val(r2), 3 * (Val(x2) * Val(x2)) + a * ((z * z) * (z * z)), Val(prime))
  {
    ghost var p, X, vaz := Val(prime), Val(x2), if a == 0 then 0 else Val(az);
    hide Val, Norm, Cong, Times;
    BnProduct(x2, x2, r2, prime);
    ghost var sq := Val(r2);
    BnMultK(r2, 3, prime);
    ghost var t := Val(r2);
    if a != 0 {
      BnSubtractMod(r2, az, r2, prime);
    }
    NumeratorComputed(X, sq, t, z, vaz, Val(r2), a, p);
  }

  /** Numerator r and denominator h Z of the slope through P and (X, Y, Z). */
  ghost predicate Slope(P: Point, a: int, X: int, Y: int, Z: int, u: int, v: int, h: int, r: int, p: int)
    requires p > 0
  {
    && P.Affine? && Cong(u, P.x * (Z * Z), p) && Cong(v, P.y * (Z * Z * Z), p)
    && if Cong(u, X, p)
       then Cong(h, v + Y, p) && Cong(r, 3 * (X * X) + a * ((Z * Z) * (Z * Z)), p)
       else Cong(h, u - X, p) && Cong(r, v - Y, p)
  }

  lemma SlopeFound(P: Point, a: int, cx: int, cy: int, X: int, Y: int, Z: int, z2: int, z3: int, az: int,
                   u: int, v: int, h0: int, r0: int, r2: int, h: int, r: int, p: int)
    requires p > 1 && P.Affine? && Cong(cx, P.x, p) && Cong(cy, P.y, p) && Denominators(Z, z2, z3, az, a, p)
    requires Times(u, cx, z2, p) && Times(v, cy, z3, p)
    requires Cong(h0, u - X, p) && r0 == v + 2 * p - Y && Cong(r2, 3 * (X * X) + a * ((Z * Z) * (Z * Z)), p)
    requires h == (if Cong(u, X, p) then v + Y else h0) && r == (if Cong(u, X, p) then r2 else r0)
    ensures Slope(P, a, X, Y, Z, u, v, h, r, p)
  {
    TimesCong(u, cx, z2, P.x, Z * Z, p);
    TimesCong(v, cy, z3, P.y, Z * Z * Z, p);
    Intro(r0, v - Y, p, 2);
    Same(v + Y, p);
  }

  /** The doubling branch replaces both numerator and denominator. */
  method ChooseSlope(doubling: bool, r: array<word>, h: array<word>, r2: array<word>, yz: array<word>)
    requires Norm(r) && Norm(h) && Norm(r2) && Norm(yz) && r != h && {r, h} !! {r2, yz}
    modifies r, h
    ensures Norm(r) && Val(r) == (if doubling then Val(r2) else old(Val(r)))
    ensures Norm(h) && Val(h) == (if doubling then Val(yz) else old(Val(h)))
  {
    hide Val, Norm;
    BnCmov(r, doubling, r2, r);
    BnCmov(h, doubling, yz, h);
  }

  /** The numerator and denominator of the chord, and what the doubling test needs. */
  method Differences(x1: array<word>, y1: array<word>, x2: array<word>, y2: array<word>, prime: array<word>,
                     r: array<word>, h: array<word>, xz: array<word>, yz: array<word>)
      returns (doubling: bool, ghost u: int, ghost v: int)
    requires IsModulus(prime) && PartlyReduced(x1, Val(prime)) && PartlyReduced(y1, Val(prime))
    requires PartlyReduced(x2, Val(prime)) && PartlyReduced(y2, Val(prime))
    requires PartlyReduced(xz, Val(prime)) && PartlyReduced(yz, Val(prime)) && r.Length == h.Length == 9
    requires {r, h, xz, yz} !! {x1, y1, x2, y2, prime}
    requires r != h && r != xz && r != yz && h != xz && h != yz && xz != yz
    modifies r, h, xz, yz
    ensures Times(u, Val(x1), old(Val(xz)), Val(prime)) && Times(v, Val(y1), old(Val(yz)), Val(prime))
    ensures Norm(xz) && Val(xz) == u + Val(x2) && 0 <= u < 2 * Val(prime)
    ensures Norm(yz) && Val(yz) == v + Val(y2) && 0 <= v < 2 * Val(prime)
    ensures PartlyReduced(h, Val(prime)) && Cong(Val(h), u - Val(x2), Val(prime))
    ensures Norm(r) && Val(r) == v + 2 * Val(prime) - Val(y2)
    ensures doubling <==> Cong(u, Val(x2), Val(prime))
  {
    hide Val, Norm, Modulus, Cong, Times;
    doubling, u := Abscissas(x1, x2, prime, xz, h);
    v := Ordinates(y1, y2, prime, yz, r);
  }

  /** Computes the tangent as well, and takes it in the doubling case. */
  method ReplaceSlope(x2: array<word>, prime: array<word>, a: int, az: array<word>, doubling: bool,
                      r: array<word>, h: array<word>, yz: array<word>, ghost z: int)
      returns (ghost r2: int)
    requires IsModulus(prime) && PartlyReduced(x2, Val(prime)) && {r, h} !! {x2, prime, az, yz} && r != h
    requires a != 0 ==> PartlyReduced(az, Val(prime)) && Cong(Val(az), -a * ((z * z) * (z * z)), Val(prime))
    requires Norm(r) && Norm(h) && Norm(yz)
    modifies r, h
    ensures Norm(r) && Val(r) == (if doubling then r2 else old(Val(r)))
    ensures Norm(h) && Val(h) == (if doubling then Val(yz) else old(Val(h)))
    ensures r2 < 4 * Val(prime) && Cong(r2, 3 * (Val(x2) * Val(x2)) + a * ((z * z) * (z * z)), Val(prime))
  {
    hide Val, Norm, Modulus, Cong;
    var next := new word[9];
    SlopeOfTangent(x2, prime, a, az, next, z);
    r2 := Val(next);
    ChooseSlope(doubling, r, h, next, yz);
  }

  method FindSlope(x1: array<word>, y1: array<word>, x2: array<word>, y2: array<word>, z2: array<word>,
                   prime: array<word>, a: int, r: array<word>, h: array<word>, xz: array<word>, yz: array<word>,
                   ghost P: Point)
      returns (ghost u: int, ghost v: int)
    requires IsModulus(prime) && -3 <= a <= 0 && Near(x1, y1, P, Val(prime))
    requires PartlyReduced(x2, Val(prime)) && PartlyReduced(y2, Val(prime)) && PartlyReduced(z2, Val(prime))
    requires r.Length == h.Length == xz.Length == yz.Length == 9 && {r, h, xz, yz} !! {x1, y1, x2, y2, z2, prime}
    requires r != h && r != xz && r != yz && h != xz && h != yz && xz != yz
    modifies r, h, xz, yz
    ensures Norm(r) && Norm(h) && Val(r) < 4 * Val(prime) && Val(h) < 4 * Val(prime)
    ensures Norm(xz) && Norm(yz) && Val(xz) < 4 * Val(prime) && Val(yz) < 4 * Val(prime)
    ensures Val(xz) == u + Val(x2) && Val(yz) == v + Val(y2)
    ensures Slope(P, a, Val(x2), Val(y2), Val(z2), u, v, Val(h), Val(r), Val(prime))
  {
    ghost var p, cx, cy, X, Y, Z := Val(prime), Val(x1), Val(y1), Val(x2), Val(y2), Val(z2);
    hide Val, Norm, Modulus, Cong, Times, Denominators, Slope;
    var az := new word[9];
    PowersOfDenominator(z2, prime, a, xz, yz, az);
    ghost var zz, zzz, vaz := Val(xz), Val(yz), if a == 0 then 0 else Val(az);
    var doubling;
    doubling, u, v := Differences(x1, y1, x2, y2, prime, r, h, xz, yz);
    DenominatorOfTangent(Z, zz, zzz, vaz, a, p);
    ghost var h0, r0 := Val(h), Val(r);
    ghost var vr2 := ReplaceSlope(x2, prime, a, az, doubling, r, h, yz, Z);
    SlopeFound(P, a, cx, cy, X, Y, Z, zz, zzz, vaz, u, v, h0, r0, vr2, Val(h), Val(r), p);
  }

  lemma DenominatorOfTangent(z: int, z2: int, z3: int, az: int, a: int, p: int)
    requires p > 0 && Denominators(z, z2, z3, az, a, p)
    ensures Cong(az, -a * ((z * z) * (z * z)), p)
  {
  }

  // ----- the coordinates of the sum

  method ScaleSums(h: array<word>, xz: array<word>, yz: array<word>, prime: array<word>, hsqx: array<word>,
      hcby: array<word>)
      returns (ghost hh: int, ghost hhh: int)
    requires IsModulus(prime) && Norm(h) && Norm(xz) && Norm(yz)
    requires Val(h) < 4 * Val(prime) && Val(xz) < 4 * Val(prime) && Val(yz) < 4 * Val(prime)
    requires hsqx.Length == hcby.Length == 9 && hsqx != hcby && {hsqx, hcby} !! {h, xz, yz, prime}
    modifies hsqx, hcby
    ensures PartlyReduced(hsqx, Val(prime)) && PartlyReduced(hcby, Val(prime))
    ensures Times(hh, Val(h), Val(h), Val(prime)) && Times(hhh, hh, Val(h), Val(prime))
    ensures Times(Val(hsqx), Val(xz), hh, Val(prime)) && Times(Val(hcby), Val(yz), hhh, Val(prime))
  {
    hide Val, Norm, Modulus, Cong, Times;
    BnProduct(h, h, hsqx, prime);
    hh := Val(hsqx);
    BnProduct(hsqx, h, hcby, prime);
    hhh := Val(hcby);
    BnMultiply(xz, hsqx, prime);
    BnMultiply(yz, hcby, prime);
  }

  /** x = r^2 - q and y = 1/2 (r (q - 2x) - c). */
  ghost predicate SumEquations(r: int, q: int, c: int, x: int, y: int, p: int)
    requires p > 0
  {
    Cong(x, r * r - q, p) && Cong(2 * y, r * (q - 2 * x) - c, p)
  }

  lemma SumComputed(r: int, q: int, c: int, sq: int, t: int, x: int, e: int, m: int, w: int, f: int, y: int, p: int)
    requires p > 1 && Times(sq, r, r, p) && t == sq + 2 * p - q && Cong(x, t, p)
    requires e == q + 4 * p - 2 * x && Times(m, r, e, p) && w == m + 2 * p - c && Cong(2 * f, w, p) && Cong(y, f, p)
    ensures SumEquations(r, q, c, x, y, p)
  {
    Same(q, p);
    Reduced3(sq, r, q, q, t, x, p);
    Intro(e, q - 2 * x, p, 4);
    Same(r, p);
    TimesCong(m, r, e, r, q - 2 * x, p);
    Same(c, p);
    Sub(m, r * (q - 2 * x), c, c, p);
    Intro(w, m - c, p, 2);
    Add(y, f, y, f, p);
    Trans(2 * y, 2 * f, w, p);
    Trans(2 * y, w, m - c, p);
    Trans(2 * y, m - c, r * (q - 2 * x) - c, p);
  }

  method FinishSum(r: array<word>, hsqx: array<word>, hcby: array<word>, prime: array<word>, x: array<word>,
      y: array<word>)
    requires IsModulus(prime) && Norm(r) && Val(r) < 4 * Val(prime)
    requires PartlyReduced(hsqx, Val(prime)) && PartlyReduced(hcby, Val(prime))
    requires x.Length == y.Length == 9 && x != y && {x, y} !! {r, hsqx, hcby, prime}
    modifies x, y
    ensures PartlyReduced(x, Val(prime)) && PartlyReduced(y, Val(prime))
    ensures SumEquations(Val(r), Val(hsqx), Val(hcby), Val(x), Val(y), Val(prime))
  {
    ghost var p, vr, q, c := Val(prime), Val(r), Val(hsqx), Val(hcby);
    hide Val, Norm, Cong, Times, LessMultiple, SumEquations;
    BnProduct(r, r, x, prime);
    ghost var sq := Val(x);
    BnSubtractMod(x, hsqx, x, prime);
    ghost var t := Val(x);
    BnFastMod(x, prime);
    ghost var X := Val(x);
    BnSubtractMod(hsqx, x, y, prime);
    BnSubtractMod(y, x, y, prime);
    ghost var e := Val(y);
    BnMultiply(r, y, prime);
    ghost var m := Val(y);
    BnSubtractMod(y, hcby, y, prime);
    ghost var w := Val(y);
    BnMultHalf(y, prime);
    ghost var f := Val(y);
    BnFastMod(y, prime);
    SumComputed(vr, q, c, sq, t, X, e, m, w, f, Val(y), p);
  }

  // ----- the whole function

  lemma AddComputed(P: Point, Q: Point, a: int, X: int, Y: int, Z: int, u: int, v: int, h: int, r: int,
                    hh: int, hhh: int, sx: int, sy: int, q: int, c: int, X3: int, Y3: int, Z3: int, p: int)
    requires Field(p) && InField(P, p) && InField(Q, p) && Represents(X, Y, Z, Q, p)
    requires Slope(P, a, X, Y, Z, u, v, h, r, p) && Plus(P, Q, a, p).Affine?
    requires Times(hh, h, h, p) && Times(hhh, hh, h, p) && sx == u + X && sy == v + Y
    requires Times(q, sx, hh, p) && Times(c, sy, hhh, p)
    requires Times(Z3, h, Z, p) && SumEquations(r, q, c, X3, Y3, p)
    ensures Represents(X3, Y3, Z3, Plus(P, Q, a, p), p)
  {
    hide Plus, Represents;
    JacobianAddition(P, Q, a, X, Y, Z, u, v, Cong(u, X, p), h, r, hh, hhh, q, c, X3, Y3, Z3, p);
  }

  method FinishAdd(x: array<word>, y: array<word>, z: array<word>, prime: array<word>, r: array<word>, h: array<word>,
                   xz: array<word>, yz: array<word>)
      returns (ghost hh: int, ghost hhh: int, ghost q: int, ghost c: int)
    requires IsModulus(prime) && PartlyReduced(z, Val(prime)) && x.Length == y.Length == 9
    requires Norm(r) && Norm(h) && Val(r) < 4 * Val(prime) && Val(h) < 4 * Val(prime)
    requires Norm(xz) && Norm(yz) && Val(xz) < 4 * Val(prime) && Val(yz) < 4 * Val(prime)
    requires x != y && x != z && y != z && {x, y, z} !! {prime, r, h, xz, yz}
    modifies x, y, z
    ensures PartlyReduced(x, Val(prime)) && PartlyReduced(y, Val(prime)) && PartlyReduced(z, Val(prime))
    ensures Times(hh, Val(h), Val(h), Val(prime)) && Times(hhh, hh, Val(h), Val(prime))
    ensures Times(q, Val(xz), hh, Val(prime)) && Times(c, Val(yz), hhh, Val(prime))
    ensures Times(Val(z), Val(h), old(Val(z)), Val(prime))
    ensures SumEquations(Val(r), q, c, Val(x), Val(y), Val(prime))
  {
    var hsqx, hcby := new word[9], new word[9];
    hide Val, Norm, Modulus, Cong, Times, SumEquations;
    hh, hhh := ScaleSums(h, xz, yz, prime, hsqx, hcby);
    q, c := Val(hsqx), Val(hcby);
    BnMultiply(h, z, prime);
    FinishSum(r, hsqx, hcby, prime, x, y);
  }

  /** p2 = p1 + p2, in the generic case and when the points are equal. */
  method PointJacobianAdd(p1: CurvePoint, p2: JacobianPoint, curve: Curve, ghost P: Point, ghost Q: Point)
    requires curve.Valid() && p1.Shape() && Near(p1.x, p1.y, P, Val(curve.prime)) && p2.Shows(Q, Val(curve.prime))
    requires InField(Q, Val(curve.prime)) && Plus(P, Q, curve.a, Val(curve.prime)).Affine?
    requires {p2.x, p2.y, p2.z} !! {p1.x, p1.y, curve.prime}
    modifies p2.x, p2.y, p2.z
    ensures p2.Shows(Plus(P, Q, curve.a, Val(curve.prime)), Val(curve.prime))
  {
    var prime, a := curve.prime, curve.a;
    ghost var p, X, Y, Z := Val(prime), Val(p2.x), Val(p2.y), Val(p2.z);
    var r, h, xz, yz := new word[9], new word[9], new word[9], new word[9];
    hide Val, Norm, Cong, Times, Slope, SumEquations, Prime, Plus, Represents;
    ghost var u, v := FindSlope(p1.x, p1.y, p2.x, p2.y, p2.z, prime, a, r, h, xz, yz, P);
    ghost var vh, vr, sx, sy := Val(h), Val(r), Val(xz), Val(yz);
    ghost var hh, hhh, q, c := FinishAdd(p2.x, p2.y, p2.z, prime, r, h, xz, yz);
    AddComputed(P, Q, a, X, Y, Z, u, v, vh, vr, hh, hhh, sx, sy, q, c, Val(p2.x), Val(p2.y), Val(p2.z), p);
  }
}
