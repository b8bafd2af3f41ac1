/** Points in Jacobian coordinates (ecdsa.c): negation, conversion, mixed addition and doubling. */
module JacobianPoints {
  import opened Words
  import opened Digits
  import opened Congruence
  import opened BignumBasics
  import opened BignumReduce
  import opened BignumMultiply
  import opened BignumPower
  import opened BignumInverse
  import opened EllipticCurve
  import opened CurvePoints

  class JacobianPoint {
    const x: array<word>
    const y: array<word>
    const z: array<word>

    constructor ()
      ensures Shape() && fresh(x) && fresh(y) && fresh(z)
    {
      x := new word[9];
      y := new word[9];
      z := new word[9];
    }

    ghost predicate Shape()
    {
      x.Length == 9 && y.Length == 9 && z.Length == 9 && x != y && x != z && y != z
    }

    /** All coordinates are partly reduced, and they stand for P. */
    ghost predicate Shows(P: Point, p: int)
      requires p > 0
      reads x, y, z
    {
      && Shape() && PartlyReduced(x, p) && PartlyReduced(y, p) && PartlyReduced(z, p)
      && Represents(Val(x), Val(y), Val(z), P, p)
    }
  }

  /** The affine coordinates are partly reduced and congruent to those of P. */
  ghost predicate Near(x: array<word>, y: array<word>, P: Point, p: int)
    requires p > 0
    reads x, y
  {
    && PartlyReduced(x, p) && PartlyReduced(y, p)
    && P.Affine? && InField(P, p) && Cong(Val(x), P.x, p) && Cong(Val(y), P.y, p)
  }

  // ----- negation

  lemma TopLimbSmall(a: array<word>)
    requires Norm(a) && Val(a) < 2 * TWO256
    ensures a[8] < 0x2_0000
  {
    TopLimb(a[..]);
  }

  lemma SelectMasked(x: word, y: word, cond: word)
    requires cond == 0 || cond == 0xFFFF_FFFF
    ensures Or(And(x, cond), And(y, 0xFFFF_FFFF - cond)) == if cond == 0 then y else x
  {
    SelectWord(x, y);
    SelectWord(y, x);
  }

  /** a = 2 * prime - a when cond is all ones; a is kept when cond is 0.  Both assertions of the C code hold. */
  method ConditionalNegate(cond: word, a: array<word>, prime: array<word>)
    requires cond == 0 || cond == 0xFFFF_FFFF
    requires IsModulus(prime) && PartlyReduced(a, Val(prime)) && a != prime
    modifies a
    ensures Norm(a) && Val(a) == if cond == 0 then old(Val(a)) else 2 * Val(prime) - old(Val(a))
  {
    hide Sum, Weight, And, Or;
    TopLimbSmall(a);
    assert a[8] < 0x2_0000;
    ghost var a0, p := a[..], prime[..];
    ghost var c: seq<int> := seq(9, i requires 0 <= i < 9 => BASE - 1 + 2 * p[i] as int - a0[i] as int);
    ghost var out: seq<int> := seq(9, i => 0);
    var tmp: word := 1;
    CarryStart(out, c, 1, BASE);
    var j := 0;
    while j < 8
      invariant 0 <= j <= 8 && tmp <= 3 && |out| == 9
      invariant forall m :: 0 <= m < j ==> 0 <= out[m] < BASE && a[m] == if cond == 0 then a0[m] else out[m]
      invariant forall m :: j <= m < 9 ==> a[m] == a0[m]
      invariant Carried(out, c, j, tmp, 1, BASE)
    {
      ghost var o, t := out, tmp;
      tmp := tmp + (0x3FFF_FFFF + 2 * prime[j] - a[j]);
      SelectMasked(tmp % 0x4000_0000, a[j], cond);
      a[j] := Or(And(tmp % 0x4000_0000, cond), And(a[j], 0xFFFF_FFFF - cond));
      out := out[j := tmp % 0x4000_0000];
      tmp := tmp / 0x4000_0000;
      CarryStep(o, out, c, j, t, tmp, 1, BASE);
      j := j + 1;
    }
    ghost var o, t := out, tmp;
    tmp := tmp + (0x3FFF_FFFF + 2 * prime[j] - a[j]);
    SelectMasked(tmp % 0x4000_0000, a[j], cond);
    a[j] := Or(And(tmp % 0x4000_0000, cond), And(a[j], 0xFFFF_FFFF - cond));
    out := out[j := tmp % 0x4000_0000];
    CarryStep(o, out, c, 8, t, tmp / 0x4000_0000, 1, BASE);
    CarryEnd(out, c, 9, tmp / 0x4000_0000, 1, BASE);
    NegatedDigits(c, a0, p);
    SumSame(a[..], if cond == 0 then a0 else out, 9, BASE);
    TopLimbSmall(a);
    assert a[8] < 0x2_0000;
  }

  lemma NegatedDigits(c: seq<int>, a: seq<int>, p: seq<int>)
    requires |c| == |a| == |p| == 9 && Normal(a, BASE) && Modulus(Sum(p, 9, BASE))
        && Sum(a, 9, BASE) < 2 * Sum(p, 9, BASE)
    requires forall i :: 0 <= i < 9 ==> c[i] == BASE - 1 + 2 * p[i] - a[i]
    ensures (Sum(c, 9, BASE) + 1) % Weight(BASE, 9) == 2 * Sum(p, 9, BASE) - Sum(a, 9, BASE)
  {
    SumLinear(seq(9, i => 0), a, a, 0, 0, 9, BASE);
    SumRaised(c, seq(9, i => 0), p, 2, a, 9, BASE);
    SumBound(a, 9, BASE);
    Weights();
    DropMultiple(2 * Sum(p, 9, BASE) - Sum(a, 9, BASE), 1, Weight(BASE, 9));
  }

  // ----- conversion

  /** z^2 and z^3 as the multiplications compute them. */
  ghost predicate Powers(z: int, z2: int, z3: int, p: int)
    requires p > 0
  {
    Times(z2, z, z, p) && Times(z3, z, z2, p)
  }

  lemma PowersCong(z: int, z2: int, z3: int, p: int)
    requires p > 0 && Powers(z, z2, z3, p)
    ensures Cong(z2, z * z, p) && Cong(z3, z * z * z, p)
  {
    Same(z, p);
    Mul(z2, z * z, z, z, p);
    assert z2 * z == z * z2;
    Trans(z3, z * z2, z * z * z, p);
  }

  /** c * d, where c and d are known up to multiples of p. */
  lemma TimesCong(r: int, c: int, d: int, c': int, d': int, p: int)
    requires p > 0 && Times(r, c, d, p) && Cong(c, c', p) && Cong(d, d', p)
    ensures Cong(r, c' * d', p)
  {
    Mul(c, c', d, d', p);
    Trans(r, c * d, c' * d', p);
  }

  lemma ConvertedTo(P: Point, cx: int, cy: int, z: int, z2: int, z3: int, X: int, Y: int, p: int)
    requires Prime(p) && P.Affine? && 0 < z < p && Powers(z, z2, z3, p) && Cong(cx, P.x, p) && Cong(cy, P.y, p)
    requires Times(X, cx, z2, p) && Times(Y, cy, z3, p)
    ensures Represents(X, Y, z, P, p)
  {
    PowersCong(z, z2, z3, p);
    TimesCong(X, cx, z2, P.x, z * z, p);
    TimesCong(Y, cy, z3, P.y, z * z * z, p);
    NonzeroCoprime(z, p);
  }

  /** Random Jacobian coordinates for an affine point; the random number is a parameter. */
  method CurveToJacobian(c: CurvePoint, jp: JacobianPoint, prime: array<word>, noise: array<word>, ghost P: Point)
    requires IsModulus(prime) && Prime(Val(prime)) && c.Shape() && Near(c.x, c.y, P, Val(prime))
    requires Norm(noise) && 0 < Val(noise) < Val(prime)
    requires jp.Shape() && {jp.x, jp.y, jp.z} !! {c.x, c.y, prime, noise}
    modifies jp.x, jp.y, jp.z
    ensures jp.Shows(P, Val(prime))
  {
    ghost var p, cx, cy := Val(prime), Val(c.x), Val(c.y);
    assert c.x.Length == 9 && c.y.Length == 9;
    hide Val, Norm, Modulus, Cong, Times, Prime, Represents;
    BnCopy(noise, jp.z);
    ghost var z := Val(jp.z);
    BnProduct(jp.z, jp.z, jp.x, prime);
    ghost var z2 := Val(jp.x);
    BnProduct(jp.z, jp.x, jp.y, prime);
    ghost var z3 := Val(jp.y);
    BnMultiply(c.x, jp.x, prime);
    BnMultiply(c.y, jp.y, prime);
    ConvertedTo(P, cx, cy, z, z2, z3, Val(jp.x), Val(jp.y), p);
  }

  lemma ConvertedFrom(P: Point, X: int, Y: int, Z: int, i: int, i2: int, i3: int, x: int, y: int, p: int)
    requires p > 1 && InField(P, p) && Represents(X, Y, Z, P, p) && Inverts(i, Z, p)
    requires Times(i2, i, i, p) && Times(i3, i2, i, p) && Times(x, X, i2, p) && Times(y, Y, i3, p)
    ensures P == Affine(x % p, y % p)
  {
    assert i2 * i == i * i2;
    PowersCong(i, i2, i3, p);
    Same(X, p);
    Same(Y, p);
    TimesCong(x, X, i2, X, i * i, p);
    TimesCong(y, Y, i3, Y, i * i * i, p);
    Residue(x, p);
    Residue(y, p);
    DivMod(x, p);
    DivMod(y, p);
    Trans(x % p, x, X * (i * i), p);
    Trans(y % p, y, Y * (i * i * i), p);
    Recovered(X, Y, Z, i, x % p, y % p, P, p);
  }

  /** Back to affine coordinates, fully reduced.  z is invertible because P is not infinity. */
  method JacobianToCurve(jp: JacobianPoint, c: CurvePoint, prime: array<word>, ghost P: Point)
    requires IsModulus(prime) && c.Shape() && InField(P, Val(prime)) && jp.Shows(P, Val(prime))
    requires {c.x, c.y} !! {jp.x, jp.y, jp.z, prime}
    modifies c.x, c.y
    ensures c.Holds(Val(prime)) && Affine(Val(c.x), Val(c.y)) == P
  {
    ghost var p, X, Y, Z := Val(prime), Val(jp.x), Val(jp.y), Val(jp.z);
    assert Coprime(Z, p);
    hide Val, Norm, Cong, Times, Inverts, Represents, Coprime;
    BnCopy(jp.z, c.y);
    BnInverse(c.y, prime);
    ghost var i := Val(c.y);
    BnProduct(c.y, c.y, c.x, prime);
    ghost var i2 := Val(c.x);
    BnMultiply(c.x, c.y, prime);
    ghost var i3 := Val(c.y);
    BnMultiply(jp.x, c.x, prime);
    ghost var x := Val(c.x);
    BnMultiply(jp.y, c.y, prime);
    ghost var y := Val(c.y);
    ConvertedFrom(P, X, Y, Z, i, i2, i3, x, y, p);
    BnMod(c.x, prime);
    BnMod(c.y, prime);
  }
}
