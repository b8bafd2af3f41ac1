/** Modular powers (bignum.c): the square root and the small inverse. */
module BignumPower {
  import opened Words
  import opened Digits
  import opened Congruence
  import opened BignumBasics
  import opened BignumReduce
  import opened BignumMultiply

  ghost function Power(b: int, e: nat): int
  {
    if e == 0 then 1 else b * Power(b, e - 1)
  }

  lemma {:induction false} PowerAdd(b: int, m: nat, n: nat)
    ensures Power(b, m + n) == Power(b, m) * Power(b, n)
  {
    if m > 0 {
      PowerAdd(b, m - 1, n);
      assert b * (Power(b, m - 1) * Power(b, n)) == (b * Power(b, m - 1)) * Power(b, n);
    }
  }

  lemma {:induction false} PowerSquare(y: int, e: nat)
    ensures Power(y * y, e) == Power(y, 2 * e)
  {
    if e > 0 {
      PowerSquare(y, e - 1);
      assert Power(y, 2 * e) == y * (y * Power(y, 2 * e - 2));
      assert y * (y * Power(y, 2 * e - 2)) == (y * y) * Power(y, 2 * e - 2);
    }
  }

  lemma {:induction false} PowerCong(a: int, b: int, e: nat, p: int)
    requires p > 0 && Cong(a, b, p)
    ensures Cong(Power(a, e), Power(b, e), p)
  {
    if e > 0 {
      PowerCong(a, b, e - 1, p);
      Mul(a, b, Power(a, e - 1), Power(b, e - 1), p);
    }
  }

  /** Representatives of two powers multiply to the power of the sum. */
  lemma PowerProduct(r: int, u: int, v: int, b: int, m: nat, n: nat, p: int)
    requires p > 0 && Cong(r, u * v, p) && Cong(u, Power(b, m), p) && Cong(v, Power(b, n), p)
    ensures Cong(r, Power(b, m + n), p)
  {
    Mul(u, Power(b, m), v, Power(b, n), p);
    PowerAdd(b, m, n);
    Trans(r, u * v, Power(b, m + n), p);
  }

  /** The bits of one exponent limb, lowest first: multiplies res by the power for every one bit and squares x. */
  method PowerLimb(x: array<word>, res: array<word>, prime: array<word>, e: word, last: bool,
                   ghost b: int, ghost done: nat, ghost scale: nat)
    requires IsModulus(prime) && x != prime && res != prime && x != res && e < BASE
    requires Norm(x) && Val(x) < 180 * Val(prime) && PartlyReduced(res, Val(prime))
    requires Cong(Val(x), Power(b, scale), Val(prime)) && Cong(Val(res), Power(b, done), Val(prime))
    modifies x, res
    ensures Norm(x) && Val(x) < 180 * Val(prime) && PartlyReduced(res, Val(prime))
    ensures Cong(Val(res), Power(b, done + scale * e), Val(prime))
    ensures !last ==> Cong(Val(x), Power(b, scale * BASE), Val(prime))
  {
    hide Sum, Weight, Power, Cong, Pow2;
    ghost var p := Val(prime);
    var limb := e;
    ghost var d: nat, s: nat := done, scale;
    var j := 0;
    Pow2Values();
    Pow2One();
    while j < 30
      invariant 0 <= j <= 30 && Val(prime) == p && IsModulus(prime)
      invariant Norm(x) && Val(x) < 180 * p && PartlyReduced(res, p)
      invariant Cong(Val(x), Power(b, s), p) && Cong(Val(res), Power(b, d), p)
      invariant 0 <= limb < Pow2(30 - j) && s == scale * Pow2(j)
      invariant d + s * limb == done + scale * e
    {
      if last && limb == 0 {
        break;
      }
      ghost var r0, x0 := Val(res), Val(x);
      if limb % 2 == 1 {
        BnMultiply(x, res, prime);
        PowerProduct(Val(res), x0, r0, b, s, d, p);
        d := s + d;
      }
      HalveLimb(limb / 2, limb % 2, s, j, scale);
      limb := limb / 2;
      BnMultiply(x, x, prime);
      PowerProduct(Val(x), x0, x0, b, s, s, p);
      s := s + s;
      j := j + 1;
    }
    if !(last && limb == 0) {
      assert 30 - j == 0;
    }
    assert limb == 0;
    assert s * limb == 0;
  }

  lemma Pow2One()
    ensures Pow2(0) == 1
  {
  }

  /** Moving one bit of the limb into the exponent that is done. */
  lemma HalveLimb(h: nat, bit: nat, s: nat, j: nat, scale: nat)
    requires j < 30 && bit <= 1 && 2 * h + bit < Pow2(30 - j) && s == scale * Pow2(j)
    ensures h < Pow2(30 - (j + 1)) && s + s == scale * Pow2(j + 1)
    ensures s * (2 * h + bit) == (if bit == 1 then s else 0) + (s + s) * h
  {
    hide Pow2;
    Doubled(29 - j);
    Doubled(j);
    Twice(scale, Pow2(j));
    SplitBit(s, h, bit);
  }

  lemma Doubled(j: nat)
    ensures Pow2(j + 1) == 2 * Pow2(j)
  {
  }

  lemma Twice(s: int, w: int)
    ensures s * (2 * w) == 2 * (s * w)
  {
  }

  lemma SplitBit(s: int, h: int, bit: int)
    requires 0 <= bit <= 1
    ensures s * (2 * h + bit) == (if bit == 1 then s else 0) + (s + s) * h
  {
  }

  method BnOne(a: array<word>)
    requires a.Length == 9
    modifies a
    ensures Norm(a) && Val(a) == 1
  {
    a[0] := 1;
    a[1], a[2], a[3], a[4] := 0, 0, 0, 0;
    a[5], a[6], a[7], a[8] := 0, 0, 0, 0;
    ghost var s: seq<int> := a[..];
    Expand(s);
  }

  method BnCopy(a: array<word>, b: array<word>)
    requires a.Length == 9 && b.Length == 9
    modifies b
    ensures b[..] == old(a[..])
    ensures Val(b) == old(Val(a)) && (old(Norm(a)) ==> Norm(b))
  {
    var i := 0;
    while i < 9
      invariant 0 <= i <= 9
      invariant forall m :: 0 <= m < i ==> b[m] == old(a[m])
      invariant forall m :: 0 <= m < 9 ==> a[m] == old(a[m])
    {
      b[i] := a[i];
      i := i + 1;
    }
  }

  lemma PowerStart(b: int, p: int)
    requires p > 0
    ensures Cong(1, Power(b, 0), p) && Cong(b, Power(b, 1), p)
  {
  }

  /** x = x^((prime + 1) / 4) mod prime. */
  method BnSqrt(x: array<word>, prime: array<word>)
    requires Norm(x) && IsModulus(prime) && Val(x) < 180 * Val(prime) && x != prime
    modifies x
    ensures Reduced(x, Val(prime))
    ensures Val(x) == Power(old(Val(x)), (Val(prime) + 1) / 4) % Val(prime)
  {
    hide Sum, Weight, Power, Cong;
    ghost var p, b := Val(prime), Val(x);
    var res := new word[9];
    var e := new word[9];
    BnOne(res);
    BnCopy(prime, e);
    BnAddi(e, 1);
    BnRshift(e);
    BnRshift(e);
    RootExponent(p);
    PowerStart(b, p);
    ghost var es := e[..];
    SumStart(es);
    var i := 0;
    while i < 9
      invariant 0 <= i <= 9 && e[..] == es && Val(prime) == p && IsModulus(prime)
      invariant Norm(x) && Val(x) < 180 * p && PartlyReduced(res, p)
      invariant Sum(es, i, BASE) >= 0 && Cong(Val(res), Power(b, Sum(es, i, BASE)), p)
      invariant i < 9 ==> Cong(Val(x), Power(b, Weight(BASE, i)), p)
    {
      SumNext(es, i);
      PowerLimb(x, res, prime, e[i], i == 8, b, Sum(es, i, BASE), Weight(BASE, i));
      i := i + 1;
    }
    FinishPower(Val(res), Power(b, Sum(es, 9, BASE)), p);
    BnMod(res, prime);
    BnCopy(res, x);
  }

  lemma RootExponent(p: int)
    requires Modulus(p)
    ensures (p + 1) % Weight(BASE, 9) / 2 / 2 == (p + 1) / 4
  {
    Weights();
    SmallResidue(p + 1, Weight(BASE, 9));
  }

  lemma SumStart(s: seq<int>)
    ensures Sum(s, 0, BASE) == 0 && Weight(BASE, 0) == 1
  {
  }

  lemma SumNext(s: seq<int>, i: nat)
    requires i < |s| && s[i] >= 0 && Sum(s, i, BASE) >= 0
    ensures Sum(s, i + 1, BASE) == Sum(s, i, BASE) + Weight(BASE, i) * s[i] >= 0
    ensures Weight(BASE, i + 1) == Weight(BASE, i) * BASE
  {
    Product(Weight(BASE, i), 0, s[i]);
  }

  lemma FinishPower(r: int, q: int, p: int)
    requires p > 0 && Cong(r, q, p)
    ensures r % p == q % p
  {
    SameResidue(r, q, p);
  }

  /** x = x^(prime - 2) mod prime, the inverse that saves code (bn_inverse without USE_INVERSE_FAST). */
  method BnInverseSlow(x: array<word>, prime: array<word>)
    requires Norm(x) && IsModulus(prime) && Val(x) < 180 * Val(prime) && x != prime && prime[0] >= 2
    modifies x
    ensures Reduced(x, Val(prime))
    ensures Val(x) == Power(old(Val(x)), Val(prime) - 2) % Val(prime)
  {
    hide Sum, Weight, Power, Cong;
    ghost var p, b := Val(prime), Val(x);
    var res := new word[9];
    BnOne(res);
    PowerStart(b, p);
    ghost var ps := prime[..];
    ghost var es: seq<int> := ps[0 := ps[0] - 2];
    LowerFirst(ps, es, 9);
    SumStart(es);
    var i := 0;
    while i < 9
      invariant 0 <= i <= 9 && prime[..] == ps && Val(prime) == p && IsModulus(prime)
      invariant Norm(x) && Val(x) < 180 * p && PartlyReduced(res, p)
      invariant Sum(es, i, BASE) >= 0 && Cong(Val(res), Power(b, Sum(es, i, BASE)), p)
      invariant i < 9 ==> Cong(Val(x), Power(b, Weight(BASE, i)), p)
    {
      var limb: word := prime[i];
      if i == 0 {
        limb := limb - 2;
      }
      assert limb == es[i];
      SumNext(es, i);
      PowerLimb(x, res, prime, limb, i == 8, b, Sum(es, i, BASE), Weight(BASE, i));
      i := i + 1;
    }
    FinishPower(Val(res), Power(b, Sum(es, 9, BASE)), p);
    BnMod(res, prime);
    BnCopy(res, x);
  }

  lemma {:induction false} LowerFirst(s: seq<int>, t: seq<int>, n: nat)
    requires 0 < n <= |s| == |t| && t == s[0 := s[0] - 2]
    ensures Sum(t, n, BASE) == Sum(s, n, BASE) - 2
  {
    if n == 1 {
      assert Sum(t, 1, BASE) == t[0] * Weight(BASE, 0);
      assert Sum(s, 1, BASE) == s[0] * Weight(BASE, 0);
    } else {
      LowerFirst(s, t, n - 1);
    }
  }

  // ----- what the powers mean

  /** The power p - 2 inverts whatever satisfies Fermat's congruence. */
  lemma FermatInverse(x: int, p: int)
    requires p > 2 && Cong(Power(x, p - 1), 1, p)
    ensures Cong(x * (Power(x, p - 2) % p), 1, p)
  {
    var r := Power(x, p - 2);
    Residue(r, p);
    Mul(x, x, r % p, r, p);
    Trans(x * (r % p), x * r, 1, p);
  }

  /** The power (p + 1) / 4 of a square is a square root, for p = 3 modulo 4. */
  lemma SquareRoot(x: int, y: int, p: int)
    requires p > 2 && p % 4 == 3 && Cong(x, y * y, p) && Cong(Power(y, p - 1), 1, p)
    ensures var r := Power(x, (p + 1) / 4) % p; Cong(r * r, x, p)
  {
    var e := (p + 1) / 4;
    var q := Power(x, e);
    var r := q % p;
    Residue(q, p);
    Mul(r, q, r, q, p);
    PowerCong(x, y * y, e, p);
    Mul(q, Power(y * y, e), q, Power(y * y, e), p);
    PowerSquare(y, e);
    PowerAdd(y, 2 * e, 2 * e);
    PowerAdd(y, 2, p - 1);
    assert Power(y, 2) == y * y by {
      assert Power(y, 1) == y * Power(y, 0);
    }
    Mul(y * y, y * y, Power(y, p - 1), 1, p);
    Sym(x, y * y, p);
    Trans(r * r, q * q, Power(y, p + 1), p);
    Trans(r * r, Power(y, p + 1), y * y, p);
    Trans(r * r, y * y, x, p);
  }
}
