/** Arithmetic modulo p: congruences, coprimality, inverses and primes. */
module Congruence {
  import opened Words

  predicate Cong(a: int, b: int, p: int)
    requires p > 0
  {
    (a - b) % p == 0
  }

  lemma Intro(a: int, b: int, p: int, q: int)
    requires p > 0 && a == b + q * p
    ensures Cong(a, b, p)
  {
    DivModUnique(a - b, p, q, 0);
  }

  /** r is the product of a and b modulo p. */
  ghost predicate Times(r: int, a: int, b: int, p: int)
    requires p > 0
  {
    Cong(r, a * b, p)
  }

  /** y is the inverse of x modulo p. */
  ghost predicate Inverts(y: int, x: int, p: int)
    requires p > 0
  {
    Cong(x * y, 1, p)
  }

  lemma Quotient(a: int, b: int, p: int) returns (q: int)
    requires p > 0 && Cong(a, b, p)
    ensures a == b + q * p
  {
    DivMod(a - b, p);
    q := (a - b) / p;
  }

  lemma Sym(a: int, b: int, p: int)
    requires p > 0 && Cong(a, b, p)
    ensures Cong(b, a, p)
  {
    var q := Quotient(a, b, p);
    assert -(q * p) == (-q) * p;
    Intro(b, a, p, -q);
  }

  lemma Trans(a: int, b: int, c: int, p: int)
    requires p > 0 && Cong(a, b, p) && Cong(b, c, p)
    ensures Cong(a, c, p)
  {
    var q := Quotient(a, b, p);
    var r := Quotient(b, c, p);
    assert (q + r) * p == q * p + r * p;
    Intro(a, c, p, q + r);
  }

  lemma Add(a: int, b: int, c: int, d: int, p: int)
    requires p > 0 && Cong(a, b, p) && Cong(c, d, p)
    ensures Cong(a + c, b + d, p)
  {
    var q := Quotient(a, b, p);
    var r := Quotient(c, d, p);
    assert (q + r) * p == q * p + r * p;
    Intro(a + c, b + d, p, q + r);
  }

  lemma Sub(a: int, b: int, c: int, d: int, p: int)
    requires p > 0 && Cong(a, b, p) && Cong(c, d, p)
    ensures Cong(a - c, b - d, p)
  {
    var q := Quotient(a, b, p);
    var r := Quotient(c, d, p);
    assert (q - r) * p == q * p - r * p;
    Intro(a - c, b - d, p, q - r);
  }

  lemma Mul(a: int, b: int, c: int, d: int, p: int)
    requires p > 0 && Cong(a, b, p) && Cong(c, d, p)
    ensures Cong(a * c, b * d, p)
  {
    var q := Quotient(a, b, p);
    var r := Quotient(c, d, p);
    calc {
      a * c;
      (b + q * p) * c;
      b * c + (q * p) * c;
      b * (d + r * p) + (q * p) * c;
      b * d + b * (r * p) + (q * p) * c;
      { assert b * (r * p) == (b * r) * p; assert (q * p) * c == (q * c) * p; }
      b * d + (b * r) * p + (q * c) * p;
      { assert (b * r + q * c) * p == (b * r) * p + (q * c) * p; }
      b * d + (b * r + q * c) * p;
    }
    Intro(a * c, b * d, p, b * r + q * c);
  }

  lemma Residue(a: int, p: int)
    requires p > 0
    ensures Cong(a, a % p, p) && Cong(a % p, a, p)
  {
    DivMod(a, p);
    Intro(a, a % p, p, a / p);
    Sym(a, a % p, p);
  }

  /** Congruent means: the same residue. */
  lemma SameResidue(a: int, b: int, p: int)
    requires p > 0
    ensures Cong(a, b, p) <==> a % p == b % p
  {
    DivMod(a, p);
    DivMod(b, p);
    if Cong(a, b, p) {
      var q := Quotient(a, b, p);
      assert (b / p + q) * p == (b / p) * p + q * p;
      DivModUnique(a, p, b / p + q, b % p);
    }
    if a % p == b % p {
      assert (a / p - b / p) * p == (a / p) * p - (b / p) * p;
      Intro(a, b, p, a / p - b / p);
    }
  }

  lemma SmallResidue(a: int, p: int)
    requires 0 <= a < p
    ensures a % p == a
  {
    DivModUnique(a, p, 0, a);
  }

  /** Congruent residues are equal. */
  lemma Unique(a: int, b: int, p: int)
    requires p > 0 && Cong(a, b, p) && 0 <= a < p && 0 <= b < p
    ensures a == b
  {
    SameResidue(a, b, p);
    SmallResidue(a, p);
    SmallResidue(b, p);
  }

  predicate Divides(d: int, a: int)
    requires d > 0
  {
    a % d == 0
  }

  lemma MultipleDivides(d: int, q: int)
    requires d > 0
    ensures Divides(d, q * d) && Divides(d, d * q)
  {
    DivModUnique(q * d, d, q, 0);
  }

  lemma DividesSum(d: int, a: int, b: int)
    requires d > 0 && Divides(d, a) && Divides(d, b)
    ensures Divides(d, a + b) && Divides(d, a - b)
  {
    Add(a, 0, b, 0, d);
    Sub(a, 0, b, 0, d);
  }

  lemma DividesProduct(d: int, a: int, c: int)
    requires d > 0 && Divides(d, a)
    ensures Divides(d, a * c) && Divides(d, c * a)
  {
    DivMod(a, d);
    assert ((a / d) * d) * c == ((a / d) * c) * d;
    MultipleDivides(d, (a / d) * c);
  }

  ghost predicate Coprime(a: int, b: int)
  {
    forall d: int :: d > 0 && Divides(d, a) && Divides(d, b) ==> d == 1
  }

  ghost predicate Prime(p: int)
  {
    p > 1 && forall d: int :: d > 0 && Divides(d, p) ==> d == 1 || d == p
  }

  /** Only the multiples of a prime are not coprime to it. */
  lemma PrimeCoprime(x: int, p: int)
    requires Prime(p) && x % p != 0
    ensures Coprime(x, p)
  {
  }

  lemma {:induction false} Bezout(a: nat, b: nat) returns (s: int, t: int, g: int)
    requires a > 0
    ensures g > 0 && s * a + t * b == g && Divides(g, a) && Divides(g, b)
    decreases b
  {
    if b == 0 {
      s, t, g := 1, 0, a;
      MultipleDivides(a, 1);
      MultipleDivides(a, 0);
    } else {
      DivMod(a, b);
      var q, r := a / b, a % b;
      var s', t';
      s', t', g := Bezout(b, r);
      DividesProduct(g, b, q);
      DividesSum(g, q * b, r);
      s, t := t', s' - t' * q;
      calc {
        s * a + t * b;
        t' * (q * b + r) + (s' - t' * q) * b;
        { assert t' * (q * b + r) == (t' * q) * b + t' * r; assert (s' - t' * q) * b == s' * b - (t' * q) * b; }
        s' * b + t' * r;
      }
    }
  }

  /** Whatever is coprime to p has an inverse modulo p. */
  lemma InverseExists(a: int, p: int) returns (y: int)
    requires p > 1 && Coprime(a, p)
    ensures 0 <= y < p && Cong(a * y, 1, p)
  {
    var a' := a % p;
    DivMod(a, p);
    if a' == 0 {
      MultipleDivides(p, 1);
      assert false;
    }
    var s, t, g := Bezout(a', p);
    DividesProduct(g, p, a / p);
    DividesSum(g, (a / p) * p, a');
    assert g == 1;
    assert s * a' == 1 + (-t) * p;
    Intro(s * a', 1, p, -t);
    y := s % p;
    DivMod(s, p);
    Residue(s, p);
    Residue(a, p);
    Mul(a, a', y, s, p);
    assert a' * s == s * a';
    Trans(a * y, a' * s, 1, p);
  }

  lemma InverseCoprime(a: int, y: int, p: int)
    requires p > 1 && Cong(a * y, 1, p)
    ensures Coprime(a, p)
  {
    forall d: int | d > 0 && Divides(d, a) && Divides(d, p)
      ensures d == 1
    {
      var q := Quotient(a * y, 1, p);
      DividesProduct(d, a, y);
      DividesProduct(d, p, q);
      DividesSum(d, a * y, q * p);
      assert 1 % d == 0;
      if d > 1 {
        SmallResidue(1, d);
      }
    }
  }

  /** A factor coprime to p cancels. */
  lemma Cancel(c: int, a: int, b: int, p: int)
    requires p > 1 && Coprime(c, p) && Cong(c * a, c * b, p)
    ensures Cong(a, b, p)
  {
    var y := InverseExists(c, p);
    CancelBy(c, y, a, b, p);
  }

  lemma CancelBy(c: int, y: int, a: int, b: int, p: int)
    requires p > 0 && Cong(c * y, 1, p) && Cong(c * a, c * b, p)
    ensures Cong(a, b, p)
  {
    Mul(c * a, c * b, y, y, p);
    assert (c * a) * y == (c * y) * a;
    assert (c * b) * y == (c * y) * b;
    Mul(c * y, 1, a, a, p);
    Mul(c * y, 1, b, b, p);
    Sym((c * y) * a, a, p);
    Trans(a, (c * y) * a, (c * y) * b, p);
    Trans(a, (c * y) * b, b, p);
  }

  lemma OddCoprimeTwo(p: int)
    requires p > 0 && p % 2 == 1
    ensures Coprime(2, p)
  {
    forall d: int | d > 0 && Divides(d, 2) && Divides(d, p)
      ensures d == 1
    {
      if d > 2 {
        SmallResidue(2, d);
      }
    }
  }

  lemma CancelTwo(a: int, b: int, p: int)
    requires p > 1 && p % 2 == 1 && Cong(2 * a, 2 * b, p)
    ensures Cong(a, b, p)
  {
    OddCoprimeTwo(p);
    Cancel(2, a, b, p);
  }

  lemma {:induction false} PowerOfTwoCoprime(k: nat, p: int)
    requires p > 1 && p % 2 == 1
    ensures Coprime(Pow2(k), p)
  {
    if k == 0 {
      InverseCoprime(1, 1, p);
    } else {
      PowerOfTwoCoprime(k - 1, p);
      OddCoprimeTwo(p);
      CoprimeProduct(2, Pow2(k - 1), p);
    }
  }

  lemma CoprimeProduct(a: int, b: int, p: int)
    requires p > 1 && Coprime(a, p) && Coprime(b, p)
    ensures Coprime(a * b, p)
  {
    var y := InverseExists(a, p);
    var z := InverseExists(b, p);
    Mul(a * y, 1, b * z, 1, p);
    assert (a * y) * (b * z) == (a * b) * (y * z);
    InverseCoprime(a * b, y * z, p);
  }

  lemma CoprimeCong(a: int, b: int, p: int)
    requires p > 1 && Coprime(a, p) && Cong(a, b, p)
    ensures Coprime(b, p)
  {
    var y := InverseExists(a, p);
    Sym(a, b, p);
    Mul(b, a, y, y, p);
    Trans(b * y, a * y, 1, p);
    InverseCoprime(b, y, p);
  }
}
