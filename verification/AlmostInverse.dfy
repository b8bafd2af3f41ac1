/** The integer algorithm behind the fast bn_inverse: Schroeppel's almost modular inverse. */
module AlmostInverse {
  import opened Words
  import opened Congruence

  /** The four numbers (w1, t1) and (w2, t2) held in the two registers, the first with w1 odd, after k halvings.
      X is the number to invert, negated when the registers have changed roles. */
  ghost predicate Invariant(X: int, p: int, w1: int, t1: int, w2: int, t2: int, k: nat)
  {
    && p > 1 && w1 >= 1 && w2 >= 1 && t1 >= 0 && t2 >= 0
    && w1 * t1 + w2 * t2 == p
    && Cong(X * t1, w2 * Pow2(k), p)
    && Cong(-X * t2, w1 * Pow2(k), p)
    && Coprime(w1, w2)
  }

  /** Bit lengths only shrink, so that k stays below 511. */
  ghost predicate Bits(w1: int, w2: int, k: nat)
  {
    exists a: nat, b: nat :: BitsFit(w1, w2, k, a, b)
  }

  ghost predicate BitsFit(w1: int, w2: int, k: nat, a: nat, b: nat)
  {
    w1 < Pow2(a) && w2 < Pow2(b) && a + b + k <= 512
  }

  lemma Start(x: int, p: int)
    requires 0 < x < p && Coprime(x, p)
    ensures Invariant(x, p, p, 1, x, 0, 0)
  {
    assert Pow2(0) == 1;
    assert x * 1 == x && -x * 0 == 0;
    Intro(0, p, p, -1);
    forall d: int | d > 0 && Divides(d, p) && Divides(d, x)
      ensures d == 1
    {
    }
  }

  lemma StartBits(x: int, p: int)
    requires 0 < x < Pow2(256) && 0 < p < Pow2(256)
    ensures Bits(p, x, 0)
  {
    assert BitsFit(p, x, 0, 256, 256);
  }

  /** The registers exchange roles. */
  lemma Exchange(X: int, p: int, w1: int, t1: int, w2: int, t2: int, k: nat)
    requires Invariant(X, p, w1, t1, w2, t2, k)
    ensures Invariant(-X, p, w2, t2, w1, t1, k)
  {
    forall d: int | d > 0 && Divides(d, w2) && Divides(d, w1)
      ensures d == 1
    {
    }
  }

  lemma ExchangeBits(w1: int, w2: int, k: nat)
    requires Bits(w1, w2, k)
    ensures Bits(w2, w1, k)
  {
    var a: nat, b: nat :| BitsFit(w1, w2, k, a, b);
    assert BitsFit(w2, w1, k, b, a);
  }

  lemma HalveFirst(w: int, q: int, e: int, f: int)
    requires f == q * e
    ensures (w * q) * e == w * f
  {
    assert (w * q) * e == w * (q * e);
  }

  lemma HalveSecond(X: int, p: int, w1: int, t2: int, e: int, q: int, f: int)
    requires p > 0 && Cong(-X * t2, w1 * e, p) && f == q * e
    ensures Cong(-X * (t2 * q), w1 * f, p)
  {
    Mul(-X * t2, w1 * e, q, q, p);
    assert (-X * t2) * q == -X * (t2 * q);
    assert (w1 * e) * q == w1 * (q * e);
  }

  /** Halving w2 and doubling t2, j times. */
  lemma Halve(X: int, p: int, w1: int, t1: int, w2: int, t2: int, k: nat, j: nat, w: int)
    requires Invariant(X, p, w1, t1, w2, t2, k) && w2 == w * Pow2(j)
    ensures Invariant(X, p, w1, t1, w, t2 * Pow2(j), k + j)
  {
    hide Pow2, Cong, Divides;
    var q := Pow2(j);
    Pow2Add(j, k);
    assert w2 * Pow2(k) == w * Pow2(k + j) by {
      HalveFirst(w, q, Pow2(k), Pow2(k + j));
    }
    HalveSecond(X, p, w1, t2, Pow2(k), q, Pow2(k + j));
    assert w * (t2 * q) == (w * q) * t2;
    Product(q, 0, t2);
    assert w >= 1 by {
      if w <= 0 {
        Product(q, w, 0);
      }
    }
    forall d: int | d > 0 && Divides(d, w1) && Divides(d, w)
      ensures d == 1
    {
      DividesProduct(d, w, q);
    }
  }

  lemma HalveBits(w1: int, w2: int, k: nat, j: nat, w: int)
    requires Bits(w1, w2, k) && w2 == w * Pow2(j) && w >= 1
    ensures Bits(w1, w, k + j)
  {
    var a: nat, b: nat :| BitsFit(w1, w2, k, a, b);
    if b < j {
      Pow2Mono(b, j);
      Product(Pow2(j), 1, w);
      assert false;
    } else {
      Pow2Add(b - j, j);
      if w >= Pow2(b - j) {
        Product(Pow2(j), Pow2(b - j), w);
        assert false;
      }
      assert BitsFit(w1, w, k + j, a, b - j);
    }
  }

  /** Subtracting the smaller from the larger. */
  lemma Reduce(X: int, p: int, w1: int, t1: int, w2: int, t2: int, k: nat)
    requires Invariant(X, p, w1, t1, w2, t2, k) && w1 < w2
    ensures Invariant(X, p, w1, t1 + t2, w2 - w1, t2, k)
  {
    var q := Pow2(k);
    Sub(X * t1, w2 * q, -X * t2, w1 * q, p);
    assert X * t1 - -X * t2 == X * (t1 + t2);
    assert w2 * q - w1 * q == (w2 - w1) * q;
    assert w1 * (t1 + t2) + (w2 - w1) * t2 == w1 * t1 + w2 * t2;
    forall d: int | d > 0 && Divides(d, w1) && Divides(d, w2 - w1)
      ensures d == 1
    {
      DividesSum(d, w1, w2 - w1);
    }
  }

  lemma ReduceBits(w1: int, w2: int, k: nat)
    requires Bits(w1, w2, k) && 0 < w1 < w2
    ensures Bits(w1, w2 - w1, k)
  {
    var a: nat, b: nat :| BitsFit(w1, w2, k, a, b);
    assert BitsFit(w1, w2 - w1, k, a, b);
  }

  /** When the registers agree they hold 1, and the cofactors are proper residues. */
  lemma Finish(X: int, p: int, w1: int, t1: int, w2: int, t2: int, k: nat)
    requires Invariant(X, p, w1, t1, w2, t2, k) && w1 == w2 && p % 2 == 1
    ensures w1 == 1 && t1 < p && t2 < p
    ensures Cong(X * t1, Pow2(k), p) && Cong(-X * t2, Pow2(k), p)
  {
    MultipleDivides(w1, 1);
    PowerOfTwoCoprime(k, p);
    if t1 == p || t2 == p {
      var t := if t1 == p then t2 else t1;
      assert t == 0 && X * t == 0 && -X * t == 0;
      assert Cong(0, Pow2(k), p);
      Sym(0, Pow2(k), p);
      MultipleDivides(p, 1);
      assert false;
    }
  }

  lemma FinishBits(k: nat)
    requires Bits(1, 1, k)
    ensures k <= 510
  {
    var a: nat, b: nat :| BitsFit(1, 1, k, a, b);
  }

  /** Products of register contents stay below p, which is why they fit side by side. */
  lemma ProductsFit(X: int, p: int, w1: int, t1: int, w2: int, t2: int, k: nat)
    requires Invariant(X, p, w1, t1, w2, t2, k)
    ensures w1 * t1 <= p && w2 * t2 <= p
  {
    Product(w1, 0, t1);
    Product(w2, 0, t2);
  }

  /** Dividing s by 2^k turns the almost inverse into the inverse. */
  lemma Divide(x: int, s: int, t: int, k: nat, p: int)
    requires p > 1 && p % 2 == 1 && Cong(x * s, Pow2(k), p) && Cong(t * Pow2(k), s, p)
    ensures Cong(x * t, 1, p)
  {
    var q := Pow2(k);
    Mul(x, x, t * q, s, p);
    Trans(x * (t * q), x * s, q, p);
    assert x * (t * q) == q * (x * t) && q == q * 1;
    PowerOfTwoCoprime(k, p);
    Cancel(q, x * t, 1, p);
  }

  /** Which of the four numbers are even: t1 never, and one of w2, t2 at every round. */
  ghost predicate Parity(w1: int, t1: int, w2: int, t2: int)
  {
    w1 % 2 == 1 && t1 % 2 == 1 && (w2 % 2 == 0 || t2 % 2 == 0)
  }

  /** Once w2 has been halved until it is odd, t2 is even. */
  lemma HalveParity(w1: int, t1: int, w2: int, t2: int, j: nat, w: int)
    requires Parity(w1, t1, w2, t2) && w2 == w * Pow2(j) && w % 2 == 1
    ensures t2 * Pow2(j) % 2 == 0
  {
    if j > 0 {
      var h := Pow2(j - 1);
      assert Pow2(j) == 2 * h;
      assert t2 * (2 * h) == 2 * (t2 * h);
    } else {
      assert w * Pow2(0) == w && t2 * Pow2(0) == t2;
    }
  }
}
