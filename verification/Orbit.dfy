/** The multiples of a point of order n, as far as the scalar loops of ecdsa.c rely on them. */
module Orbit {
  import opened Words
  import opened Congruence
  import opened EllipticCurve
  import opened CurveEquation

  ghost predicate Member(g: int -> Point, i: int, p: int, n: int)
    requires n > 0
  {
    InField(g(i), p) && (g(i).Infinity? <==> i % n == 0)
  }

  ghost predicate AddsUp(g: int -> Point, i: int, j: int, a: int, p: int)
    requires Field(p)
  {
    InField(g(i), p) && InField(g(j), p) && Plus(g(i), g(j), a, p) == g(i + j)
  }

  /** g(i) is i times g(1), a point of the curve of odd order n.  This is all that is assumed of the group. */
  ghost predicate Cyclic(g: int -> Point, a: int, b: int, p: int, n: int)
  {
    && Field(p) && n > 1 && n % 2 == 1 && OnCurve(g(1), a, b, p)
    && (forall i: int :: Member(g, i, p, n))
    && (forall i: int, j: int :: AddsUp(g, i, j, a, p))
  }

  lemma MemberOf(g: int -> Point, i: int, a: int, b: int, p: int, n: int)
    requires Cyclic(g, a, b, p, n)
    ensures InField(g(i), p) && (g(i).Infinity? <==> i % n == 0)
  {
    assert Member(g, i, p, n);
  }

  lemma Added(g: int -> Point, i: int, j: int, a: int, b: int, p: int, n: int)
    requires Cyclic(g, a, b, p, n)
    ensures InField(g(i), p) && InField(g(j), p) && Plus(g(i), g(j), a, p) == g(i + j)
  {
    assert AddsUp(g, i, j, a, p);
  }

  lemma DoubledMultiple(g: int -> Point, i: int, a: int, b: int, p: int, n: int)
    requires Cyclic(g, a, b, p, n)
    ensures InField(g(i), p) && Double(g(i), a, p) == g(2 * i)
  {
    Added(g, i, i, a, b, p, n);
  }

  lemma Periodic(g: int -> Point, i: int, m: int, a: int, b: int, p: int, n: int)
    requires Cyclic(g, a, b, p, n)
    ensures g(i + m * n) == g(i)
  {
    MultipleDivides(n, m);
    MemberOf(g, m * n, a, b, p, n);
    Added(g, i, m * n, a, b, p, n);
  }

  lemma {:induction false} MultipleOnCurve(g: int -> Point, i: nat, a: int, b: int, p: int, n: int)
    requires Cyclic(g, a, b, p, n)
    ensures OnCurve(g(i), a, b, p)
  {
    if i == 0 {
      SmallResidue(0, n);
      MemberOf(g, 0, a, b, p, n);
    } else {
      MultipleOnCurve(g, i - 1, a, b, p, n);
      Added(g, i - 1, 1, a, b, p, n);
      hide Cyclic;
      PlusOnCurve(g(i - 1), g(1), a, b, p);
    }
  }

  /** Every multiple, negative ones included, is on the curve. */
  lemma AllOnCurve(g: int -> Point, i: int, a: int, b: int, p: int, n: int)
    requires Cyclic(g, a, b, p, n)
    ensures OnCurve(g(i), a, b, p)
  {
    if i >= 0 {
      MultipleOnCurve(g, i, a, b, p, n);
    } else {
      Periodic(g, i, -i, a, b, p, n);
      Product(n - 1, 0, -i);
      assert i + -i * n == -i * (n - 1);
      MultipleOnCurve(g, i + -i * n, a, b, p, n);
    }
  }

  lemma NegatedMultiple(i: int, n: int)
    requires n > 0
    ensures i % n == 0 <==> (-i) % n == 0
  {
    if i % n == 0 {
      DividesProduct(n, i, -1);
    }
    if (-i) % n == 0 {
      DividesProduct(n, -i, -1);
    }
  }

  /** The opposite multiple is the mirrored point. */
  lemma Mirror(g: int -> Point, i: int, a: int, b: int, p: int, n: int)
    requires Cyclic(g, a, b, p, n)
    ensures InField(g(i), p) && g(-i) == Negative(g(i), p)
  {
    NegatedMultiple(i, n);
    MemberOf(g, i, a, b, p, n);
    MemberOf(g, -i, a, b, p, n);
    if g(i).Affine? {
      SmallResidue(0, n);
      MemberOf(g, 0, a, b, p, n);
      Added(g, i, -i, a, b, p, n);
      AllOnCurve(g, i, a, b, p, n);
      AllOnCurve(g, -i, a, b, p, n);
      hide Cyclic, Cong, Prime;
      InfinityMeansSameAbscissa(g(i), g(-i), a, p);
      SameOrOpposite(g(i), g(-i), a, b, p);
    }
  }

  lemma InfinityMeansSameAbscissa(P: Point, Q: Point, a: int, p: int)
    requires Field(p) && InField(P, p) && InField(Q, p) && P.Affine? && Q.Affine? && Plus(P, Q, a, p).Infinity?
    ensures P.x == Q.x && (P == Q ==> P.y == 0)
  {
  }

  /** An odd order leaves no point of order two. */
  lemma NoHalfTurn(g: int -> Point, i: int, a: int, b: int, p: int, n: int)
    requires Cyclic(g, a, b, p, n) && i % n != 0
    ensures g(i).Affine? && InField(g(i), p) && 0 < g(i).y
    ensures (2 * i) % n != 0
  {
    MemberOf(g, i, a, b, p, n);
    if (2 * i) % n == 0 {
      CancelTwo(i, 0, n);
      assert false;
    }
    MemberOf(g, 2 * i, a, b, p, n);
    DoubledMultiple(g, i, a, b, p, n);
  }
}
