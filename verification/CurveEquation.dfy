/** Points on y^2 = x^3 + a x + b: the affine law of ecdsa.c stays on the curve. */
module CurveEquation {
  import opened Words
  import opened Congruence
  import opened EllipticCurve

  ghost function Cubic(x: int, a: int, b: int): int
  {
    x * x * x + a * x + b
  }

  ghost predicate OnCurve(P: Point, a: int, b: int, p: int)
    requires p > 0
  {
    P.Affine? ==> Cong(P.y * P.y, Cubic(P.x, a, b), p)
  }

  /** The cubic minus the square of the line l x - c, divided by the three factors it should have. */
  lemma Factored(x: int, x1: int, x2: int, l: int, c: int, a: int, b: int)
    ensures var x3 := l * l - x1 - x2;
      Cubic(x, a, b) - (l * x - c) * (l * x - c)
      == (x - x1) * (x - x2) * (x - x3) + Linear(x, x1, x2, l, c, a, b)
  {
    var x3 := l * l - x1 - x2;
    var e2, e3 := x1 * x2 + x1 * x3 + x2 * x3, x1 * x2 * x3;
    calc {
      (x - x1) * (x - x2) * (x - x3);
      (x * x - (x1 + x2) * x + x1 * x2) * (x - x3);
      x * x * x - (x1 + x2 + x3) * (x * x) + e2 * x - e3;
      x * x * x - (l * l) * (x * x) + e2 * x - e3;
    }
    assert (l * x - c) * (l * x - c) == (l * l) * (x * x) - (2 * l * c) * x + c * c;
    assert (a + 2 * l * c - e2) * x == a * x + (2 * l * c) * x - e2 * x;
  }

  /** What is left over: a polynomial of degree one. */
  ghost function Linear(x: int, x1: int, x2: int, l: int, c: int, a: int, b: int): int
  {
    Slope(x1, x2, l, c, a) * x + Intercept(x1, x2, l, c, b)
  }

  ghost function Slope(x1: int, x2: int, l: int, c: int, a: int): int
  {
    var x3 := l * l - x1 - x2;
    a + 2 * l * c - (x1 * x2 + x1 * x3 + x2 * x3)
  }

  ghost function Intercept(x1: int, x2: int, l: int, c: int, b: int): int
  {
    var x3 := l * l - x1 - x2;
    b - c * c + x1 * x2 * x3
  }

  lemma ZeroFactor(u: int, v: int, w: int)
    requires u == 0 || v == 0
    ensures u * v * w == 0
  {
  }

  /** The remainder vanishes wherever the line meets the curve in one of the three abscissas. */
  lemma VanishesAt(x: int, y: int, x1: int, x2: int, l: int, c: int, a: int, b: int, p: int)
    requires p > 1 && (x == x1 || x == x2) && Cong(y * y, Cubic(x, a, b), p) && Cong(l * x - c, y, p)
    ensures Cong(Linear(x, x1, x2, l, c, a, b), 0, p)
  {
    Factored(x, x1, x2, l, c, a, b);
    var x3 := l * l - x1 - x2;
    ZeroFactor(x - x1, x - x2, x - x3);
    hide Cong, Cubic, Linear;
    Mul(l * x - c, y, l * x - c, y, p);
    Sym(y * y, Cubic(x, a, b), p);
    Sub(Cubic(x, a, b), y * y, (l * x - c) * (l * x - c), y * y, p);
  }

  /** On a tangent the remainder has slope zero. */
  lemma TangentSlopeVanishes(x1: int, y1: int, l: int, a: int, p: int)
    requires p > 1 && Cong(l * (2 * y1), 3 * (x1 * x1) + a, p)
    ensures Cong(Slope(x1, x1, l, l * x1 - y1, a), 0, p)
  {
    var c := l * x1 - y1;
    var x3 := l * l - x1 - x1;
    assert x1 * x3 == (l * l) * x1 - 2 * (x1 * x1);
    assert 2 * l * c == 2 * ((l * l) * x1) - l * (2 * y1);
    assert Slope(x1, x1, l, c, a) == 3 * (x1 * x1) + a - l * (2 * y1);
    Sym(l * (2 * y1), 3 * (x1 * x1) + a, p);
    Same(l * (2 * y1), p);
    Sub(3 * (x1 * x1) + a, l * (2 * y1), l * (2 * y1), l * (2 * y1), p);
  }

  /** On a chord it has two different roots, and so slope zero as well. */
  lemma ChordSlopeVanishes(s: int, t: int, x1: int, x2: int, p: int)
    requires p > 1 && Cong(s * x1 + t, 0, p) && Cong(s * x2 + t, 0, p) && Coprime(x2 - x1, p)
    ensures Cong(s, 0, p)
  {
    Sub(s * x2 + t, 0, s * x1 + t, 0, p);
    assert s * x2 + t - (s * x1 + t) == (x2 - x1) * s;
    assert 0 == (x2 - x1) * 0;
    Cancel(x2 - x1, s, 0, p);
  }

  lemma LineEverywhere(s: int, t: int, x: int, x': int, p: int)
    requires p > 0 && Cong(s, 0, p) && Cong(s * x + t, 0, p)
    ensures Cong(s * x' + t, 0, p)
  {
    Same(x' - x, p);
    Mul(s, 0, x' - x, x' - x, p);
    Add(s * (x' - x), 0, s * x + t, 0, p);
    assert s * (x' - x) + (s * x + t) == s * x' + t;
  }

  /** The third intersection of a line with the curve is on the curve. */
  lemma ThirdIntersection(P: Point, Q: Point, R: Point, l: int, a: int, b: int, p: int)
    requires p > 1 && OnLine(P, Q, R, l, p) && OnCurve(P, a, b, p) && OnCurve(Q, a, b, p)
    requires P.x == Q.x ==> Cong(l * (2 * P.y), 3 * (P.x * P.x) + a, p)
    requires P.x != Q.x ==> Coprime(Q.x - P.x, p)
    ensures OnCurve(R, a, b, p)
  {
    var x1, x2, c := P.x, Q.x, l * P.x - P.y;
    var x3 := l * l - x1 - x2;
    var s, t := Slope(x1, x2, l, c, a), Intercept(x1, x2, l, c, b);
    Same(P.y, p);
    VanishesAt(x1, P.y, x1, x2, l, c, a, b, p);
    if x1 == x2 {
      TangentSlopeVanishes(x1, P.y, l, a, p);
    } else {
      Add(l * (x2 - x1), Q.y - P.y, P.y, P.y, p);
      assert l * (x2 - x1) + P.y == l * x2 - c;
      VanishesAt(x2, Q.y, x1, x2, l, c, a, b, p);
      ChordSlopeVanishes(s, t, x1, x2, p);
    }
    LineEverywhere(s, t, x1, x3, p);
    Factored(x3, x1, x2, l, c, a, b);
    assert (x3 - x1) * (x3 - x2) * (x3 - x3) == 0;
    assert Cong(Cubic(x3, a, b) - (l * x3 - c) * (l * x3 - c), 0, p);
    Mirrored(P, R, l, x3, c, a, b, p);
  }

  lemma Mirrored(P: Point, R: Point, l: int, x3: int, c: int, a: int, b: int, p: int)
    requires p > 1 && P.Affine? && R.Affine? && c == l * P.x - P.y
    requires Cong(R.x, x3, p) && Cong(R.y, l * (P.x - R.x) - P.y, p)
    requires Cong(Cubic(x3, a, b) - (l * x3 - c) * (l * x3 - c), 0, p)
    ensures OnCurve(R, a, b, p)
  {
    var v := l * x3 - c;
    hide Cong;
    Same(l, p);
    Same(c, p);
    Mul(l, l, R.x, x3, p);
    Sub(c, c, l * R.x, l * x3, p);
    MirrorIdentity(l, P.x, P.y, R.x, v);
    Trans(R.y, c - l * R.x, -v, p);
    Mul(R.y, -v, R.y, -v, p);
    Same(v * v, p);
    Add(Cubic(x3, a, b) - v * v, 0, v * v, v * v, p);
    Sym(Cubic(x3, a, b), v * v, p);
    Trans(R.y * R.y, v * v, Cubic(x3, a, b), p);
    CubicCong(R.x, x3, a, b, p);
    Sym(Cubic(R.x, a, b), Cubic(x3, a, b), p);
    Trans(R.y * R.y, Cubic(x3, a, b), Cubic(R.x, a, b), p);
  }

  lemma MirrorIdentity(l: int, x: int, y: int, r: int, v: int)
    ensures l * (x - r) - y == l * x - y - l * r && (-v) * (-v) == v * v
  {
  }

  lemma CubicCong(x: int, y: int, a: int, b: int, p: int)
    requires p > 0 && Cong(x, y, p)
    ensures Cong(Cubic(x, a, b), Cubic(y, a, b), p)
  {
    Same(a, p);
    Same(b, p);
    hide Cong;
    Mul(x, y, x, y, p);
    Mul(x * x, y * y, x, y, p);
    Mul(a, a, x, y, p);
    Add(x * x * x, y * y * y, a * x, a * y, p);
    Add(x * x * x + a * x, y * y * y + a * y, b, b, p);
  }

  /** The sum of two points of the curve is a point of the curve. */
  lemma PlusOnCurve(P: Point, Q: Point, a: int, b: int, p: int)
    requires Field(p) && InField(P, p) && InField(Q, p) && OnCurve(P, a, b, p) && OnCurve(Q, a, b, p)
    ensures OnCurve(Plus(P, Q, a, p), a, b, p) && InField(Plus(P, Q, a, p), p)
  {
    if P.Affine? && Q.Affine? && Plus(P, Q, a, p).Affine? {
      var l := SumOnLine(P, Q, a, p);
      if P.x != Q.x {
        NonzeroCoprime(Q.x - P.x, p);
      }
      hide Plus;
      ThirdIntersection(P, Q, Plus(P, Q, a, p), l, a, b, p);
    }
  }

  /** Two points of the curve with the same abscissa are equal or opposite. */
  lemma SameOrOpposite(P: Point, Q: Point, a: int, b: int, p: int)
    requires Field(p) && P.Affine? && Q.Affine? && InField(P, p) && InField(Q, p)
    requires OnCurve(P, a, b, p) && OnCurve(Q, a, b, p) && P.x == Q.x
    ensures Q == P || Q == Negative(P, p)
  {
    if Q.y != P.y {
      var c := Cubic(P.x, a, b);
      Sym(P.y * P.y, c, p);
      Trans(Q.y * Q.y, c, P.y * P.y, p);
      Same(P.y * P.y, p);
      Sub(Q.y * Q.y, P.y * P.y, P.y * P.y, P.y * P.y, p);
      assert Q.y * Q.y - P.y * P.y == (Q.y - P.y) * (Q.y + P.y);
      assert (Q.y - P.y) * 0 == 0;
      NonzeroCoprime(Q.y - P.y, p);
      Cancel(Q.y - P.y, Q.y + P.y, 0, p);
      var q := Quotient(Q.y + P.y, 0, p);
      if q >= 2 {
        Product(p, 2, q);
        assert false;
      } else if q <= 0 {
        Product(p, q, 0);
        assert false;
      }
    }
  }

  /** With b not divisible by p, (0, 0) is off the curve and free to stand for infinity. */
  lemma OriginOffCurve(a: int, b: int, p: int)
    requires p > 1 && b % p != 0
    ensures !OnCurve(Affine(0, 0), a, b, p)
  {
    if Cong(0, Cubic(0, a, b), p) {
      assert Cubic(0, a, b) == b;
      Sym(0, b, p);
      assert false;
    }
  }
}
