/** Laws of the affine sum of two points: neutral element, opposites, commutativity, and the sum as the only point the
    line through the summands leaves; and a curve on which everything that is assumed of multiples holds. */
module GroupLaw {
  import opened Words
  import opened Congruence
  import opened EllipticCurve
  import opened CurveEquation
  import opened CurvePoints
  import opened Orbit

  // ----- infinity and opposites

  lemma PlusNeutral(Q: Point, a: int, p: int)
    requires Field(p) && InField(Q, p)
    ensures Plus(Infinity, Q, a, p) == Q == Plus(Q, Infinity, a, p)
  {
  }

  /** The sum of two points of the curve is infinity exactly when they are opposite. */
  lemma PlusInfinite(P: Point, Q: Point, a: int, b: int, p: int)
    requires Field(p) && InField(P, p) && InField(Q, p) && OnCurve(P, a, b, p) && OnCurve(Q, a, b, p)
    ensures Plus(P, Q, a, p) == Infinity <==> Q == Negative(P, p)
  {
    if P.Affine? && Q.Affine? && P.x == Q.x {
      SameOrOpposite(P, Q, a, b, p);
    }
    hide Prime, Cong, OnCurve, Third;
  }

  // ----- the line decides

  /** l is the slope of the line through P and Q, the tangent if they are equal. */
  ghost predicate LineThrough(P: Point, Q: Point, l: int, a: int, p: int)
    requires p > 0 && P.Affine? && Q.Affine?
  {
    && Cong(l * (Q.x - P.x), Q.y - P.y, p)
    && (P.x == Q.x ==> P == Q && 0 < P.y && Cong(l * (2 * P.y), 3 * (P.x * P.x) + a, p))
  }

  lemma SlopeUnique(P: Point, Q: Point, l: int, k: int, a: int, p: int)
    requires Field(p) && P.Affine? && Q.Affine? && InField(P, p) && InField(Q, p)
    requires LineThrough(P, Q, l, a, p) && LineThrough(P, Q, k, a, p)
    ensures Cong(k, l, p)
  {
    hide Cong, Prime;
    if P.x == Q.x {
      TwiceCoprime(P.y, p);
      SameMultiple(2 * P.y, l, k, 3 * (P.x * P.x) + a, p);
    } else {
      NonzeroCoprime(Q.x - P.x, p);
      SameMultiple(Q.x - P.x, l, k, Q.y - P.y, p);
    }
  }

  lemma SameMultiple(d: int, l: int, k: int, n: int, p: int)
    requires p > 1 && Coprime(d, p) && Cong(l * d, n, p) && Cong(k * d, n, p)
    ensures Cong(k, l, p)
  {
    hide Cong, Coprime;
    Sym(l * d, n, p);
    Trans(k * d, n, l * d, p);
    Commutes(d, k);
    Commutes(d, l);
    Cancel(d, k, l, p);
  }

  lemma Commutes(d: int, k: int)
    ensures d * k == k * d
  {
  }

  /** A point on a line through the summands, mirrored, is their sum. */
  lemma LineDecides(P: Point, Q: Point, R: Point, l: int, a: int, p: int)
    requires Field(p) && P.Affine? && Q.Affine? && InField(P, p) && InField(Q, p) && InField(R, p)
    requires LineThrough(P, Q, l, a, p) && OnLine(P, Q, R, l, p)
    ensures Plus(P, Q, a, p) == R
  {
    hide Cong, Prime, Plus, OnLine, LineThrough;
    NotInfinite(P, Q, l, a, p);
    var k := SumLine(P, Q, a, p);
    SlopeUnique(P, Q, l, k, a, p);
    TwoPoints(P, Q, Plus(P, Q, a, p), R, k, l, p);
  }

  lemma SumLine(P: Point, Q: Point, a: int, p: int) returns (k: int)
    requires Field(p) && InField(P, p) && InField(Q, p) && P.Affine? && Q.Affine? && Plus(P, Q, a, p).Affine?
    ensures LineThrough(P, Q, k, a, p)
    ensures OnLine(P, Q, Plus(P, Q, a, p), k, p) && InField(Plus(P, Q, a, p), p)
  {
    hide Cong, Prime, Plus, OnLine, LineThrough;
    k := SumOnLine(P, Q, a, p);
    OnLineParts(P, Q, Plus(P, Q, a, p), k, p);
    LineFrom(P, Q, k, a, p);
  }

  lemma TwoPoints(P: Point, Q: Point, R: Point, S: Point, k: int, l: int, p: int)
    requires p > 1 && OnLine(P, Q, R, k, p) && OnLine(P, Q, S, l, p) && InField(R, p) && InField(S, p) && Cong(k, l, p)
    ensures R == S
  {
    hide Cong, OnLine, Third;
    OnLineParts(P, Q, R, k, p);
    OnLineParts(P, Q, S, l, p);
    Same(l, p);
    SumIsOnLine(P, Q, R, k, l, p);
    SumIsOnLine(P, Q, S, l, l, p);
  }

  lemma LineFrom(P: Point, Q: Point, l: int, a: int, p: int)
    requires p > 0 && P.Affine? && Q.Affine? && Cong(l * (Q.x - P.x), Q.y - P.y, p)
    requires P.x == Q.x ==> P == Q && 0 < P.y && Cong(l * (2 * P.y), 3 * (P.x * P.x) + a, p)
    ensures LineThrough(P, Q, l, a, p)
  {
    hide Cong;
  }

  lemma NotInfinite(P: Point, Q: Point, l: int, a: int, p: int)
    requires Field(p) && P.Affine? && Q.Affine? && InField(P, p) && InField(Q, p) && LineThrough(P, Q, l, a, p)
    ensures Plus(P, Q, a, p).Affine?
  {
    hide Cong, Prime;
  }

  lemma OnLineParts(P: Point, Q: Point, R: Point, l: int, p: int)
    requires p > 0 && OnLine(P, Q, R, l, p)
    ensures R.Affine? && Cong(R.x, l * l - P.x - Q.x, p) && Cong(R.y, l * (P.x - R.x) - P.y, p)
    ensures P.Affine? && Q.Affine? && Cong(l * (Q.x - P.x), Q.y - P.y, p)
  {
  }

  lemma SumIsOnLine(P: Point, Q: Point, R: Point, k: int, l: int, p: int)
    requires p > 1 && P.Affine? && Q.Affine? && R.Affine? && InField(R, p) && Cong(k, l, p)
    requires Cong(R.x, k * k - P.x - Q.x, p) && Cong(R.y, k * (P.x - R.x) - P.y, p)
    ensures R == Third(P, Q, l, p)
  {
    hide Cong;
    ThirdComputed(P, Q, l, k, R.x, R.y, p);
  }

  // ----- commutativity

  lemma PlusCommutes(P: Point, Q: Point, a: int, p: int)
    requires Field(p) && InField(P, p) && InField(Q, p)
    ensures Plus(P, Q, a, p) == Plus(Q, P, a, p)
  {
    if P.Affine? && Q.Affine? && P.x != Q.x {
      ChordAffine(P, Q, a, p);
      hide Cong, Prime, Plus, OnLine;
      var l := SumOnLine(P, Q, a, p);
      var R := Plus(P, Q, a, p);
      OnLineParts(P, Q, R, l, p);
      LineBack(P, Q, R, l, p);
      OnLineParts(Q, P, R, l, p);
      LineDecides(Q, P, R, l, a, p);
    }
  }

  lemma ChordAffine(P: Point, Q: Point, a: int, p: int)
    requires Field(p) && InField(P, p) && InField(Q, p) && P.Affine? && Q.Affine? && P.x != Q.x
    ensures Plus(P, Q, a, p).Affine?
  {
    hide Prime;
  }

  /** The line through P and Q is the line through Q and P. */
  lemma LineBack(P: Point, Q: Point, R: Point, l: int, p: int)
    requires p > 0 && P.Affine? && Q.Affine? && R.Affine? && Cong(l * (Q.x - P.x), Q.y - P.y, p)
    requires Cong(R.x, l * l - P.x - Q.x, p) && Cong(R.y, l * (P.x - R.x) - P.y, p)
    ensures OnLine(Q, P, R, l, p)
  {
    var d, e := l * (Q.x - P.x), Q.y - P.y;
    hide Cong;
    Same(0, p);
    Sub(0, 0, d, e, p);
    assert 0 - d == l * (P.x - Q.x);
    Same(l * (P.x - R.x) - P.y, p);
    Same(e, p);
    Sub(d, e, e, e, p);
    Add(l * (P.x - R.x) - P.y, l * (P.x - R.x) - P.y, d - e, e - e, p);
    assert l * (P.x - R.x) - P.y + (d - e) == l * (Q.x - R.x) - Q.y;
    Sym(l * (Q.x - R.x) - Q.y, l * (P.x - R.x) - P.y, p);
    Trans(R.y, l * (P.x - R.x) - P.y, l * (Q.x - R.x) - Q.y, p);
  }

  // ----- a curve on which multiples are as assumed

  /** Multiples of the point (0, 1) of y^2 = x^3 + 1, whose tangent there is horizontal. */
  ghost function Threefold(p: int): int -> Point
    requires p > 0
  {
    (i: int) => if i % 3 == 0 then Infinity else if i % 3 == 1 then Affine(0, 1) else Affine(0, p - 1)
  }

  /** Over every field it has order three. */
  lemma OrderThree(p: int)
    requires Field(p)
    ensures Cyclic(Threefold(p), 0, 1, p, 3)
  {
    var g := Threefold(p);
    FlexPoint(p);
    assert OnCurve(g(1), 0, 1, p);
    forall i: int
      ensures Member(g, i, p, 3)
    {
    }
    forall i: int, j: int
      ensures AddsUp(g, i, j, 0, p)
    {
      FlexSum(i, j, p);
    }
  }

  lemma FlexPoint(p: int)
    requires Field(p)
    ensures Double(Affine(0, 1), 0, p) == Affine(0, p - 1)
    ensures Double(Affine(0, p - 1), 0, p) == Affine(0, 1)
  {
    TwiceCoprime(1, p);
    TwiceCoprime(p - 1, p);
    DivModUnique(0, p, 0, 0);
    DivModUnique(-1, p, -1, p - 1);
    DivModUnique(-(p - 1), p, -1, 1);
    assert TangentSlope(Affine(0, 1), 0, p) == 0 * Inverse(2, p) == 0;
    assert TangentSlope(Affine(0, p - 1), 0, p) == 0 * Inverse(2 * (p - 1), p) == 0;
  }

  lemma FlexSum(i: int, j: int, p: int)
    requires Field(p)
    ensures AddsUp(Threefold(p), i, j, 0, p)
  {
    hide Plus, Double, Prime;
    FlexTable(p, i % 3, j % 3);
  }

  lemma FlexTable(p: int, u: int, v: int)
    requires Field(p) && 0 <= u < 3 && 0 <= v < 3
    ensures InField(Threefold(p)(u), p) && InField(Threefold(p)(v), p)
    ensures Plus(Threefold(p)(u), Threefold(p)(v), 0, p) == Threefold(p)((u + v) % 3)
  {
    FlexPoint(p);
    hide Double, Prime;
  }

  /** And there is a field. */
  lemma FieldFive()
    ensures Field(5)
  {
    forall d: int | d > 0 && Divides(d, 5)
      ensures d == 1 || d == 5
    {
      if d > 5 {
        SmallResidue(5, d);
      }
    }
  }
}
