/** point_multiply (ecdsa.c): left to right over a table of odd multiples. */
module WindowMultiply {
  import opened Words
  import opened Digits
  import opened Congruence
  import opened BignumBasics
  import opened EllipticCurve
  import opened CurveEquation
  import opened CurvePoints
  import opened JacobianPoints
  import opened JacobianAdd
  import opened JacobianDouble
  import opened Orbit
  import opened SignedDigits
  import opened Recoding

  /** A curve whose order is the number n of different multiples g(i). */
  ghost predicate Ready(curve: Curve, g: int -> Point): (r: bool)
    reads curve.prime, curve.order
    ensures r ==> IsModulus(curve.prime) && IsModulus(curve.order)
  {
    && curve.Valid() && IsModulus(curve.order)
    && Cyclic(g, curve.a, curve.b, Val(curve.prime), Val(curve.order))
  }

  ghost predicate Off(curve: Curve, jres: JacobianPoint)
  {
    jres.Shape() && {jres.x, jres.y, jres.z} !! {curve.prime, curve.order}
  }

  // ----- negating a point

  lemma ZeroNotCoprime(p: int)
    requires p > 1
    ensures !Coprime(0, p)
  {
    MultipleDivides(p, 0);
    MultipleDivides(p, 1);
    assert Divides(p, 0) && Divides(p, 1 * p);
  }

  lemma MinusCong(v: int, p: int)
    requires p > 0
    ensures Cong(2 * p - v, -v, p)
  {
    Intro(2 * p - v, -v, p, 2);
  }

  method NegateZ(cond: word, jres: JacobianPoint, prime: array<word>, ghost P: Point)
    requires Mask(cond) && IsModulus(prime) && jres.Shows(P, Val(prime)) && InField(P, Val(prime))
    requires prime !in {jres.x, jres.y, jres.z}
    modifies jres.z
    ensures jres.Shows(if cond == 0 then P else Negative(P, Val(prime)), Val(prime))
  {
    ghost var p, X, Y, Z := Val(prime), Val(jres.x), Val(jres.y), Val(jres.z);
    ZeroNotCoprime(p);
    assert Z > 0;
    MinusCong(Z, p);
    hide Val, Norm, Cong, Coprime, Represents, Negative;
    ConditionalNegate(cond, jres.z, prime);
    if cond != 0 {
      NegatedZ(X, Y, Z, Val(jres.z), P, p);
    }
  }

  lemma OrdinateNotZero(Y: int, Z: int, y: int, p: int)
    requires p > 1 && Coprime(Z, p) && Cong(Y, y * (Z * Z * Z), p) && 0 < y < p
    ensures Y != 0
  {
    if Y == 0 {
      SquareCoprime(Z, p);
      var z3 := Z * Z * Z;
      assert y * z3 == z3 * y && 0 == z3 * 0;
      Sym(0, z3 * y, p);
      Cancel(z3, y, 0, p);
      Unique(y, 0, p);
    }
  }

  method NegateY(cond: word, jres: JacobianPoint, prime: array<word>, ghost P: Point)
    requires Mask(cond) && IsModulus(prime) && jres.Shows(P, Val(prime)) && InField(P, Val(prime)) && 0 < P.y
    requires prime !in {jres.x, jres.y, jres.z}
    modifies jres.y
    ensures jres.Shows(if cond == 0 then P else Negative(P, Val(prime)), Val(prime))
  {
    ghost var p, X, Y, Z := Val(prime), Val(jres.x), Val(jres.y), Val(jres.z);
    OrdinateNotZero(Y, Z, P.y, p);
    MinusCong(Y, p);
    hide Val, Norm, Cong, Coprime, Represents, Negative;
    ConditionalNegate(cond, jres.y, prime);
    if cond != 0 {
      NegatedY(X, Y, Val(jres.y), Z, P, p);
    }
  }

  // ----- steps on multiples

  /** jres = 2^4 jres. */
  method FourDoublings(curve: Curve, jres: JacobianPoint, ghost g: int -> Point, ghost m: int)
    requires Ready(curve, g) && Off(curve, jres) && m % Val(curve.order) != 0
    requires jres.Shows(g(m), Val(curve.prime))
    modifies jres.x, jres.y, jres.z
    ensures jres.Shows(g(16 * m), Val(curve.prime))
  {
    ghost var a, b, p, n := curve.a, curve.b, Val(curve.prime), Val(curve.order);
    DoublingChain(g, m, a, b, p, n);
    hide Val, Norm, Modulus, Cyclic, Prime, Represents, Double;
    PointJacobianDouble(jres, curve, g(m));
    PointJacobianDouble(jres, curve, g(2 * m));
    PointJacobianDouble(jres, curve, g(4 * m));
    PointJacobianDouble(jres, curve, g(8 * m));
  }

  lemma DoublingStep(g: int -> Point, m: int, a: int, b: int, p: int, n: int)
    requires Cyclic(g, a, b, p, n) && m % n != 0
    ensures InField(g(m), p) && Double(g(m), a, p) == g(2 * m) && g(2 * m).Affine? && (2 * m) % n != 0
  {
    NoHalfTurn(g, m, a, b, p, n);
    DoubledMultiple(g, m, a, b, p, n);
    MemberOf(g, 2 * m, a, b, p, n);
  }

  lemma DoublingChain(g: int -> Point, m: int, a: int, b: int, p: int, n: int)
    requires Cyclic(g, a, b, p, n) && m % n != 0
    ensures InField(g(m), p) && Double(g(m), a, p) == g(2 * m) && g(2 * m).Affine?
    ensures InField(g(2 * m), p) && Double(g(2 * m), a, p) == g(4 * m) && g(4 * m).Affine?
    ensures InField(g(4 * m), p) && Double(g(4 * m), a, p) == g(8 * m) && g(8 * m).Affine?
    ensures InField(g(8 * m), p) && Double(g(8 * m), a, p) == g(16 * m) && g(16 * m).Affine?
  {
    hide Cyclic, Double;
    DoublingStep(g, m, a, b, p, n);
    DoublingStep(g, 2 * m, a, b, p, n);
    DoublingStep(g, 4 * m, a, b, p, n);
    DoublingStep(g, 8 * m, a, b, p, n);
  }

  /** jres = c + jres, where c holds a multiple. */
  method AddMultipleOf(curve: Curve, c: CurvePoint, jres: JacobianPoint, ghost g: int -> Point, ghost d: int,
      ghost m: int)
    requires Ready(curve, g) && Off(curve, jres) && {jres.x, jres.y, jres.z} !! {c.x, c.y}
    requires Entry(c, g(d), Val(curve.prime)) && jres.Shows(g(m), Val(curve.prime))
    requires d % Val(curve.order) != 0 && (d + m) % Val(curve.order) != 0
    modifies jres.x, jres.y, jres.z
    ensures jres.Shows(g(d + m), Val(curve.prime))
  {
    ghost var a, b, p, n := curve.a, curve.b, Val(curve.prime), Val(curve.order);
    MemberOf(g, d, a, b, p, n);
    MemberOf(g, m, a, b, p, n);
    MemberOf(g, d + m, a, b, p, n);
    Added(g, d, m, a, b, p, n);
    Same(Val(c.x), p);
    Same(Val(c.y), p);
    hide Val, Norm, Modulus, Cyclic, Prime, Represents, Plus, Cong;
    PointJacobianAdd(c, jres, curve, g(d), g(m));
  }

  // ----- the table of odd multiples

  /** c holds P, fully reduced. */
  ghost predicate Entry(c: CurvePoint, P: Point, p: int)
    reads c.x, c.y
  {
    c.Holds(p) && c.At() == P
  }

  method NewPoints() returns (t: seq<CurvePoint>)
    ensures |t| == 8 && forall j :: 0 <= j < 8 ==> t[j].Shape() && fresh(t[j].x) && fresh(t[j].y)
    ensures forall i, j :: 0 <= i < j < 8 ==> Apart(t[i], t[j])
  {
    t := [];
    while |t| < 8
      invariant |t| <= 8 && forall j :: 0 <= j < |t| ==> t[j].Shape() && fresh(t[j].x) && fresh(t[j].y)
      invariant forall i, j :: 0 <= i < j < |t| ==> Apart(t[i], t[j])
      decreases 8 - |t|
    {
      var c := new CurvePoint();
      t := t + [c];
    }
  }

  /** next = twice + prev, where prev holds m times and twice two times the point. */
  method NextOddMultiple(curve: Curve, prev: CurvePoint, twice: CurvePoint, next: CurvePoint, ghost g: int -> Point,
      ghost m: int)
    requires Ready(curve, g) && next.Shape() && Apart(prev, next) && (twice == next || Apart(twice, next))
    requires curve.prime !in {next.x, next.y} && curve.order !in {next.x, next.y}
    requires Entry(prev, g(m), Val(curve.prime)) && Entry(twice, g(2), Val(curve.prime))
    modifies next.x, next.y
    ensures Entry(next, g(m + 2), Val(curve.prime))
  {
    ghost var a, b, p, n := curve.a, curve.b, Val(curve.prime), Val(curve.order);
    AllOnCurve(g, m, a, b, p, n);
    AllOnCurve(g, 2, a, b, p, n);
    Added(g, m, 2, a, b, p, n);
    hide Val, Norm, Modulus, Cyclic, Prime, Plus, Cong, Cubic;
    PointCopy(twice, next);
    PointAdd(curve, prev, next);
  }

  /** The first entry and twice the point, in place. */
  method StartTable(curve: Curve, point: CurvePoint, first: CurvePoint, last: CurvePoint, ghost g: int -> Point)
    requires Ready(curve, g) && Entry(point, g(1), Val(curve.prime))
    requires first.Shape() && last.Shape() && Apart(first, last) && Apart(point, first) && Apart(point, last)
    requires curve.prime !in {first.x, first.y, last.x, last.y} && curve.order !in {first.x, first.y, last.x, last.y}
    modifies first.x, first.y, last.x, last.y
    ensures Entry(first, g(1), Val(curve.prime)) && Entry(last, g(2), Val(curve.prime))
  {
    ghost var a, b, p, n := curve.a, curve.b, Val(curve.prime), Val(curve.order);
    AllOnCurve(g, 1, a, b, p, n);
    DoubledMultiple(g, 1, a, b, p, n);
    hide Val, Norm, Modulus, Cyclic, Prime, Double, Cong, Cubic;
    PointCopy(point, last);
    PointDouble(curve, last);
    PointCopy(point, first);
  }

  /** pmult[j] = (2 j + 1) * point. */
  method OddMultiples(curve: Curve, point: CurvePoint, ghost g: int -> Point) returns (pmult: seq<CurvePoint>)
    requires Ready(curve, g) && Entry(point, g(1), Val(curve.prime))
    ensures |pmult| == 8 && forall j :: 0 <= j < 8 ==> fresh(pmult[j].x) && fresh(pmult[j].y)
    ensures forall j :: 0 <= j < 8 ==> Entry(pmult[j], g(2 * j + 1), Val(curve.prime))
  {
    hide Val, Norm, Modulus, Cyclic, Prime, Entry, Reduced;
    pmult := NewPoints();
    StartTable(curve, point, pmult[0], pmult[7], g);
    var i := 1;
    while i < 8
      invariant 1 <= i <= 8
      invariant forall j :: 0 <= j < i ==> Entry(pmult[j], g(2 * j + 1), Val(curve.prime))
      invariant i < 8 ==> Entry(pmult[7], g(2), Val(curve.prime))
    {
      NextOddMultiple(curve, pmult[i - 1], pmult[7], pmult[i], g, 2 * i - 1);
      i := i + 1;
    }
  }

  // ----- point_multiply

  lemma SignedMultiple(sign: word, m: int, n: int)
    requires n > 0 && m % n != 0
    ensures (SignOf(sign) * m) % n != 0
  {
    NegatedMultiple(m, n);
  }

  lemma SmallDigit(d: int, n: int)
    requires n > 16 && 0 < d < 16
    ensures d % n != 0
  {
    SmallResidue(d, n);
  }

  /** Aligning the sign of the accumulated multiple with that of the next digit. */
  lemma AlignedSign(g: int -> Point, sign: word, nsign: word, m: int, a: int, b: int, p: int, n: int)
    requires Cyclic(g, a, b, p, n) && Mask(sign) && Mask(nsign)
    ensures Xor(sign, nsign) == (if sign == nsign then 0 else 0xFFFF_FFFF)
    ensures (if sign == nsign then g(SignOf(sign) * m) else Negative(g(SignOf(sign) * m), p)) == g(SignOf(nsign) * m)
  {
    Mirror(g, SignOf(sign) * m, a, b, p, n);
    assert -(SignOf(sign) * m) == (-SignOf(sign)) * m;
    XorZero(sign, nsign);
    Pow2Values();
    XorOnes(0xFFFF_FFFF, 32);
  }

  ghost predicate OffTable(t: seq<CurvePoint>, jres: JacobianPoint)
  {
    |t| == 8 && forall j :: 0 <= j < 8 ==> {jres.x, jres.y, jres.z} !! {t[j].x, t[j].y}
  }

  lemma SignedSum(sign: word, m: int, d: int, e: int)
    requires SignOf(sign) * e == d
    ensures e + SignOf(sign) * m == SignOf(sign) * (m + d)
  {
  }

  lemma AlignedParts(g: int -> Point, sign: word, nsign: word, m: int, d: int, e: int, a: int, b: int, p: int, n: int)
    requires Cyclic(g, a, b, p, n) && Mask(sign) && Mask(nsign) && n > 16
    requires 0 < e < 16 && SignOf(nsign) * e == d && (m + d) % n != 0
    ensures (Xor(sign, nsign) == 0 || Xor(sign, nsign) == 0xFFFF_FFFF) && InField(g(SignOf(sign) * m), p)
    ensures (if Xor(sign, nsign) == 0 then g(SignOf(sign) * m) else Negative(g(SignOf(sign) * m), p))
         == g(SignOf(nsign) * m)
    ensures e % n != 0 && e + SignOf(nsign) * m == SignOf(nsign) * (m + d) && (e + SignOf(nsign) * m) % n != 0
  {
    hide Cyclic, Negative, Xor, SignOf;
    AlignedSign(g, sign, nsign, m, a, b, p, n);
    MemberOf(g, SignOf(sign) * m, a, b, p, n);
    SmallDigit(e, n);
    SignedMultiple(nsign, m + d, n);
    SignedSum(nsign, m, d, e);
  }

  lemma ReadyCycle(curve: Curve, g: int -> Point)
    requires Ready(curve, g)
    ensures Cyclic(g, curve.a, curve.b, Val(curve.prime), Val(curve.order)) && Val(curve.order) > 16
  {
  }

  /** The end of a round of point_multiply: c holds the size of the digit d, whose sign is nsign. */
  method AlignAndAdd(curve: Curve, c: CurvePoint, jres: JacobianPoint, sign: word, nsign: word,
                     ghost g: int -> Point, ghost m: int, ghost d: int, ghost e: int)
    requires Ready(curve, g) && Off(curve, jres) && {jres.x, jres.y, jres.z} !! {c.x, c.y} && Mask(sign) && Mask(nsign)
    requires 0 < e < 16 && SignOf(nsign) * e == d && Entry(c, g(e), Val(curve.prime))
    requires jres.Shows(g(SignOf(sign) * m), Val(curve.prime))
    requires (m + d) % Val(curve.order) != 0
    modifies jres.x, jres.y, jres.z
    ensures jres.Shows(g(SignOf(nsign) * (m + d)), Val(curve.prime))
  {
    hide Val, Norm, Modulus, Cyclic, Prime, Represents, Entry, SignOf, Xor, Negative, Ready;
    ghost var a, b, p, n := curve.a, curve.b, Val(curve.prime), Val(curve.order);
    ReadyCycle(curve, g);
    AlignedParts(g, sign, nsign, m, d, e, a, b, p, n);
    NegateZ(Xor(sign, nsign), jres, curve.prime, g(SignOf(sign) * m));
    AddMultipleOf(curve, c, jres, g, e, SignOf(nsign) * m);
  }

  lemma LeadingStep(k: nat, n: nat, i: nat)
    requires 0 < k < n && Modulus(n) && i < 63
    ensures var a := Recoded(k, n);
      && Leading(a, i) == 16 * Leading(a, i + 1) + Digit(a, i)
      && Leading(a, i) % n != 0 && Leading(a, i + 1) % n != 0
  {
    LeadingNotMultiple(k, n, i);
    LeadingNotMultiple(k, n, i + 1);
  }

  lemma Sixteenfold(s: int, m: int)
    ensures 16 * (s * m) == s * (16 * m)
  {
  }

  /** What the loop of point_multiply keeps: jres shows the digits from i on, up to the sign of digit i. */
  ghost predicate Accumulated(jres: JacobianPoint, sign: word, i: nat, g: int -> Point, k: nat, p: int, n: int)
    requires p > 0 && k < n < TWO256 && n % 2 == 1
    reads jres.x, jres.y, jres.z
  {
    Mask(sign) && jres.Shows(g(SignOf(sign) * Leading(Recoded(k, n), i)), p)
  }

  /** Reads digit i: bits / 2 is the table index of its size, and nsign its sign. */
  method NextLeftDigit(a: array<word>, index: nat, abits: word, ashift: int, ghost A: nat, ghost i: nat)
      returns (index': nat, abits': word, ashift': int, nsign: word, bits: word)
    requires Norm(a) && Val(a) == A
    requires index <= 8 && abits == a[index] && 0 <= ashift < 30 && 30 * index + ashift == 4 * (i + 1)
    ensures index' <= 8 && abits' == a[index'] && 0 <= ashift' < 30 && 30 * index' + ashift' == 4 * i
    ensures Mask(nsign) && bits < 16 && SignOf(nsign) * (2 * (bits / 2) + 1) == Digit(A, i)
  {
    hide Val, Norm, SignOf, Digit, Top, Oddly;
    index', abits', ashift', bits := NextWindow(a, index, abits, ashift, i);
    WindowDigit(A, i, bits);
    nsign, bits := SignedWindow(bits);
  }

  /** One round of that loop. */
  method LeftRound(curve: Curve, a: array<word>, pmult: seq<CurvePoint>, jres: JacobianPoint, sign: word,
                   index: nat, abits: word, ashift: int, ghost g: int -> Point, ghost k: nat, ghost i: nat)
      returns (nsign: word, index': nat, abits': word, ashift': int)
    requires Ready(curve, g) && Off(curve, jres) && OffTable(pmult, jres) && a !in {jres.x, jres.y, jres.z}
    requires 0 < k < Val(curve.order) && Norm(a) && Val(a) == Recoded(k, Val(curve.order)) && i < 63
    requires forall j :: 0 <= j < 8 ==> Entry(pmult[j], g(2 * j + 1), Val(curve.prime))
    requires Accumulated(jres, sign, i + 1, g, k, Val(curve.prime), Val(curve.order))
    requires index <= 8 && abits == a[index] && 0 <= ashift < 30 && 30 * index + ashift == 4 * (i + 1)
    modifies jres.x, jres.y, jres.z
    ensures Accumulated(jres, nsign, i, g, k, Val(curve.prime), Val(curve.order))
    ensures index' <= 8 && abits' == a[index'] && 0 <= ashift' < 30 && 30 * index' + ashift' == 4 * i
  {
    hide Val, Norm, Cyclic, Prime, Represents, Entry, SignOf, Recoded, Leading, Digit, Top, Oddly;
    ghost var n := Val(curve.order);
    ghost var A := Recoded(k, n);
    ghost var m, d, s := Leading(A, i + 1), Digit(A, i), SignOf(sign);
    LeadingStep(k, n, i);
    SignedMultiple(sign, m, n);
    Sixteenfold(s, m);
    FourDoublings(curve, jres, g, s * m);
    var bits;
    index', abits', ashift', nsign, bits := NextLeftDigit(a, index, abits, ashift, A, i);
    AlignAndAdd(curve, pmult[bits / 2], jres, sign, nsign, g, 16 * m, d, 2 * (bits / 2) + 1);
  }

  /** The loop of point_multiply, from digit 62 down to digit 0. */
  method LeftToRight(curve: Curve, a: array<word>, pmult: seq<CurvePoint>, jres: JacobianPoint, first: word,
                     ghost g: int -> Point, ghost k: nat)
      returns (sign: word)
    requires Ready(curve, g) && Off(curve, jres) && OffTable(pmult, jres) && a !in {jres.x, jres.y, jres.z}
    requires 0 < k < Val(curve.order) && Norm(a) && Val(a) == Recoded(k, Val(curve.order))
    requires forall j :: 0 <= j < 8 ==> Entry(pmult[j], g(2 * j + 1), Val(curve.prime))
    requires Accumulated(jres, first, 63, g, k, Val(curve.prime), Val(curve.order))
    modifies jres.x, jres.y, jres.z
    ensures Accumulated(jres, sign, 0, g, k, Val(curve.prime), Val(curve.order))
  {
    hide Val, Norm, Cyclic, Prime, Entry, Accumulated, Recoded;
    var index, abits, ashift := 8, a[8], 12;
    sign := first;
    var i := 63;
    while i > 0
      invariant 0 <= i <= 63 && 0 <= index <= 8 && abits == a[index]
      invariant 0 <= ashift < 30 && 30 * index + ashift == 4 * i
      invariant Accumulated(jres, sign, i, g, k, Val(curve.prime), Val(curve.order))
      modifies jres.x, jres.y, jres.z
    {
      i := i - 1;
      sign, index, abits, ashift := LeftRound(curve, a, pmult, jres, sign, index, abits, ashift, g, k, i);
    }
  }

  lemma SizeOfDigit(sign: word, e: int, d: int)
    requires SignOf(sign) * e == d
    ensures SignOf(sign) * d == e
  {
  }

  /** The table entry a conversion starts from is not infinity. */
  lemma EntryNear(c: CurvePoint, g: int -> Point, e: int, a: int, b: int, p: int, n: int)
    requires Cyclic(g, a, b, p, n) && Entry(c, g(e), p) && e % n != 0
    ensures c.Shape() && Near(c.x, c.y, g(e), p)
  {
    MemberOf(g, e, a, b, p, n);
    Same(Val(c.x), p);
    Same(Val(c.y), p);
  }

  lemma FrontDigit(a: nat)
    ensures Leading(a, 63) == Digit(a, 63)
  {
    assert Leading(a, 64) == 0;
  }

  /** Random Jacobian coordinates for the digit in front. */
  method StartLeft(curve: Curve, a: array<word>, pmult: seq<CurvePoint>, jres: JacobianPoint, noise: array<word>,
                   ghost g: int -> Point, ghost k: nat)
      returns (sign: word)
    requires Ready(curve, g) && Off(curve, jres) && OffTable(pmult, jres) && {a, noise} !! {jres.x, jres.y, jres.z}
    requires 0 < k < Val(curve.order) && Norm(a) && Val(a) == Recoded(k, Val(curve.order)) && a[8] < 0x2_0000
    requires forall j :: 0 <= j < 8 ==> Entry(pmult[j], g(2 * j + 1), Val(curve.prime))
    requires Norm(noise) && 0 < Val(noise) < Val(curve.prime)
    modifies jres.x, jres.y, jres.z
    ensures Accumulated(jres, sign, 63, g, k, Val(curve.prime), Val(curve.order))
  {
    hide Val, Norm, Prime, Represents, Entry, SignOf, Recoded, Leading, Digit, Top, Oddly, Cyclic;
    ghost var p, n, A := Val(curve.prime), Val(curve.order), Recoded(k, Val(curve.order));
    FrontDigit(A);
    var bits := FirstWindow(a);
    WindowDigit(A, 63, bits);
    sign, bits := SignedWindow(bits);
    ghost var e := 2 * (bits / 2) + 1;
    SizeOfDigit(sign, e, Digit(A, 63));
    SmallDigit(e, n);
    EntryNear(pmult[bits / 2], g, e, curve.a, curve.b, p, n);
    CurveToJacobian(pmult[bits / 2], jres, curve.prime, noise, g(e));
  }

  /** k - n stands for the same point as k. */
  lemma SameMultiple(g: int -> Point, k: nat, a: int, b: int, p: int, n: int)
    requires Cyclic(g, a, b, p, n) && 0 < k < n < TWO256
    ensures g(Leading(Recoded(k, n), 0)) == g(Sum(Signed(Recoded(k, n)), 64, 16)) == g(k)
    ensures g(k).Affine? && InField(g(k), p) && (b % p != 0 ==> g(k) != Affine(0, 0))
  {
    assert n % 2 == 1 && p > 1;
    hide Cyclic, Leading, Recoded, Sum, Signed, Prime, OnCurve, Cong;
    RecodedValue(k, n);
    Periodic(g, k, -1, a, b, p, n);
    SmallResidue(k, n);
    MemberOf(g, k, a, b, p, n);
    AllOnCurve(g, k, a, b, p, n);
    if b % p != 0 {
      OriginOffCurve(a, b, p);
    }
  }

  method Deliver(curve: Curve, jres: JacobianPoint, res: CurvePoint, ghost g: int -> Point, ghost k: nat)
    requires Ready(curve, g) && jres.Shows(g(k), Val(curve.prime)) && 0 < k < Val(curve.order)
    requires res.Shape() && {res.x, res.y} !! {jres.x, jres.y, jres.z, curve.prime}
    modifies res.x, res.y
    ensures Entry(res, g(k), Val(curve.prime))
  {
    SameMultiple(g, k, curve.a, curve.b, Val(curve.prime), Val(curve.order));
    hide Val, Norm, Prime, Represents, Cyclic;
    JacobianToCurve(jres, res, curve.prime, g(k));
  }

  /** Undoing a sign: the opposite of the opposite. */
  lemma SignUndone(g: int -> Point, sign: word, m: int, a: int, b: int, p: int, n: int)
    requires Cyclic(g, a, b, p, n) && Mask(sign)
    ensures (if sign == 0 then g(SignOf(sign) * m) else Negative(g(SignOf(sign) * m), p)) == g(m)
  {
    if sign != 0 {
      Mirror(g, -m, a, b, p, n);
      assert SignOf(sign) * m == -m;
    }
  }

  method FinishLeft(curve: Curve, jres: JacobianPoint, sign: word, res: CurvePoint, ghost g: int -> Point, ghost k: nat)
    requires Ready(curve, g) && Off(curve, jres) && 0 < k < Val(curve.order)
    requires Accumulated(jres, sign, 0, g, k, Val(curve.prime), Val(curve.order))
    requires res.Shape() && {res.x, res.y} !! {jres.x, jres.y, jres.z, curve.prime, curve.order}
    modifies jres.z, res.x, res.y
    ensures Entry(res, g(k), Val(curve.prime))
  {
    ghost var a, b, p, n := curve.a, curve.b, Val(curve.prime), Val(curve.order);
    ghost var m := Leading(Recoded(k, n), 0);
    SignUndone(g, sign, m, a, b, p, n);
    MemberOf(g, SignOf(sign) * m, a, b, p, n);
    SameMultiple(g, k, a, b, p, n);
    hide Val, Norm, Prime, Represents, Cyclic, Leading, Recoded, Negative;
    NegateZ(sign, jres, curve.prime, g(SignOf(sign) * m));
    Deliver(curve, jres, res, g, k);
  }

  /** The part of point_multiply that works on the recoded scalar a. */
  method MultiplyRecoded(curve: Curve, a: array<word>, point: CurvePoint, res: CurvePoint, noise: array<word>,
                         ghost g: int -> Point, ghost k: nat)
    requires Ready(curve, g) && Entry(point, g(1), Val(curve.prime)) && a !in {res.x, res.y}
    requires 0 < k < Val(curve.order) && Norm(a) && Val(a) == Recoded(k, Val(curve.order)) && a[8] < 0x2_0000
    requires Norm(noise) && 0 < Val(noise) < Val(curve.prime)
    requires res.Shape() && {res.x, res.y} !! {curve.prime, curve.order}
    modifies res.x, res.y
    ensures Entry(res, g(k), Val(curve.prime))
  {
    hide Val, Norm, Prime, Cyclic, Accumulated, Recoded, Entry, Modulus, Ready;
    var pmult := OddMultiples(curve, point, g);
    var jres := new JacobianPoint();
    var sign := StartLeft(curve, a, pmult, jres, noise, g, k);
    sign := LeftToRight(curve, a, pmult, jres, sign, g, k);
    FinishLeft(curve, jres, sign, res, g, k);
  }

  /** res = k * point. */
  method PointMultiply(curve: Curve, k: array<word>, point: CurvePoint, res: CurvePoint, noise: array<word>,
                       ghost g: int -> Point)
    requires Ready(curve, g) && Norm(k) && Val(k) < Val(curve.order) && Entry(point, g(1), Val(curve.prime))
    requires Norm(noise) && 0 < Val(noise) < Val(curve.prime)
    requires res.Shape() && {res.x, res.y} !! {curve.prime, curve.order}
    modifies res.x, res.y
    ensures Entry(res, g(old(Val(k))), Val(curve.prime))
  {
    ghost var vk, p, n := Val(k), Val(curve.prime), Val(curve.order);
    ZeroMultiple(g, curve.a, curve.b, p, n);
    var a := new word[9];
    hide Val, Norm, Prime, Cyclic, Accumulated, Recoded;
    var nonZero := Recode(k, curve.order, a);
    if !nonZero {
      PointSetInfinity(res);
      InfinityEntry(res, p);
      return;
    }
    hide Entry;
    MultiplyRecoded(curve, a, point, res, noise, g, vk);
  }

  lemma ZeroMultiple(g: int -> Point, a: int, b: int, p: int, n: int)
    requires Cyclic(g, a, b, p, n)
    ensures g(0) == Infinity
  {
    SmallResidue(0, n);
    MemberOf(g, 0, a, b, p, n);
  }

  lemma InfinityEntry(c: CurvePoint, p: int)
    requires c.Shape() && Norm(c.x) && Norm(c.y) && c.At() == Infinity && p > 0
    ensures Entry(c, Infinity, p)
  {
  }
}
