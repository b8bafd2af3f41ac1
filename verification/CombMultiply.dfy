/** scalar_multiply (ecdsa.c): right to left over a table of precomputed multiples of G. */
module CombMultiply {
  import opened Words
  import opened Digits
  import opened Congruence
  import opened BignumBasics
  import opened EllipticCurve
  import opened CurvePoints
  import opened JacobianPoints
  import opened Orbit
  import opened SignedDigits
  import opened Recoding
  import opened WindowMultiply

  /** The sign of digit i. */
  ghost function SignAt(a: nat, i: nat): int
  {
    if Digit(a, i) > 0 then 1 else -1
  }

  /** What the loop keeps: jres shows the digits below i, up to the sign of the last of them. */
  ghost predicate Gathered(jres: JacobianPoint, i: nat, g: int -> Point, k: nat, p: int, n: int)
    requires p > 0 && k < n < TWO256 && n % 2 == 1 && 0 < i <= 64
    reads jres.x, jres.y, jres.z
  {
    var a := Recoded(k, n);
    jres.Shows(g(SignAt(a, i - 1) * Sum(Signed(a), i, 16)), p)
  }

  /** A row of the table: odd multiples of 16^i. */
  lemma RowEntry(e: int, i: nat, n: int)
    requires n > 16 && n % 2 == 1 && 0 < e < 16
    ensures (e * Weight(16, i)) % n != 0
  {
    PowersAgree(i);
    var w := Weight(16, i);
    if (e * w) % n == 0 {
      PowerOfTwoCoprime(4 * i, n);
      assert e * w == w * e && w * 0 == 0;
      Cancel(w, e, 0, n);
      Unique(e, 0, n);
    }
  }

  lemma LowWindow(a: array<word>)
    requires Norm(a)
    ensures Val(a) % 32 == a[0] % 32
  {
    FromStep(a[..], 0);
    assert a[..][0..] == a[..];
    Mod32(a[0], 0x200_0000 * From(a[..], 1));
  }

  /** How the sign of one digit relates to that of the next, in terms of the processed window. */
  lemma SignChange(a: nat, i: nat, w: nat, sign: word, bits: nat)
    requires 0 < i && w == Top(a, i) % 32 && (sign == 0 <==> w >= 16)
    requires bits % 2 == if sign == 0 then w % 2 else 1 - w % 2
    ensures SignAt(a, i) == SignOf(sign)
    ensures bits % 2 == 1 <==> SignAt(a, i) == SignAt(a, i - 1)
  {
    PreviousSign(a, i - 1);
    PreviousSign(a, i);
    hide Digit, Top;
    DivMod(Top(a, i), 32);
    OddlySplit(Top(a, i), Top(a, i) / 32, w);
    assert w % 2 == Top(a, i) % 2;
  }

  lemma TrailingStep(k: nat, n: nat, i: nat)
    requires 0 < k < n && Modulus(n) && 0 < i < 64
    ensures var s := Signed(Recoded(k, n));
      && Sum(s, i + 1, 16) == Sum(s, i, 16) + Digit(Recoded(k, n), i) * Weight(16, i)
      && Sum(s, i, 16) % n != 0 && Sum(s, i + 1, 16) % n != 0
  {
    TrailingNotMultiple(k, n, i);
    TrailingNotMultiple(k, n, i + 1);
  }

  lemma SignSquared(s: int, t: int, m: int)
    requires (s == 1 || s == -1) && (t == 1 || t == -1)
    ensures (if s == t then s * m else -(s * m)) == t * m
  {
  }

  /** The end of a round: c holds the size of digit i times 16^i. */
  method FlipAndAdd(curve: Curve, c: CurvePoint, jres: JacobianPoint, cond: word, ghost g: int -> Point,
                    ghost s: int, ghost t: int, ghost m: int, ghost d: int, ghost e: int)
    requires Ready(curve, g) && Off(curve, jres) && {jres.x, jres.y, jres.z} !! {c.x, c.y}
    requires (s == 1 || s == -1) && (t == 1 || t == -1) && Mask(cond) && (cond == 0 <==> s == t)
    requires t * e == d && Entry(c, g(e), Val(curve.prime)) && jres.Shows(g(s * m), Val(curve.prime))
    requires m % Val(curve.order) != 0 && e % Val(curve.order) != 0 && (m + d) % Val(curve.order) != 0
    modifies jres.x, jres.y, jres.z
    ensures jres.Shows(g(t * (m + d)), Val(curve.prime))
  {
    ghost var sm, tm := s * m, t * m;
    ghost var r := FlipFacts(g, s, t, m, d, e, curve.a, curve.b, Val(curve.prime), Val(curve.order));
    hide Val, Norm, Modulus, Cyclic, Prime, Represents, Entry, Negative;
    NegateY(cond, jres, curve.prime, g(sm));
    AddMultipleOf(curve, c, jres, g, e, tm);
  }

  lemma FlipFacts(g: int -> Point, s: int, t: int, m: int, d: int, e: int, a: int, b: int, p: int, n: int)
      returns (r: int)
    requires Cyclic(g, a, b, p, n) && (s == 1 || s == -1) && (t == 1 || t == -1) && t * e == d
    requires m % n != 0 && (m + d) % n != 0
    ensures InField(g(s * m), p) && g(s * m).Affine? && 0 < g(s * m).y
    ensures (if s == t then g(s * m) else Negative(g(s * m), p)) == g(t * m)
    ensures r == e + t * m == t * (m + d) && r % n != 0
  {
    SignSquared(s, t, m);
    SignedTotal(t, m, d, e);
    r := t * (m + d);
    UnitMultiple(s, m, n);
    UnitMultiple(t, m + d, n);
    var sm := s * m;
    assert s == t ==> t * m == sm;
    assert s != t ==> t * m == -sm;
    hide Cyclic, Negative;
    NoHalfTurn(g, sm, a, b, p, n);
    Mirror(g, sm, a, b, p, n);
  }

  lemma SignedTotal(t: int, m: int, d: int, e: int)
    requires (t == 1 || t == -1) && t * e == d
    ensures e + t * m == t * (m + d)
  {
  }

  lemma UnitMultiple(s: int, m: int, n: int)
    requires (s == 1 || s == -1) && n > 0 && m % n != 0
    ensures (s * m) % n != 0
  {
    NegatedMultiple(m, n);
  }

  /** Shifts the scalar and reads digit i: bits / 2 is the table index of its size, and cond says whether its
      sign differs from that of the digit before. */
  method NextDigit(a: array<word>, ghost A: nat, ghost i: nat) returns (cond: word, bits: word)
    requires Norm(a) && 0 < i && Val(a) == Top(A, i - 1)
    modifies a
    ensures Norm(a) && Val(a) == Top(A, i)
    ensures Mask(cond) && (cond == 0 <==> SignAt(A, i - 1) == SignAt(A, i))
    ensures bits < 16 && SignAt(A, i) * (2 * (bits / 2) + 1) == Digit(A, i)
  {
    TopStep(A, i - 1);
    hide Val, Norm, SignOf, SignAt, Digit, Top, Oddly, Wrap32;
    ShiftFour(a);
    LowWindow(a);
    bits := a[0] % 32;
    ghost var window := bits;
    WindowDigit(A, i, window);
    var sign;
    sign, bits := SignedWindow(bits);
    SignChange(A, i, window, sign, bits);
    MaskOfBit(bits % 2);
    cond := Wrap32(bits % 2 - 1);
  }

  /** A bit less one is a mask: all ones for 0, and zero for 1. */
  lemma MaskOfBit(b: int)
    requires 0 <= b < 2
    ensures Mask(Wrap32(b - 1)) && (Wrap32(b - 1) == 0 <==> b == 1)
  {
  }

  /** The array o is none of those of the table. */
  ghost predicate Clear(cp: seq<seq<CurvePoint>>, o: array<word>)
  {
    forall i, j :: 0 <= i < |cp| && 0 <= j < |cp[i]| ==> o != cp[i][j].x && o != cp[i][j].y
  }

  ghost predicate AllClear(cp: seq<seq<CurvePoint>>, jres: JacobianPoint)
  {
    Clear(cp, jres.x) && Clear(cp, jres.y) && Clear(cp, jres.z)
  }

  /** Row i of the table holds the odd multiples of 16^i * G. */
  ghost predicate Row(row: seq<CurvePoint>, w: int, g: int -> Point, p: int): (r: bool)
    reads set c: CurvePoint | c in row :: c.x, set c: CurvePoint | c in row :: c.y
    ensures r ==> |row| == 8
  {
    |row| == 8 && forall j :: 0 <= j < 8 ==> Entry(row[j], g((2 * j + 1) * w), p)
  }

  lemma Reordered(t: int, e: int, w: int, d: int)
    requires t * e == d
    ensures t * (e * w) == d * w
  {
    assert t * (e * w) == (t * e) * w;
  }

  lemma UnitSign(a: nat, i: nat)
    ensures SignAt(a, i) == 1 || SignAt(a, i) == -1
  {
  }

  /** One round of the loop, for digit i. */
  method CombRound(curve: Curve, a: array<word>, row: seq<CurvePoint>, jres: JacobianPoint,
                   ghost g: int -> Point, ghost k: nat, ghost i: nat)
    requires Ready(curve, g) && Off(curve, jres)
    requires a !in {jres.x, jres.y, jres.z, curve.prime, curve.order} && Norm(a)
    requires OffTable(row, jres) && (forall j :: 0 <= j < 8 ==> a !in {row[j].x, row[j].y})
        && Row(row, Weight(16, i), g, Val(curve.prime))
    requires 0 < k < Val(curve.order) && 0 < i < 64 && Val(a) == Top(Recoded(k, Val(curve.order)), i - 1)
    requires Gathered(jres, i, g, k, Val(curve.prime), Val(curve.order))
    modifies a, jres.x, jres.y, jres.z
    ensures Norm(a) && Val(a) == Top(Recoded(k, Val(curve.order)), i)
    ensures Gathered(jres, i + 1, g, k, Val(curve.prime), Val(curve.order))
  {
    hide Val, Norm, Cyclic, Prime, Represents, Entry, SignAt, Recoded, Digit, Top, Oddly, Sum, Signed, Weight;
    ghost var n, A := Val(curve.order), Recoded(k, Val(curve.order));
    ghost var s, t, m, d, w := SignAt(A, i - 1), SignAt(A, i), Sum(Signed(A), i, 16), Digit(A, i), Weight(16, i);
    TrailingStep(k, n, i);
    UnitSign(A, i - 1);
    UnitSign(A, i);
    var cond, bits := NextDigit(a, A, i);
    ghost var e := 2 * (bits / 2) + 1;
    RowEntry(e, i, n);
    Reordered(t, e, w, d);
    FlipAndAdd(curve, row[bits / 2], jres, cond, g, s, t, m, d * w, e * w);
  }

  /** The table of the curve: cp[i][j] = (2 j + 1) * 16^i * G. */
  ghost predicate Comb(curve: Curve, g: int -> Point, p: int)
    reads set i, j | 0 <= i < |curve.cp| && 0 <= j < |curve.cp[i]| :: curve.cp[i][j].x
    reads set i, j | 0 <= i < |curve.cp| && 0 <= j < |curve.cp[i]| :: curve.cp[i][j].y
  {
    |curve.cp| == 64 && forall i :: 0 <= i < 64 ==> Row(curve.cp[i], Weight(16, i), g, p)
  }

  /** The loop of scalar_multiply, from digit 1 up to digit 63. */
  method RightToLeft(curve: Curve, a: array<word>, jres: JacobianPoint, ghost g: int -> Point, ghost k: nat)
    requires Ready(curve, g) && Off(curve, jres) && Comb(curve, g, Val(curve.prime))
    requires a !in {jres.x, jres.y, jres.z, curve.prime, curve.order} && Norm(a)
    requires Clear(curve.cp, a) && AllClear(curve.cp, jres)
    requires 0 < k < Val(curve.order) && Val(a) == Top(Recoded(k, Val(curve.order)), 0)
    requires Gathered(jres, 1, g, k, Val(curve.prime), Val(curve.order))
    modifies a, jres.x, jres.y, jres.z
    ensures Norm(a) && Val(a) == Top(Recoded(k, Val(curve.order)), 63)
    ensures Gathered(jres, 64, g, k, Val(curve.prime), Val(curve.order))
  {
    hide Val, Norm, Cyclic, Prime, Entry, Gathered, Recoded, Top, Row;
    var i := 1;
    while i < 64
      invariant 1 <= i <= 64 && Norm(a) && Val(a) == Top(Recoded(k, Val(curve.order)), i - 1)
      invariant Gathered(jres, i, g, k, Val(curve.prime), Val(curve.order))
      modifies a, jres.x, jres.y, jres.z
    {
      CombRound(curve, a, curve.cp[i], jres, g, k, i);
      i := i + 1;
    }
  }

  method StartRight(curve: Curve, a: array<word>, jres: JacobianPoint, noise: array<word>,
                    ghost g: int -> Point, ghost k: nat)
    requires Ready(curve, g) && Off(curve, jres) && Comb(curve, g, Val(curve.prime)) && AllClear(curve.cp, jres)
    requires {a, noise} !! {jres.x, jres.y, jres.z} && Norm(a) && Norm(noise) && 0 < Val(noise) < Val(curve.prime)
    requires 0 < k < Val(curve.order) && Val(a) == Recoded(k, Val(curve.order))
    modifies jres.x, jres.y, jres.z
    ensures Gathered(jres, 1, g, k, Val(curve.prime), Val(curve.order))
  {
    hide Val, Norm, Prime, Represents, Entry, SignOf, SignAt, Recoded, Digit, Top, Oddly, Cyclic, Sum, Signed, Weight;
    ghost var p, n, A := Val(curve.prime), Val(curve.order), Recoded(k, Val(curve.order));
    FirstDigit(A);
    assert Row(curve.cp[0], Weight(16, 0), g, p);
    LowWindow(a);
    var lowbits: word := a[0] % 32;
    ghost var window := lowbits;
    WindowDigit(A, 0, window);
    var sign;
    sign, lowbits := SignedWindow(lowbits);
    ghost var e := 2 * (lowbits / 2) + 1;
    FirstSign(A, sign, window, e);
    SmallDigit(e, n);
    EntryNear(curve.cp[0][lowbits / 2], g, e, curve.a, curve.b, p, n);
    CurveToJacobian(curve.cp[0][lowbits / 2], jres, curve.prime, noise, g(e));
  }

  lemma FirstDigit(a: nat)
    ensures Top(a, 0) == a && Weight(16, 0) == 1 && Sum(Signed(a), 1, 16) == Digit(a, 0)
  {
    assert Weight(16, 0) == 1;
    DivModUnique(a, 1, a, 0);
    assert Sum(Signed(a), 1, 16) == Sum(Signed(a), 0, 16) + Signed(a)[0] * Weight(16, 0);
  }

  lemma FirstSign(a: nat, sign: word, w: nat, e: int)
    requires w == Top(a, 0) % 32 && (sign == 0 <==> w >= 16) && SignOf(sign) * e == Digit(a, 0)
    ensures SignAt(a, 0) * Digit(a, 0) == e
  {
    PreviousSign(a, 0);
    hide Digit, Top;
  }

  method LastMask(a: array<word>, ghost A: nat) returns (cond: word)
    requires Norm(a) && Val(a) == Top(A, 63)
    ensures Mask(cond) && (cond == 0 <==> SignAt(A, 63) == 1)
  {
    LowWindow(a);
    hide Val, Norm, SignAt, Top, Wrap32;
    LastSign(A, a[0]);
    var bit: int := a[0] / 16 % 2;
    MaskOfBit(bit);
    cond := Wrap32(bit - 1);
  }

  /** The end of scalar_multiply: bit 4 of what is left of the scalar is the sign of the last digit. */
  method FinishRight(curve: Curve, a: array<word>, jres: JacobianPoint, res: CurvePoint,
                     ghost g: int -> Point, ghost k: nat)
    requires Ready(curve, g) && Off(curve, jres) && 0 < k < Val(curve.order) && Norm(a)
    requires Val(a) == Top(Recoded(k, Val(curve.order)), 63)
    requires Gathered(jres, 64, g, k, Val(curve.prime), Val(curve.order))
    requires res.Shape() && {res.x, res.y} !! {jres.x, jres.y, jres.z, curve.prime, curve.order}
    modifies jres.y, res.x, res.y
    ensures Entry(res, g(k), Val(curve.prime))
  {
    ghost var p, n, A := Val(curve.prime), Val(curve.order), Recoded(k, Val(curve.order));
    ghost var s, m := SignAt(A, 63), Sum(Signed(A), 64, 16);
    LastFacts(g, k, curve.a, curve.b, p, n);
    hide Val, Norm, Modulus, Prime, Represents, Cyclic, SignAt, Recoded, Top, Sum, Signed, Negative, Wrap32;
    var cond := LastMask(a, A);
    NegateY(cond, jres, curve.prime, g(s * m));
    Deliver(curve, jres, res, g, k);
  }

  lemma LastFacts(g: int -> Point, k: nat, a: int, b: int, p: int, n: int)
    requires Cyclic(g, a, b, p, n) && 0 < k < n && Modulus(n)
    ensures var A := Recoded(k, n);
      var s, m := SignAt(A, 63), Sum(Signed(A), 64, 16);
      && InField(g(s * m), p) && g(s * m).Affine? && 0 < g(s * m).y
      && (if s == 1 then g(s * m) else Negative(g(s * m), p)) == g(k)
  {
    var A := Recoded(k, n);
    var s, m := SignAt(A, 63), Sum(Signed(A), 64, 16);
    TrailingNotMultiple(k, n, 64);
    SameMultiple(g, k, a, b, p, n);
    hide Cyclic, Sum, Signed, Recoded, Leading, Digit;
    var r := FlipFacts(g, s, 1, m, 0, 0, a, b, p, n);
    assert 1 * m == m;
  }

  lemma LastSign(a: nat, x: nat)
    requires Top(a, 63) % 32 == x % 32
    ensures x / 16 % 2 == 1 <==> SignAt(a, 63) == 1
  {
    PreviousSign(a, 63);
    hide Digit, Top;
    BitFour(x);
  }

  /** res = k * G. */
  method ScalarMultiply(curve: Curve, k: array<word>, res: CurvePoint, noise: array<word>, ghost g: int -> Point)
    requires Ready(curve, g) && Norm(k) && Val(k) < Val(curve.order)
    requires Norm(noise) && 0 < Val(noise) < Val(curve.prime)
    requires Comb(curve, g, Val(curve.prime))
    requires res.Shape() && {res.x, res.y} !! {curve.prime, curve.order}
    modifies res.x, res.y
    ensures Entry(res, g(old(Val(k))), Val(curve.prime))
  {
    ghost var vk, p, n := Val(k), Val(curve.prime), Val(curve.order);
    ZeroMultiple(g, curve.a, curve.b, p, n);
    var a := new word[9];
    var jres := new JacobianPoint();
    assert Clear(curve.cp, a) && AllClear(curve.cp, jres);
    hide Val, Norm, Prime, Cyclic, Gathered, Recoded, Comb, Clear, AllClear;
    var nonZero := Recode(k, curve.order, a);
    if !nonZero {
      PointSetInfinity(res);
      InfinityEntry(res, p);
      return;
    }
    hide Entry;
    CombRecoded(curve, a, jres, res, noise, g, vk);
  }

  /** The part of scalar_multiply that works on the recoded scalar a. */
  method CombRecoded(curve: Curve, a: array<word>, jres: JacobianPoint, res: CurvePoint, noise: array<word>,
                     ghost g: int -> Point, ghost k: nat)
    requires Off(curve, jres) && AllClear(curve.cp, jres) && {jres.x, jres.y, jres.z} !! {a, res.x, res.y, noise}
    requires Ready(curve, g) && a !in {res.x, res.y, curve.prime, curve.order, noise}
    requires 0 < k < Val(curve.order) && Norm(a) && Val(a) == Recoded(k, Val(curve.order))
    requires Norm(noise) && 0 < Val(noise) < Val(curve.prime)
    requires Comb(curve, g, Val(curve.prime)) && Clear(curve.cp, a)
    requires res.Shape() && {res.x, res.y} !! {curve.prime, curve.order}
    modifies a, jres.x, jres.y, jres.z, res.x, res.y
    ensures Entry(res, g(k), Val(curve.prime))
  {
    hide Val, Norm, Prime, Cyclic, Gathered, Recoded, Entry, Top, Sum, Signed, Weight, Digit, Row, Ready, Comb;
    FirstDigit(Recoded(k, Val(curve.order)));
    StartRight(curve, a, jres, noise, g, k);
    RightToLeft(curve, a, jres, g, k);
    FinishRight(curve, a, jres, res, g, k);
  }

  /** Both algorithms give the same limbs for a multiple of G, whatever each of them draws. */
  method BothAgree(curve: Curve, k: array<word>, noise: array<word>, noise': array<word>, ghost g: int -> Point)
      returns (left: CurvePoint, right: CurvePoint)
    requires Ready(curve, g) && Norm(k) && Val(k) < Val(curve.order) && Entry(curve.G, g(1), Val(curve.prime))
    requires Norm(noise) && 0 < Val(noise) < Val(curve.prime)
    requires Norm(noise') && 0 < Val(noise') < Val(curve.prime)
    requires Comb(curve, g, Val(curve.prime))
    ensures left.x[..] == right.x[..] && left.y[..] == right.y[..]
  {
    left := new CurvePoint();
    right := new CurvePoint();
    hide Val, Norm, Prime, Cyclic, Entry, Modulus;
    PointMultiply(curve, k, curve.G, left, noise, g);
    ScalarMultiply(curve, k, right, noise', g);
    SameEntries(left, right, g(Val(k)), Val(curve.prime));
  }

  lemma SameEntries(c: CurvePoint, d: CurvePoint, P: Point, p: int)
    requires Entry(c, P, p) && Entry(d, P, p)
    ensures c.x[..] == d.x[..] && c.y[..] == d.y[..]
  {
    hide Val;
    NormInjective(c.x, d.x);
    NormInjective(c.y, d.y);
  }
}
