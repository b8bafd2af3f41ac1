/** ecdsa_sign_digest (ecdsa.c).  Random numbers and candidate nonces are parameters. */
module Ecdsa {
  import opened Words
  import opened Digits
  import opened Congruence
  import opened BignumBasics
  import opened BignumReduce
  import opened BignumMultiply
  import opened BignumConvert
  import opened BignumInverse
  import opened EllipticCurve
  import opened CurvePoints
  import opened Orbit
  import opened WindowMultiply
  import opened CombMultiply

  // ----- what a signature is

  /** (r, s) is the low-s signature of z under the key d with nonce k; bit 1 of rec says that the abscissa of k * G
      was n too large, and bit 0 is the parity of the ordinate of the point a verifier recovers. */
  ghost predicate Signature(g: int -> Point, k: int, z: int, d: int, n: int, r: int, s: int, rec: int)
    requires n > 0
  {
    && 0 < k < n && g(k).Affine? && 0 < r < n && 0 < s && 2 * s < n && 0 <= rec < 4
    && g(k).x == r + rec / 2 * n
    && SignsFor(s, if rec % 2 == g(k).y % 2 then k else -k, z, r, d, n)
  }

  /** The signing equation s k = z + r d. */
  ghost predicate SignsFor(s: int, k: int, z: int, r: int, d: int, n: int)
    requires n > 0
  {
    Cong(s * k, z + r * d, n)
  }

  /** Multiplying by the inverse of s gives back the nonce, up to its sign. */
  lemma NonceRecovered(k: int, z: int, d: int, r: int, s: int, w: int, n: int)
    requires n > 1 && SignsFor(s, k, z, r, d, n) && Cong(s * w, 1, n)
    ensures Cong(z * w + (r * w) * d, k, n)
  {
    Same(w, n);
    Mul(s * k, z + r * d, w, w, n);
    assert (z + r * d) * w == z * w + (r * w) * d;
    assert (s * k) * w == (s * w) * k;
    Same(k, n);
    Mul(s * w, 1, k, k, n);
    Sym((s * k) * w, z * w + (r * w) * d, n);
    Trans(z * w + (r * w) * d, (s * w) * k, k, n);
  }

  /** The verification equation: with the public key g(d) and w the inverse of s, the point z w * G + r w * Q
      has an abscissa congruent to r, and rec tells which of the points with that property it is. */
  lemma Verifies(g: int -> Point, k: int, z: int, d: int, r: int, s: int, rec: int, w: int,
                 a: int, b: int, p: int, n: int)
    requires Cyclic(g, a, b, p, n) && Signature(g, k, z, d, n, r, s, rec) && Cong(s * w, 1, n)
    ensures InField(g(z * w), p) && InField(g((r * w) * d), p)
    ensures var V := Plus(g(z * w), g((r * w) * d), a, p);
      V.Affine? && V.x % n == r && V.x == r + rec / 2 * n && V.y % 2 == rec % 2
  {
    var k' := if rec % 2 == g(k).y % 2 then k else -k;
    NonceRecovered(k', z, d, r, s, w, n);
    var q := Quotient(z * w + (r * w) * d, k', n);
    Orbit.Added(g, z * w, (r * w) * d, a, b, p, n);
    Periodic(g, k', q, a, b, p, n);
    Mirror(g, k, a, b, p, n);
    SmallResidue(k, n);
    NoHalfTurn(g, k, a, b, p, n);
    var x := r + rec / 2 * n;
    assert g(k).x == x;
    DivModUnique(x, n, rec / 2, r);
    assert p % 2 == 1 && p > 3 && Prime(p) && g(k).Affine? && InField(g(k), p);
    hide Cyclic, Signature, Plus, Cong, Prime, Negative;
    assert Plus(g(z * w), g((r * w) * d), a, p) == g(k');
    ParityOfMirror(g(k), p);
  }

  /** The two signs of the nonce: e and e' are 1 or -1. */
  lemma SameProduct(s: int, s': int, e: int, e': int, k: int, m: int, n: int)
    requires n > 1 && Coprime(k, n) && Cong(s * (e * k), m, n) && Cong(s' * (e' * k), m, n)
    ensures Cong(e * s, e' * s', n)
  {
    Sym(s' * (e' * k), m, n);
    Trans(s * (e * k), m, s' * (e' * k), n);
    assert s * (e * k) == k * (e * s) && s' * (e' * k) == k * (e' * s');
    Cancel(k, e * s, e' * s', n);
  }

  /** For one nonce, digest and key there is only one signature. */
  lemma SignatureUnique(g: int -> Point, k: int, z: int, d: int, n: int, r: int, s: int, rec: int,
                        r': int, s': int, rec': int)
    requires Prime(n) && Signature(g, k, z, d, n, r, s, rec) && Signature(g, k, z, d, n, r', s', rec')
    ensures r == r' && s == s' && rec == rec'
  {
    SmallResidue(k, n);
    PrimeCoprime(k, n);
    DivModUnique(g(k).x, n, rec / 2, r);
    DivModUnique(g(k).x, n, rec' / 2, r');
    var e := if rec % 2 == g(k).y % 2 then 1 else -1;
    var e' := if rec' % 2 == g(k).y % 2 then 1 else -1;
    SameProduct(s, s', e, e', k, z + r * d, n);
    hide Cong, Prime, Coprime;
    OneSign(s, s', e, e', n);
  }

  lemma OneSign(s: int, s': int, e: int, e': int, n: int)
    requires (e == 1 || e == -1) && (e' == 1 || e' == -1)
    requires 0 < s && 2 * s < n && 0 < s' && 2 * s' < n && Cong(e * s, e' * s', n)
    ensures e == e' && s == s'
  {
    Same(0, n);
    if e == e' {
      if e == -1 {
        Sub(0, 0, e * s, e' * s', n);
      }
      Unique(s, s', n);
    } else {
      Same(e' * s', n);
      Sub(e * s, e' * s', e' * s', e' * s', n);
      if e == -1 {
        Sub(0, 0, e * s - e' * s', 0, n);
      }
      Unique(s + s', 0, n);
      assert false;
    }
  }

  lemma ParityOfMirror(P: Point, p: int)
    requires P.Affine? && 0 < P.y && p % 2 == 1
    ensures Negative(P, p).Affine? && Negative(P, p).x == P.x && Negative(P, p).y % 2 == 1 - P.y % 2
  {
  }

  // ----- computing s

  /** The blinding factor cancels. */
  lemma Unblinded(b: int, k: int, bk: int, i: int, r: int, d: int, s1: int, z: int, s3: int, s4: int, n: int)
    requires n > 1 && Times(bk, b, k, n) && Inverts(i, bk, n) && Times(s1, r, d, n)
    requires Times(s3, i, s1 + z, n) && Times(s4, b, s3, n)
    ensures SignsFor(s4, k, z, r, d, n)
  {
    var t := s1 + z;
    Same(b, n);
    Same(k, n);
    Same(z, n);
    Same(t, n);
    hide Cong;
    TimesBoth(s4, b, s3, i * t, k, n);
    // s4 k = b (i t) k = (b k) (i t) = bk (i t) = (bk i) t = t
    assert (b * (i * t)) * k == (i * t) * (b * k);
    CongTimes(bk, b, k, i * t, n);
    assert (i * t) * bk == (bk * i) * t;
    InvertsTimes(i, bk, t, n);
    Trans(s4 * k, (i * t) * (b * k), (i * t) * bk, n);
    Trans(s4 * k, (bk * i) * t, t, n);
    AddProduct(s1, r, d, z, n);
    Trans(s4 * k, t, z + r * d, n);
  }

  lemma TimesBoth(r: int, b: int, s: int, v: int, k: int, n: int)
    requires n > 0 && Times(r, b, s, n) && Cong(s, v, n)
    ensures Cong(r * k, (b * v) * k, n)
  {
    Same(b, n);
    Same(k, n);
    Mul(b, b, s, v, n);
    Trans(r, b * s, b * v, n);
    Mul(r, b * v, k, k, n);
  }

  lemma CongTimes(m: int, b: int, k: int, v: int, n: int)
    requires n > 0 && Times(m, b, k, n)
    ensures Cong(v * (b * k), v * m, n)
  {
    Sym(m, b * k, n);
    Same(v, n);
    Mul(v, v, b * k, m, n);
  }

  lemma InvertsTimes(i: int, m: int, t: int, n: int)
    requires n > 0 && Inverts(i, m, n)
    ensures Cong((m * i) * t, t, n)
  {
    Same(t, n);
    Mul(m * i, 1, t, t, n);
  }

  lemma AddProduct(s: int, r: int, d: int, z: int, n: int)
    requires n > 0 && Times(s, r, d, n)
    ensures Cong(s + z, z + r * d, n)
  {
    Same(z, n);
    Add(s, r * d, z, z, n);
  }

  lemma BlindedCoprime(b: int, k: int, bk: int, n: int)
    requires Prime(n) && 0 < b < n && 0 < k < n && Times(bk, b, k, n)
    ensures Coprime(bk, n)
  {
    NonzeroCoprime(b, n);
    NonzeroCoprime(k, n);
    CoprimeProduct(b, k, n);
    Sym(bk, b * k, n);
    CoprimeCong(b * k, bk, n);
  }

  /** k = (randk k)^-1. */
  method BlindedInverse(order: array<word>, k: array<word>, randk: array<word>) returns (ghost bk: int)
    requires IsModulus(order) && Prime(Val(order)) && Norm(k) && 0 < Val(k) < Val(order)
    requires Norm(randk) && 0 < Val(randk) < Val(order) && k !in {order, randk}
    modifies k
    ensures Reduced(k, Val(order)) && Times(bk, Val(randk), old(Val(k)), Val(order)) && Inverts(Val(k), bk, Val(order))
  {
    ghost var n, vk, b := Val(order), Val(k), Val(randk);
    hide Val, Norm, Cong, Times, Inverts, Prime, Coprime;
    BnMultiply(randk, k, order);
    bk := Val(k);
    BlindedCoprime(b, vk, bk, n);
    BnInverse(k, order);
  }

  /** s = k^-1 (r d + z) modulo the order, with k hidden behind a random factor while it is inverted. */
  method ComputeS(order: array<word>, k: array<word>, randk: array<word>, rx: array<word>, s: array<word>,
                  z: array<word>, privKey: array<byte>)
    requires IsModulus(order) && Prime(Val(order)) && Norm(k) && 0 < Val(k) < Val(order)
    requires Norm(randk) && 0 < Val(randk) < Val(order) && Reduced(rx, Val(order)) && Norm(z) && Val(z) < TWO256
    requires s.Length == 9 && s !in {order, k, randk, rx, z} && k !in {order, randk, rx, z} && privKey.Length >= 32
    modifies k, s
    ensures Reduced(s, Val(order))
    ensures SignsFor(Val(s), old(Val(k)), Val(z), Val(rx), BeValue(privKey[0..32]), Val(order))
  {
    hide Val, Norm, Modulus, Cong, Times, Inverts, Prime, BeValue, SignsFor;
    ghost var n, vk, b, r, vz, d := Val(order), Val(k), Val(randk), Val(rx), Val(z), BeValue(privKey[0..32]);
    OrderSize(n);
    ghost var bk := BlindedInverse(order, k, randk);
    ghost var i := Val(k);
    ghost var s1 := KeyPart(order, rx, s, z, privKey);
    BnMultiply(k, s, order);
    ghost var s3 := Val(s);
    BnMultiply(randk, s, order);
    ghost var s4 := Val(s);
    Unblinded(b, vk, bk, i, r, d, s1, vz, s3, s4, n);
    BnMod(s, order);
    ResidueSigns(s4, vk, vz, r, d, n);
  }

  lemma OrderSize(n: int)
    requires Modulus(n)
    ensures n < TWO256 < 2 * n
  {
  }

  /** s = z + r d, not reduced. */
  method KeyPart(order: array<word>, rx: array<word>, s: array<word>, z: array<word>, privKey: array<byte>)
      returns (ghost s1: int)
    requires IsModulus(order) && Reduced(rx, Val(order)) && Norm(z) && Val(z) < TWO256
    requires s.Length == 9 && s !in {order, rx, z} && privKey.Length >= 32
    modifies s
    ensures 0 <= s1 < 2 * Val(order) && Times(s1, Val(rx), BeValue(privKey[0..32]), Val(order))
    ensures Norm(s) && Val(s) == s1 + Val(z)
  {
    hide Val, Norm, Modulus, Cong, Times, BeValue;
    OrderSize(Val(order));
    BnReadBe(privKey, 0, s);
    BnMultiply(rx, s, order);
    s1 := Val(s);
    BnAdd(s, z);
  }

  lemma ResidueSigns(s: int, k: int, z: int, r: int, d: int, n: int)
    requires n > 0 && SignsFor(s, k, z, r, d, n)
    ensures SignsFor(s % n, k, z, r, d, n)
  {
    Residue(s, n);
    Same(k, n);
    Mul(s % n, s, k, k, n);
    Trans((s % n) * k, s * k, z + r * d, n);
  }

  // ----- the smaller of s and n - s

  lemma FlipBit(b: nat)
    requires b < 4
    ensures Xor(b, 1) == if b % 2 == 0 then b + 1 else b - 1
  {
    assert Xor(b, 1) == if b == 0 then 1 else (if b % 2 == 1 then 0 else 1) + 2 * Xor(b / 2, 0);
    assert Xor(b / 2, 0) == b / 2;
  }

  lemma OppositeSigns(s: int, k: int, z: int, r: int, d: int, n: int)
    requires n > 0 && SignsFor(s, k, z, r, d, n)
    ensures SignsFor(n - s, -k, z, r, d, n)
  {
    assert (n - s) * -k == s * k + (-k) * n;
    Intro((n - s) * -k, s * k, n, -k);
    Trans((n - s) * -k, s * k, z + r * d, n);
  }

  method LowS(order: array<word>, half: array<word>, s: array<word>, rec: byte) returns (rec': byte)
    requires IsModulus(order) && Norm(half) && 2 * Val(half) + 1 == Val(order) && s !in {order, half}
    requires Reduced(s, Val(order)) && 0 < Val(s) && rec < 4
    modifies s
    ensures Norm(s) && 0 < Val(s) && 2 * Val(s) < Val(order)
    ensures Val(s) == (if rec' == rec then old(Val(s)) else Val(order) - old(Val(s)))
    ensures rec' < 4 && rec' / 2 == rec / 2
  {
    NormBound(s);
    hide Val, Norm, Xor;
    rec' := rec;
    var large := BnIsLess(half, s);
    if large {
      BnSubtract(order, s, s);
      FlipBit(rec);
      rec' := Xor(rec, 1);
    }
  }

  // ----- one attempt

  /** r = x mod n; the abscissa is below p < 2 n, so one subtraction is enough. */
  method ReduceAbscissa(order: array<word>, x: array<word>, rec: byte, ghost p: int) returns (rec': byte)
    requires IsModulus(order) && Modulus(p) && Reduced(x, p) && x != order && rec < 2
    modifies x
    ensures Reduced(x, Val(order)) && rec' < 4 && rec' % 2 == rec
    ensures old(Val(x)) == Val(x) + rec' / 2 * Val(order)
  {
    hide Val, Norm, Or;
    rec' := rec;
    var less := BnIsLess(x, order);
    if !less {
      BnSubtract(x, order, x);
      assert Pow2(1) == 2;
      OrDisjoint(rec, 2, 1);
      rec' := Or(rec, 2);
    }
  }

  /** Why an attempt with nonce k leads to no signature. */
  ghost predicate Rejected(g: int -> Point, k: int, z: int, d: int, n: int, canonical: (byte, seq<byte>) -> bool)
    requires n > 0
  {
    || k == 0 || k >= n
    || (g(k).Affine? && (g(k).x % n == 0 || (z + g(k).x % n * d) % n == 0))
    || exists rec: byte, sig: seq<byte> :: Refused(g, k, z, d, n, canonical, rec, sig)
  }

  /** The only signature there is for the nonce does not please the caller. */
  ghost predicate Refused(g: int -> Point, k: int, z: int, d: int, n: int, canonical: (byte, seq<byte>) -> bool,
                          rec: byte, sig: seq<byte>)
    requires n > 0
  {
    |sig| == 64 && Signature(g, k, z, d, n, BeValue(sig[0..32]), BeValue(sig[32..64]), rec) && !canonical(rec, sig)
  }

  lemma BytesUnique(g: int -> Point, k: int, z: int, d: int, n: int, rec: byte, sig: seq<byte>,
                    rec': byte, sig': seq<byte>)
    requires Prime(n) && |sig| == |sig'| == 64
    requires Signature(g, k, z, d, n, BeValue(sig[0..32]), BeValue(sig[32..64]), rec)
    requires Signature(g, k, z, d, n, BeValue(sig'[0..32]), BeValue(sig'[32..64]), rec')
    ensures sig == sig' && rec == rec'
  {
    SignatureUnique(g, k, z, d, n, BeValue(sig[0..32]), BeValue(sig[32..64]), rec,
                    BeValue(sig'[0..32]), BeValue(sig'[32..64]), rec');
    BeBytesUnique(sig[0..32], sig'[0..32]);
    BeBytesUnique(sig[32..64], sig'[32..64]);
    assert sig == sig[0..32] + sig[32..64] && sig' == sig'[0..32] + sig'[32..64];
  }

  /** A nonce whose signature pleases the caller is not rejected. */
  lemma AcceptedNotRejected(g: int -> Point, k: int, z: int, d: int, n: int, canonical: (byte, seq<byte>) -> bool,
                            rec: byte, sig: seq<byte>)
    requires Prime(n) && |sig| == 64 && canonical(rec, sig)
    requires Signature(g, k, z, d, n, BeValue(sig[0..32]), BeValue(sig[32..64]), rec)
    ensures !Rejected(g, k, z, d, n, canonical)
  {
    var r, s := BeValue(sig[0..32]), BeValue(sig[32..64]);
    DivModUnique(g(k).x, n, rec / 2, r);
    NumeratorNotZero(g, k, z, d, n, r, s, rec);
    forall rec': byte, sig': seq<byte> ensures !Refused(g, k, z, d, n, canonical, rec', sig') {
      if Refused(g, k, z, d, n, canonical, rec', sig') {
        BytesUnique(g, k, z, d, n, rec, sig, rec', sig');
        assert false;
      }
    }
  }

  lemma NumeratorNotZero(g: int -> Point, k: int, z: int, d: int, n: int, r: int, s: int, rec: int)
    requires Prime(n) && Signature(g, k, z, d, n, r, s, rec)
    ensures (z + r * d) % n != 0
  {
    var k' := if rec % 2 == g(k).y % 2 then k else -k;
    if (z + r * d) % n == 0 {
      SmallResidue(k, n);
      PrimeCoprime(k, n);
      SameResidue(s * k', z + r * d, n);
      SmallResidue(0, n);
      SameResidue(s * k', 0, n);
      Same(0, n);
      assert s * k' == k * s || s * k' == -(k * s);
      if k' != k {
        Sub(0, 0, s * k', 0, n);
      }
      Cancel(k, s, 0, n);
      Unique(s, 0, n);
      assert false;
    }
  }

  lemma ZeroRejected(g: int -> Point, k: int, z: int, d: int, n: int, canonical: (byte, seq<byte>) -> bool,
                     s: int, x: int, r: int, c: int)
    requires n > 0 && g(k).Affine? && g(k).x == x && x == r + c * n && 0 <= r < n
    requires r == 0 || (s == 0 && SignsFor(s, k, z, r, d, n))
    ensures Rejected(g, k, z, d, n, canonical)
  {
    DivModUnique(x, n, c, r);
    if r != 0 {
      Sym(s * k, z + r * d, n);
      assert s * k == 0;
    }
  }

  /** The nonce and its opposite belong to the two values of s. */
  lemma SignatureFound(g: int -> Point, k: int, z: int, d: int, n: int, x: int, y: int, r: int, s0: int, s: int,
                       rec0: int, rec: int)
    requires n > 0 && 0 < k < n && g(k) == Affine(x, y) && 0 < r < n && 0 <= rec0 < 4 && 0 <= rec < 4
    requires x == r + rec0 / 2 * n && rec0 % 2 == y % 2 && rec / 2 == rec0 / 2
    requires SignsFor(s0, k, z, r, d, n) && 0 < s && 2 * s < n && s == (if rec == rec0 then s0 else n - s0)
    ensures Signature(g, k, z, d, n, r, s, rec)
  {
    if rec != rec0 {
      OppositeSigns(s0, k, z, r, d, n);
    }
  }

  /** What a signer needs of a curve: a prime order and half of it. */
  ghost predicate Signing(curve: Curve)
    reads curve.order, curve.orderHalf
  {
    && IsModulus(curve.order) && Prime(Val(curve.order))
    && Norm(curve.orderHalf) && 2 * Val(curve.orderHalf) + 1 == Val(curve.order)
  }

  /** From the point R = k * G to the two numbers of the signature, in R.x and R.y. */
  method SignPoint(curve: Curve, k: array<word>, randk: array<word>, R: CurvePoint, z: array<word>,
                   privKey: array<byte>, ghost g: int -> Point, ghost p: int,
                   ghost canonical: (byte, seq<byte>) -> bool)
      returns (ok: bool, rec: byte)
    requires Signing(curve) && Modulus(p) && Norm(k) && 0 < Val(k) < Val(curve.order)
    requires Norm(randk) && 0 < Val(randk) < Val(curve.order) && Norm(z) && Val(z) < TWO256 && privKey.Length >= 32
    requires R.Holds(p) && g(Val(k)) == Affine(Val(R.x), Val(R.y))
    requires {R.x, R.y, k} !! {curve.order, curve.orderHalf, randk, z} && k !in {R.x, R.y}
    modifies k, R.x, R.y
    ensures ok ==> Norm(R.x) && Norm(R.y) && Val(R.x) < TWO256 && Val(R.y) < TWO256
    ensures ok ==> Signature(g, old(Val(k)), Val(z), BeValue(privKey[0..32]), Val(curve.order), Val(R.x), Val(R.y), rec)
    ensures !ok ==> Rejected(g, old(Val(k)), Val(z), BeValue(privKey[0..32]), Val(curve.order), canonical)
  {
    hide Val, Norm, Modulus, Prime, BeValue, SignsFor, Signature, Rejected;
    var order := curve.order;
    ghost var n, vk, vz, d := Val(order), Val(k), Val(z), BeValue(privKey[0..32]);
    ghost var x, y := Val(R.x), Val(R.y);
    OrderSize(n);
    LowestDigit(R.y);
    rec := R.y[0] % 2;
    rec := ReduceAbscissa(order, R.x, rec, p);
    ghost var rec0, r := rec, Val(R.x);
    var zero := BnIsZero(R.x);
    if zero {
      ZeroRejected(g, vk, vz, d, n, canonical, 1, x, 0, rec0 / 2);
      return false, rec;
    }
    ComputeS(order, k, randk, R.x, R.y, z, privKey);
    ghost var s0 := Val(R.y);
    zero := BnIsZero(R.y);
    if zero {
      ZeroRejected(g, vk, vz, d, n, canonical, 0, x, r, rec0 / 2);
      return false, rec;
    }
    rec := LowS(order, curve.orderHalf, R.y, rec);
    SignatureFound(g, vk, vz, d, n, x, y, r, s0, Val(R.y), rec0, rec);
    ok := true;
  }

  lemma LowestDigit(a: array<word>)
    requires Norm(a)
    ensures Val(a) % 2 == a[0] % 2
  {
    LowWindow(a);
    ghost var v := Val(a);
    assert v % 32 % 2 == v % 2;
  }

  /** Limbs of a number drawn from 1..bound - 1. */
  ghost predicate Drawn(s: seq<word>, bound: int)
  {
    |s| == 9 && Normal(s, BASE) && 0 < Sum(s, 9, BASE) < bound
  }

  method NewNumber(s: seq<word>, ghost bound: int) returns (a: array<word>)
    requires Drawn(s, bound)
    ensures fresh(a) && Norm(a) && 0 < Val(a) < bound
  {
    a := new word[9](i requires 0 <= i < 9 => s[i]);
    assert a[..] == s;
  }

  method ReadNonce(nonce: seq<byte>) returns (k: array<word>)
    requires |nonce| == 32
    ensures fresh(k) && Norm(k) && Val(k) == BeValue(nonce)
  {
    var buf := new byte[32](i requires 0 <= i < 32 => nonce[i]);
    k := new word[9];
    BnReadBe(buf, 0, k);
    assert buf[0..32] == nonce;
  }

  method WriteSignature(x: array<word>, y: array<word>, sig: array<byte>)
    requires Norm(x) && Norm(y) && Val(x) < TWO256 && Val(y) < TWO256 && sig.Length >= 64
    modifies sig
    ensures BeValue(sig[0..32]) == Val(x) && BeValue(sig[32..64]) == Val(y)
  {
    hide Val, Norm, BeValue;
    BnWriteBe(x, sig, 0);
    ghost var first := sig[0..32];
    BnWriteBe(y, sig, 32);
    assert sig[0..32] == first;
  }

  /** What is assumed of the surroundings: a table of multiples of G, an order and half of it. */
  ghost predicate Setting(curve: Curve, g: int -> Point)
    requires Ready(curve, g)
    reads curve.prime, curve.order, curve.orderHalf
    reads set i, j | 0 <= i < |curve.cp| && 0 <= j < |curve.cp[i]| :: curve.cp[i][j].x
    reads set i, j | 0 <= i < |curve.cp| && 0 <= j < |curve.cp[i]| :: curve.cp[i][j].y
  {
    Signing(curve) && Comb(curve, g, Val(curve.prime))
  }

  /** The two numbers of the signature for a nonce in range. */
  method SignNonce(curve: Curve, k: array<word>, blind: seq<word>, noise: seq<word>, z: array<word>,
                   privKey: array<byte>, ghost canonical: (byte, seq<byte>) -> bool, ghost g: int -> Point)
      returns (ok: bool, rec: byte, R: CurvePoint)
    requires Ready(curve, g) && Setting(curve, g)
    requires Drawn(blind, Val(curve.order)) && Drawn(noise, Val(curve.prime)) && k !in {curve.order, curve.orderHalf, z}
    requires Norm(z) && Val(z) < TWO256 && privKey.Length >= 32 && Norm(k) && 0 < Val(k) < Val(curve.order)
    modifies k
    ensures fresh(R.x) && fresh(R.y)
    ensures ok ==> Norm(R.x) && Norm(R.y) && Val(R.x) < TWO256 && Val(R.y) < TWO256
    ensures ok ==> Signature(g, old(Val(k)), Val(z), BeValue(privKey[0..32]), Val(curve.order), Val(R.x), Val(R.y), rec)
    ensures !ok ==> Rejected(g, old(Val(k)), Val(z), BeValue(privKey[0..32]), Val(curve.order), canonical)
  {
    assert Signing(curve) && Comb(curve, g, Val(curve.prime)) && Modulus(Val(curve.prime));
    hide Val, Norm, Modulus, Prime, BeValue, Signature, Cyclic, Comb, Entry, Ready, Setting, Rejected;
    R := NoncePoint(curve, k, noise, g);
    var randk := NewNumber(blind, Val(curve.order));
    ok, rec := SignPoint(curve, k, randk, R, z, privKey, g, Val(curve.prime), canonical);
  }

  /** One round of the loop: a signature is written and accepted, or there is a reason why not. */
  method AttemptWith(curve: Curve, k: array<word>, blind: seq<word>, noise: seq<word>, privKey: array<byte>,
                     z: array<word>, sig: array<byte>, canonical: (byte, seq<byte>) -> bool, ghost g: int -> Point)
      returns (ok: bool, rec: byte)
    requires Ready(curve, g) && Setting(curve, g) && Norm(k) && k !in {curve.order, curve.orderHalf, z}
    requires Drawn(blind, Val(curve.order)) && Drawn(noise, Val(curve.prime))
    requires Norm(z) && Val(z) < TWO256 && privKey.Length >= 32 && sig.Length >= 64 && sig != privKey
    modifies k, sig
    ensures ok ==> canonical(rec, sig[0..64])
    ensures ok ==> Signature(g, old(Val(k)), Val(z), BeValue(privKey[0..32]), Val(curve.order),
                             BeValue(sig[0..32]), BeValue(sig[32..64]), rec)
    ensures !ok ==> Rejected(g, old(Val(k)), Val(z), BeValue(privKey[0..32]), Val(curve.order), canonical)
  {
    ghost var n, vz, vk, d := Val(curve.order), Val(z), Val(k), BeValue(privKey[0..32]);
    hide Val, Norm, Modulus, Prime, BeValue, Signature, Cyclic, Comb, Entry, Ready;
    rec := 0;
    var zero := BnIsZero(k);
    var less := BnIsLess(k, curve.order);
    if zero || !less {
      return false, rec;
    }
    hide Rejected, Setting;
    var R;
    ok, rec, R := SignNonce(curve, k, blind, noise, z, privKey, canonical, g);
    if !ok {
      return;
    }
    ok := Publish(R.x, R.y, sig, rec, canonical, g, vk, vz, d, n);
  }

  /** An attempt whose nonce is given as bytes. */
  method Attempt(curve: Curve, nonce: seq<byte>, blind: seq<word>, noise: seq<word>, privKey: array<byte>,
                 z: array<word>, sig: array<byte>, canonical: (byte, seq<byte>) -> bool, ghost g: int -> Point)
      returns (ok: bool, rec: byte)
    requires Ready(curve, g) && Setting(curve, g)
    requires |nonce| == 32 && Drawn(blind, Val(curve.order)) && Drawn(noise, Val(curve.prime))
    requires Norm(z) && Val(z) < TWO256 && privKey.Length >= 32 && sig.Length >= 64 && sig != privKey
    modifies sig
    ensures ok ==> canonical(rec, sig[0..64])
    ensures ok ==> Signature(g, BeValue(nonce), Val(z), BeValue(privKey[0..32]), Val(curve.order),
                             BeValue(sig[0..32]), BeValue(sig[32..64]), rec)
    ensures !ok ==> Rejected(g, BeValue(nonce), Val(z), BeValue(privKey[0..32]), Val(curve.order), canonical)
  {
    hide Val, Norm, Modulus, Prime, BeValue, Signature, Cyclic, Comb, Entry, Ready, Rejected, Setting;
    var k := ReadNonce(nonce);
    ok, rec := AttemptWith(curve, k, blind, noise, privKey, z, sig, canonical, g);
  }

  /** k * G, for a nonce in range. */
  method NoncePoint(curve: Curve, k: array<word>, noise: seq<word>, ghost g: int -> Point) returns (R: CurvePoint)
    requires Ready(curve, g) && Comb(curve, g, Val(curve.prime)) && Drawn(noise, Val(curve.prime))
    requires Norm(k) && 0 < Val(k) < Val(curve.order)
    ensures fresh(R.x) && fresh(R.y) && R.Holds(Val(curve.prime)) && g(Val(k)) == Affine(Val(R.x), Val(R.y))
  {
    R := new CurvePoint();
    var random := NewNumber(noise, Val(curve.prime));
    hide Val, Norm, Modulus, Prime, Cyclic, Comb, Entry;
    ScalarMultiply(curve, k, R, random, g);
    EntryAffine(R, g, Val(k), curve.a, curve.b, Val(curve.prime), Val(curve.order));
  }

  lemma EntryAffine(c: CurvePoint, g: int -> Point, k: int, a: int, b: int, p: int, n: int)
    requires Cyclic(g, a, b, p, n) && 0 < k < n && Entry(c, g(k), p)
    ensures c.Holds(p) && g(k) == Affine(Val(c.x), Val(c.y))
  {
    SmallResidue(k, n);
    MemberOf(g, k, a, b, p, n);
  }

  /** Writes the signature and asks the caller whether it will do. */
  method Publish(x: array<word>, y: array<word>, sig: array<byte>, rec: byte, canonical: (byte, seq<byte>) -> bool,
                 ghost g: int -> Point, ghost k: int, ghost z: int, ghost d: int, ghost n: int)
      returns (ok: bool)
    requires Norm(x) && Norm(y) && Val(x) < TWO256 && Val(y) < TWO256 && sig.Length >= 64
    requires n > 0 && Signature(g, k, z, d, n, Val(x), Val(y), rec)
    modifies sig
    ensures ok ==> canonical(rec, sig[0..64])
    ensures ok ==> Signature(g, k, z, d, n, BeValue(sig[0..32]), BeValue(sig[32..64]), rec)
    ensures !ok ==> Rejected(g, k, z, d, n, canonical)
  {
    hide Val, Norm, BeValue, Signature, Rejected;
    WriteSignature(x, y, sig);
    ghost var s := sig[0..64];
    assert s[0..32] == sig[0..32] && s[32..64] == sig[32..64];
    ok := canonical(rec, sig[0..64]);
    if !ok {
      RefusedRejected(g, k, z, d, n, canonical, rec, s);
    }
  }

  lemma RefusedRejected(g: int -> Point, k: int, z: int, d: int, n: int, canonical: (byte, seq<byte>) -> bool,
                        rec: byte, sig: seq<byte>)
    requires n > 0 && |sig| == 64 && !canonical(rec, sig)
    requires Signature(g, k, z, d, n, BeValue(sig[0..32]), BeValue(sig[32..64]), rec)
    ensures Rejected(g, k, z, d, n, canonical)
  {
    assert Refused(g, k, z, d, n, canonical, rec, sig);
  }

  /** One nonce, blinding factor and Jacobian noise for every attempt. */
  ghost predicate Supplied(nonce: nat -> seq<byte>, blind: nat -> seq<word>, noise: nat -> seq<word>, p: int, n: int)
  {
    forall i: nat :: |nonce(i)| == 32 && Drawn(blind(i), n) && Drawn(noise(i), p)
  }

  lemma SuppliedAt(nonce: nat -> seq<byte>, blind: nat -> seq<word>, noise: nat -> seq<word>, p: int, n: int, i: nat)
    requires Supplied(nonce, blind, noise, p, n)
    ensures |nonce(i)| == 32 && Drawn(blind(i), n) && Drawn(noise(i), p)
  {
  }

  lemma AcceptedBytes(g: int -> Point, k: int, z: int, d: int, n: int, canonical: (byte, seq<byte>) -> bool,
                      rec: byte, sig: array<byte>)
    requires Prime(n) && sig.Length >= 64 && canonical(rec, sig[0..64])
    requires Signature(g, k, z, d, n, BeValue(sig[0..32]), BeValue(sig[32..64]), rec)
    ensures !Rejected(g, k, z, d, n, canonical)
  {
    assert sig[0..64][0..32] == sig[0..32] && sig[0..64][32..64] == sig[32..64];
    hide Signature, Rejected, BeValue, Prime;
    AcceptedNotRejected(g, k, z, d, n, canonical, rec, sig[0..64]);
  }

  /** The loop of ecdsa_sign_digest. */
  method SignLoop(curve: Curve, privKey: array<byte>, z: array<word>, sig: array<byte>,
                  nonce: nat -> seq<byte>, blind: nat -> seq<word>, noise: nat -> seq<word>,
                  canonical: (byte, seq<byte>) -> bool, ghost g: int -> Point, ghost d: int)
      returns (result: int, pby: byte, attempt: nat)
    requires Ready(curve, g) && Setting(curve, g)
    requires Supplied(nonce, blind, noise, Val(curve.prime), Val(curve.order))
    requires privKey.Length >= 32 && sig.Length >= 64 && sig != privKey && d == BeValue(privKey[0..32])
    requires Norm(z) && Val(z) < TWO256
    modifies sig
    ensures result == (if attempt < 10000 then 0 else -1)
    ensures result == 0 ==> canonical(pby, sig[0..64])
    ensures result == 0 ==>
      Signature(g, BeValue(nonce(attempt)), Val(z), d, Val(curve.order), BeValue(sig[0..32]), BeValue(sig[32..64]), pby)
    ensures forall i :: 0 <= i < attempt ==> Rejected(g, BeValue(nonce(i)), Val(z), d, Val(curve.order), canonical)
    ensures result == 0 ==> !Rejected(g, BeValue(nonce(attempt)), Val(z), d, Val(curve.order), canonical)
  {
    assert Prime(Val(curve.order));
    hide Val, Norm, Prime, BeValue, Signature, Rejected, Cyclic, Comb, Ready, Setting, Supplied, Drawn;
    ghost var vz, p, n := Val(z), Val(curve.prime), Val(curve.order);
    attempt := 0;
    while attempt < 10000
      invariant 0 <= attempt <= 10000
      invariant forall i :: 0 <= i < attempt ==> Rejected(g, BeValue(nonce(i)), vz, d, n, canonical)
      modifies sig
    {
      SuppliedAt(nonce, blind, noise, p, n, attempt);
      var ok;
      ok, pby := Attempt(curve, nonce(attempt), blind(attempt), noise(attempt), privKey, z, sig, canonical, g);
      if ok {
        AcceptedBytes(g, BeValue(nonce(attempt)), vz, d, n, canonical, pby, sig);
        return 0, pby, attempt;
      }
      attempt := attempt + 1;
    }
    pby := 0;
    result := -1;
  }

  /** Signs a digest.  Candidate nonces, blinding factors and Jacobian noise are given for every attempt; canonical
      is the caller's rule (true for all signatures when no rule is given). */
  method EcdsaSignDigest(curve: Curve, privKey: array<byte>, digest: array<byte>, sig: array<byte>,
                         nonce: nat -> seq<byte>, blind: nat -> seq<word>, noise: nat -> seq<word>,
                         canonical: (byte, seq<byte>) -> bool, ghost g: int -> Point)
      returns (result: int, pby: byte, attempt: nat)
    requires Ready(curve, g) && Setting(curve, g)
    requires Supplied(nonce, blind, noise, Val(curve.prime), Val(curve.order))
    requires privKey.Length >= 32 && digest.Length >= 32 && sig.Length >= 64 && sig !in {privKey, digest}
    modifies sig
    ensures result == (if attempt < 10000 then 0 else -1)
    ensures result == 0 ==> canonical(pby, sig[0..64])
    ensures result == 0 ==>
      Signature(g, BeValue(nonce(attempt)), BeValue(digest[0..32]), BeValue(privKey[0..32]), Val(curve.order),
                BeValue(sig[0..32]), BeValue(sig[32..64]), pby)
    ensures forall i :: 0 <= i < attempt ==>
      Rejected(g, BeValue(nonce(i)), BeValue(digest[0..32]), BeValue(privKey[0..32]), Val(curve.order), canonical)
    ensures result == 0 ==>
      !Rejected(g, BeValue(nonce(attempt)), BeValue(digest[0..32]), BeValue(privKey[0..32]), Val(curve.order),
                canonical)
  {
    var z := new word[9];
    hide Val, Norm, Prime, BeValue, Signature, Rejected, Cyclic, Comb, Ready, Setting, Supplied;
    BnReadBe(digest, 0, z);
    result, pby, attempt :=
      SignLoop(curve, privKey, z, sig, nonce, blind, noise, canonical, g, BeValue(privKey[0..32]));
  }
}
